# eLocker gateway and sensor link, modelled in Dafny

eLocker is a charging-locker system. A Node.js gateway
(`wired_solution/nodejs/server.js`, with an earlier tool `nodejs/serial.js`)
talks to two serial buses:

- the **sensor link**, whose ESP32 sensors (`wired_solution/master/uart_hdl.cpp`)
  answer polls with current, voltage, smoke and fire readings in CRC-16/MODBUS
  frames `0x02, LEN, body…, CRC_hi, CRC_lo, 0x03`;
- the **CU lock controller**, which takes 5-byte command frames with an 8-bit
  additive checksum (`server.js`, `nodejs/cuLock.js`) and answers with a
  9-byte status word holding one lock bit per locker.

A sensor master (`master/dev_mng.cpp`) can instead collect readings and send
them over TCP as a count byte followed by 9-byte records. The gateway finds
the master by UDP broadcast and reconnects with exponential backoff.

The gateway keeps a table of sensors with a full-charge debounce counter
(`full_cnt`). Lockers are opened when /unlock is asked for a locked, charged
or empty locker, and also when the CU reports a lock closed on a locker
drawing no current.

The project models, module by module:

| module | file | what it holds |
|---|---|---|
| `Bytes` | bytes.dfy | bytes, 4-byte float words, `Buffer.indexOf`, the JS number-to-byte store, big-endian pairs, `memcpy` |
| `Crc` | crc.dfy | a reference CRC-16/MODBUS (section 6.2.2 of the Modbus over Serial Line Specification V1.02), the host's two 32-bit JS loops and the firmware's `uint16_t` loop, all proved equal to it; the check value 0x4B37 |
| `SensorFrame` | sensor_frame.dfy | `buildPacket`, both host validators, and the host's STX…ETX slicer |
| `CuFrame` | cu_frame.dfy | the CU checksum and frame builders of both files, the lock bitmask, and the CU receive window |
| `FirmwareUart` | firmware_uart.dfy | the firmware's byte-at-a-time receiver (a class over the C state), both frame senders (filling arrays), and the command dispatch |
| `DevicePacket` | device_packet.dfy | the master's `devices_` table (a class), its aggregate packet built in an array, and `parseSensorDevices` |
| `DeviceStore` | device_store.dfy | the gateway's sensor table as values: upsert with debounce, status, the /unlock gate, the lock pass, the /getStatus poll |
| `HostGateway` | host_gateway.dfy | the gateway's mutable table and CU buffer as classes whose methods are proved against `DeviceStore` |
| `Correlator` | correlator.dfy | the single-resolver `sendAndWait` correlator as a transition system with invariants, and the sensor port as a class |
| `Reconnect` | reconnect.dfy | UDP peer capture and the TCP reconnect backoff |
| `LegacyStatus` | legacy_status.dfy | the /getStatus handler of `nodejs/serial.js` |

The gateway's module-level state is modelled as classes:

- `HostGateway.DeviceTable` holds `sensorDevices` and the two thresholds.
- `HostGateway.CuReceiver` holds `rxBuffer`.
- `Correlator.SensorPort` holds `recvBuffer`, `sensorResolver`, `sensorTimeoutHdl` and the promises.
- `Reconnect.PeerLink` holds `discoveredPeer`, `tcpReconnectDelay` and `tcpReconnectTimer`.
- `FirmwareUart.UartReceiver` holds `_uartState`, `pData`, `data_cnt` and `data_len`.
- `DevicePacket.DeviceManager` holds `devices_`.

Each method's `ensures` ties its new state to a function of the old one. The
properties are proved about those functions.

Four behaviours of the code shape the model:

- A sensor first seen with a qualifying reading starts with `full_cnt` 0. So six full readings are needed before `full_cnt >= SENSOR_FULL_CHARGED_DELAY` (5) lets /unlock open it (`DeviceStore.NewSensorGate`).
- The `sendAndWait` timer tests for *any* resolver, not its own. A request sent after a failed write can therefore be cut off by the earlier timer (see Findings).
- /getStatus sends the next request while the previous request's timer may still be set.
- /unlock opens sensor `id` by sending `buildCuLockOpenMessage(0, id)`, whose address byte is `id - 1` (`CuFrame.ServerOpen`). For ids above 16 that byte has a high nibble: sensor 17 sends 0x10, the address of CU 1's lock 0.

## Model

| member | source | states |
|---|---|---|
| Bytes.IndexOf | wired_solution/nodejs/server.js:545-546 | `indexOf(b, from)`: the first position at or after `from` holding `b`, none before it; -1 exactly when there is none |
| Bytes.ToByte | wired_solution/nodejs/server.js:240 | a JS number stored in a Buffer keeps its value mod 256 |
| Bytes.BigEndian | wired_solution/nodejs/server.js:493 | `(hi << 8) \| lo` has high byte `hi` and low byte `lo` |
| Bytes.CopyInto | wired_solution/master/uart_hdl.cpp:141 | `memcpy` writes `src` at the offset and leaves every other byte of the buffer unchanged |
| Crc.CheckValue | wired_solution/master/uart_hdl.cpp:37-51 | CRC-16/MODBUS of ASCII "123456789" is 0x4B37 |
| Crc.RegisterAppend | wired_solution/master/uart_hdl.cpp:39-49 | the register after `s + t` continues from the register after `s` |
| Crc.JsCrc16IsCrc16 | wired_solution/nodejs/server.js:173-183 | host `crc16` equals CRC-16/MODBUS on every byte sequence and is below 65536 |
| Crc.JsCrc16ModbusIsCrc16 | wired_solution/nodejs/server.js:193-207 | host `crc16_modbus` equals CRC-16/MODBUS on every byte sequence and is below 65536 |
| Crc.HostCrcsAgree | nodejs/serial.js:10-36 | `crc16` and `crc16_modbus` agree on every input |
| Crc.CalculateCrc16 | wired_solution/master/uart_hdl.cpp:37-51 | the firmware's outer loop over `data[from..from+count)` returns CRC-16/MODBUS of those bytes |
| Crc.AbsorbByte | wired_solution/master/uart_hdl.cpp:40-48 | XOR-ing a byte in and eight shifts by the inner loop absorb that byte into the register |
| SensorFrame.BuildPacket | wired_solution/nodejs/server.js:231-241 | frame of length n+7: STX, LEN = (4+n) mod 256, id, cmd, the data, …, ETX |
| SensorFrame.CrcCheckMeans | wired_solution/nodejs/server.js:427-432 | the received `(hi<<8)\|lo` equals `crc16(body)` iff the big-endian pair is the CRC-16/MODBUS of the body |
| SensorFrame.ValidateMeans | wired_solution/nodejs/server.js:407-446 | `validatePacket` (and serial.js's variant) accepts exactly the frames of at least 6 bytes with STX first, ETX last and a matching big-endian CRC over bytes 1..len-4 |
| SensorFrame.CrcFramedAccepted | wired_solution/nodejs/server.js:243-288 | `validateSensorPacket` accepts every such frame; the length check only sets the logged warning |
| SensorFrame.BuildValidates | wired_solution/nodejs/server.js:236-241 | every `buildPacket` frame validates; the warning appears iff more than 251 data bytes made LEN wrap |
| SensorFrame.BuildValidatesLegacy | nodejs/serial.js:65-69 | serial.js checks against LEN + 5, which no `buildPacket` frame meets, and accepts it anyway with the warning |
| SensorFrame.Slice | wired_solution/nodejs/server.js:544-550 | one loop turn: none iff under 7 bytes, no STX, or no ETX after it; else the candidate runs from the first STX to the first ETX after it, with no ETX inside, and the buffer keeps only what follows |
| SensorFrame.DrainLeaves | wired_solution/nodejs/server.js:544-547 | the loop ends on a buffer it cannot cut a frame from, which is a suffix of the input |
| SensorFrame.DrainFrames | wired_solution/nodejs/server.js:540-564 | sliceable frames sent back to back come out exactly, in order, leaving an empty buffer |
| SensorFrame.DrainAppend | wired_solution/nodejs/server.js:540-564 | a stream delivered in two chunks yields the first chunk's candidates, then those of its leftover followed by the second chunk, and leaves what the whole stream leaves: chunking does not change what is received |
| SensorFrame.SliceExtends | wired_solution/nodejs/server.js:544-551 | bytes arriving after a complete STX…ETX frame do not change which frame is sliced; they are appended to the remainder |
| SensorFrame.DrainSkipsNoise | wired_solution/nodejs/server.js:545-550 | bytes without STX before a frame are discarded and the frame is recovered |
| SensorFrame.DrainStrayStx | wired_solution/nodejs/server.js:545-549 | a stray STX in front of a frame becomes part of the candidate |
| SensorFrame.SliceCutsAtEtx | wired_solution/nodejs/server.js:546-549 | the candidate ends at the first 0x03 after STX, even inside a frame |
| SensorFrame.EarlyEtxCutsFrame | nodejs/serial.js:134-142 | a poll whose data byte is 0x03 is cut to 5 bytes and rejected as too short |
| CuFrame.SumFrom | nodejs/cuLock.js:11-17 | the `for … of` accumulator adds the sum of the numbers to its start |
| CuFrame.CheckSum | wired_solution/nodejs/server.js:185-191 | `sum & 0xff` is the sum mod 256, in 0..255 |
| CuFrame.ShiftOr | wired_solution/nodejs/server.js:224 | `(hi<<4)\|lo` is hi·16+lo for a nibble `lo`, and -1 when `lo` is -1 |
| CuFrame.Fill | wired_solution/nodejs/server.js:214-219 | the copied template gets address, command, ETX and the mod-256 sum of the first four entries |
| CuFrame.FillChecksumOk | wired_solution/nodejs/server.js:217-218 | the last byte is the checksum of the four bytes actually sent |
| CuFrame.StatusQuery | wired_solution/nodejs/server.js:213-220 | `[0x02, cu_id<<4, 0x30, 0x03, sum]` with a correct checksum |
| CuFrame.ToolStatusQuery | nodejs/cuLock.js:23-30 | `buildMessage` is the gateway's status query for CU 0 |
| CuFrame.StatusQueryIsTemplate | nodejs/cuLock.js:9 | that query is byte for byte `02 00 30 03 35` |
| CuFrame.ServerOpen | wired_solution/nodejs/server.js:222-229 | `[0x02, dev·16 + lockId-1, 0x31, 0x03, sum]` for locks 1..16; lock 0 gives address byte 0xFF; on device 0 the address byte is `lockId - 1` for every lock from 1 up |
| CuFrame.ToolOpen | nodejs/cuLock.js:32-39 | `[0x02, dev·16 + lockId, 0x31, 0x03, sum]` for locks 0..15 |
| CuFrame.OpenNumbering | nodejs/cuLock.js:34 | the gateway's lock n is the CU tool's lock n-1 |
| CuFrame.OpenFramesDistinct | wired_solution/nodejs/server.js:224 | different locks of one CU get different open frames |
| CuFrame.LockBitsOfReply | wired_solution/nodejs/server.js:493-496 | locks 1-8 are the bits of byte 3 and locks 9-16 the bits of byte 4 |
| CuFrame.CuStep | wired_solution/nodejs/server.js:490-514 | a window starting `02 00 35` consumes 9 bytes, anything else exactly 1 |
| CuFrame.CuScan | wired_solution/nodejs/server.js:486-516 | the loop leaves fewer than 9 bytes, a suffix of the input; every reply it takes is 9 bytes with the header |
| CuFrame.CuScanReplies | wired_solution/nodejs/server.js:489-510 | replies sent back to back are all taken, in order |
| CuFrame.CuScanAppend | wired_solution/nodejs/server.js:486-516 | the CU buffer fed in two chunks takes the first chunk's replies, then those of its leftover followed by the second chunk, and leaves what the whole stream leaves |
| CuFrame.CuScanSkips | wired_solution/nodejs/server.js:511-514 | bytes that cannot start a reply are dropped and the reply behind them is recovered |
| FirmwareUart.RunAppend | wired_solution/master/uart_hdl.cpp:64-117 | feeding `a` then `b` is feeding `a + b`: chunking across events does not matter |
| FirmwareUart.RunIgnoresNoise | wired_solution/master/uart_hdl.cpp:71-79 | in IDLE every byte other than STX is ignored |
| FirmwareUart.RunHeader | wired_solution/master/uart_hdl.cpp:80-95 | after STX, a LEN byte above 2 opens DATA with no bytes stored, otherwise back to IDLE |
| FirmwareUart.RunRejectsShortLen | wired_solution/master/uart_hdl.cpp:91-94 | LEN 0, 1 or 2 returns to IDLE |
| FirmwareUart.RunFillsData | wired_solution/master/uart_hdl.cpp:96-101 | DATA stores exactly LEN bytes and then waits for ETX |
| FirmwareUart.RunDeliversFrame | wired_solution/master/uart_hdl.cpp:102-110 | the payload is delivered iff the next byte is ETX; IDLE either way; no CRC is checked |
| FirmwareUart.RequestDelivered | wired_solution/master/uart_hdl.cpp:69-110 | a frame STX, n+4, n+4 bytes, ETX is delivered whole |
| FirmwareUart.HostRequestDelivered | wired_solution/master/uart_hdl.cpp:96-104 | every host `buildPacket` of ≤ 251 data bytes reaches the handler as id, cmd, data, CRC (n+4 bytes) |
| FirmwareUart.UartReceiver.constructor | wired_solution/master/uart_hdl.cpp:33 | the receiver starts IDLE |
| FirmwareUart.UartReceiver.OnByte | wired_solution/master/uart_hdl.cpp:69-112 | one pass of the switch over `_uartState`, `pData`, `data_cnt` is the `Step` of the abstract machine |
| FirmwareUart.UartReceiver.OnData | wired_solution/master/uart_hdl.cpp:64-117 | the `for` loop over a UART_DATA event is `Run` over its bytes |
| FirmwareUart.UartReceiver.OnTimeout | wired_solution/master/uart_hdl.cpp:122-128 | the inter-byte timeout returns any state to IDLE |
| FirmwareUart.SendFrame | wired_solution/master/uart_hdl.cpp:132-153 | `UART_SendBytes` frame: n+5 bytes, LEN = n+2, data at 2, big-endian CRC of bytes 1..n+1, ETX |
| FirmwareUart.Uart1Frame | wired_solution/master/uart_hdl.cpp:155-175 | `UART1_SendBytes` frame: n+6 bytes, LEN = n+3, own id at 2, data at 3, big-endian CRC of bytes 1..n+2, ETX |
| FirmwareUart.SendFrameAccepted | wired_solution/master/uart_hdl.cpp:135-145 | the host accepts it when there is data, and rejects an empty one as too short; the LEN+3 length check of `validatePacket` holds unless LEN wraps (more than 253 data bytes) |
| FirmwareUart.Uart1FrameAccepted | wired_solution/master/uart_hdl.cpp:158-168 | the host accepts every such frame, with LEN+3 matching whenever LEN does not wrap |
| FirmwareUart.UartSendBytes | wired_solution/master/uart_hdl.cpp:132-153 | fills a fresh array with exactly `SendFrame(data)` and returns true iff all bytes were written |
| FirmwareUart.Uart1SendBytes | wired_solution/master/uart_hdl.cpp:155-175 | fills a fresh array with exactly `Uart1Frame(id, data)` and returns true iff all bytes were written |
| FirmwareUart.ReplyBody | wired_solution/master/uart_hdl.cpp:194-200 | 10 bytes: mA float, V float, smoke, fire |
| FirmwareUart.HandleIncoming | wired_solution/master/uart_hdl.cpp:177-213 | a reply is sent iff the payload has > 1 byte, is for broadcast or this sensor, and is command 0; command 1 sends nothing |
| FirmwareUart.ReplyLayout | wired_solution/master/uart_hdl.cpp:194-201 | the reply frame is 16 bytes with mA at 3, V at 7, smoke at 11, fire at 12, and validates without warning |
| FirmwareUart.PollAnswered | wired_solution/master/uart_hdl.cpp:179-187 | a host poll for this sensor or broadcast is delivered and answered |
| FirmwareUart.PollForOtherIgnored | wired_solution/master/uart_hdl.cpp:183 | a poll for another sensor gets no reply |
| DevicePacket.FirstIndex | master/dev_mng.cpp:15-26 | the first index holding the id, or -1 iff none does |
| DevicePacket.Int8 | master/dev_mng.cpp:17-20 | an `int8_t` keeps -128..127 and turns 128..255 into -128..-1 |
| DevicePacket.UpdateExisting | master/dev_mng.cpp:35-39 | updating a known id overwrites that record only; size unchanged |
| DevicePacket.UpdateUnseen | master/dev_mng.cpp:40-44 | updating an unseen id appends one record |
| DevicePacket.UpdateKeepsDistinct | master/dev_mng.cpp:33-47 | ids stay pairwise distinct across updates |
| DevicePacket.Int8IndexDuplicates | master/dev_mng.cpp:15-20 | as written, the 129th device's update is appended a second time |
| DevicePacket.AsWrittenAgreesBelow128 | master/dev_mng.cpp:15-26 | up to 128 devices the `int8_t` index changes nothing |
| DevicePacket.DecodeEncode | wired_solution/nodejs/server.js:310-312 | a 9-byte record read at its offset gives back id, mA word, V word |
| DevicePacket.SerializeAt | master/dev_mng.cpp:74-79 | record k sits at offset 9k of the records |
| DevicePacket.ParseFromLength | wired_solution/nodejs/server.js:303-319 | from record i on, the loop reads min(count, (len-1)/9) - i records, stopping at the first record that would overrun |
| DevicePacket.ParseFromAt | wired_solution/nodejs/server.js:303-319 | entry k of the records read from i on is the 9-byte record at 1+9(i+k), which lies inside the buffer |
| DevicePacket.ParseFromRecords | wired_solution/nodejs/server.js:303-319 | every entry k of the parsed list is the record at 1+9k |
| DevicePacket.ParseSensorDevices | wired_solution/nodejs/server.js:296-322 | empty for an empty buffer, else min(count, (len-1)/9) records, record k read at 1+9k |
| DevicePacket.ParseSensorDevicesLoop | wired_solution/nodejs/server.js:297-321 | the `for` loop with its `break` computes `ParseSensorDevices` |
| DevicePacket.PacketRecordAt | master/dev_mng.cpp:73-79 | record k of the packet is device k |
| DevicePacket.ParseSerialized | master/dev_mng.cpp:69-80 | the gateway reads back every device in order, for 1..255 devices |
| DevicePacket.FullTableReadsEmpty | master/dev_mng.cpp:73 | with 256 devices the count byte wraps to 0 and nothing is read |
| DevicePacket.DeviceManager.constructor | master/dev_mng.cpp:11 | the table starts empty |
| DevicePacket.DeviceManager.FindDevice | master/dev_mng.cpp:18-23 | the linear search returns the first matching index or -1 |
| DevicePacket.DeviceManager.LocalDeviceExist | master/dev_mng.cpp:15-26 | that index after the `int8_t` store; the same index up to 128 devices |
| DevicePacket.DeviceManager.UpdateInfo | master/dev_mng.cpp:33-47 | the table becomes `Update(old, id, mA, V)` and ids stay distinct |
| DevicePacket.DeviceManager.PutRecord | master/dev_mng.cpp:76-78 | the pointer walk writes id, mA, V at the offset and changes no byte before or after the record |
| DevicePacket.DeviceManager.WriteRecords | master/dev_mng.cpp:74-79 | after the loop the packet is the count byte and the first `count` records |
| DevicePacket.DeviceManager.BuildPacket | master/dev_mng.cpp:65-79 | no packet while empty; otherwise 1 + 9·size bytes, count byte `size mod 256`, then that many records |
| DeviceStore.GetSensorStatus | wired_solution/nodejs/server.js:324-332 | NOT_CHARGE iff mA ≤ notcharge, FULL_CHARGED iff notcharge < mA < full, CHARGING iff above notcharge and ≥ full |
| DeviceStore.StatusString | wired_solution/nodejs/server.js:334-342 | each status gets its own label, both ways |
| DeviceStore.Find | wired_solution/nodejs/server.js:670 | `find` returns the first entry with the id, or -1 iff none has it |
| DeviceStore.FindDistinct | wired_solution/nodejs/server.js:497 | with distinct ids, `find` returns the entry holding the id |
| DeviceStore.QualifiesIsFullCharged | wired_solution/nodejs/server.js:127 | the debounce counts exactly the FULL_CHARGED readings |
| DeviceStore.Upsert | wired_solution/nodejs/server.js:124-139 | size grows by one iff the id is new; all other entries unchanged |
| DeviceStore.UpsertExisting | wired_solution/nodejs/server.js:589-602 | a known sensor gets the new mA and V; `full_cnt` +1 if notcharge < mA < full, else 0; flags replaced when given; lock kept |
| DeviceStore.UpsertAppends | wired_solution/nodejs/server.js:603-612 | an unseen sensor is pushed last with lock false, `full_cnt` 0 |
| DeviceStore.UpsertKeepsIds | wired_solution/nodejs/server.js:124-139 | existing entries keep their ids and places |
| DeviceStore.UpsertKeepsDistinct | wired_solution/nodejs/server.js:124-139 | ids stay distinct |
| DeviceStore.FeedCounts | wired_solution/nodejs/server.js:127-128 | k qualifying readings raise a known sensor's `full_cnt` by k |
| DeviceStore.FeedFromNew | wired_solution/nodejs/server.js:133-138 | a new sensor has counted k-1 after k qualifying readings |
| DeviceStore.ResetThenCount | wired_solution/nodejs/server.js:129-131 | a non-qualifying reading resets the streak |
| DeviceStore.Feed1Reading | wired_solution/nodejs/server.js:132 | the entry's mA is the last reading |
| DeviceStore.UnlockDecision | wired_solution/nodejs/server.js:670-693 | "not found" iff unknown; "already unlocked" iff not locked; success iff locked and (full with `full_cnt` ≥ 5, or not charging); "charging" otherwise |
| DeviceStore.ChargingStaysLocked | wired_solution/nodejs/server.js:674-685 | a charging sensor is never released |
| DeviceStore.NewSensorGate | wired_solution/nodejs/server.js:675-676 | a new sensor with a run of full readings may open iff the run has at least 6 readings |
| DeviceStore.LockPassMeans | wired_solution/nodejs/server.js:495-508 | each known lock 1..16 takes its bit and nothing else changes; locks opened are exactly the known, locked ones drawing ≤ notcharge, in increasing order |
| DeviceStore.LockOneMeans | wired_solution/nodejs/server.js:496-507 | one turn of the `dev_id` loop, in the same terms |
| DeviceStore.LockPassKeepsIds | wired_solution/nodejs/server.js:495-508 | the pass never changes the ids |
| DeviceStore.ApplyRepliesSnoc | wired_solution/nodejs/server.js:489-515 | one more status reply is one more `dev_id` pass over the table the earlier replies left |
| DeviceStore.ApplyRepliesKeepsIds | wired_solution/nodejs/server.js:489-515 | status replies never change the ids |
| DeviceStore.PollOne | wired_solution/nodejs/server.js:580-586 | no answer changes nothing; an answer under 11 bytes aborts the request (`readFloatLE` throws) |
| DeviceStore.PollAllStaysAborted | wired_solution/nodejs/server.js:577-619 | once a request is aborted, no later id is polled |
| DeviceStore.PollReadsSensorReply | wired_solution/nodejs/server.js:580-612 | a firmware reply validates and records that sensor's own mA, V, smoke and fire |
| DeviceStore.Rows | wired_solution/nodejs/server.js:621-624 | one row per known sensor, in table order, with its status label |
| DeviceStore.UpsertAllKeepsDistinct | wired_solution/nodejs/server.js:120-141 | the TCP handler keeps ids distinct |
| DeviceStore.UpsertKeepsPresent | wired_solution/nodejs/server.js:124-139 | a known sensor stays known |
| DeviceStore.UpsertMakesPresent | wired_solution/nodejs/server.js:124-139 | a sensor is known after a reading for it |
| DeviceStore.UpsertAllFindsAll | wired_solution/nodejs/server.js:124-139 | after the handler every sensor of the packet and every earlier one is known |
| DeviceStore.UpsertAllKeepsPresent | wired_solution/nodejs/server.js:124-139 | a sensor known before the handler is still known after it |
| DeviceStore.UpsertAllMakesPresent | wired_solution/nodejs/server.js:124-139 | the sensor of every record of the packet is known after the handler |
| HostGateway.DeviceTable.constructor | wired_solution/nodejs/server.js:37 | the table starts empty with the given thresholds |
| HostGateway.DeviceTable.Record | wired_solution/nodejs/server.js:124-139 | the entry update in place is `Upsert`; ids stay distinct |
| HostGateway.DeviceTable.OnTcpData | wired_solution/nodejs/server.js:120-141 | the table becomes every record of `parseSensorDevices(chunk)` applied in order |
| HostGateway.DeviceTable.ApplyStatus | wired_solution/nodejs/server.js:493-508 | the `dev_id` loop is `LockPass` over 16 bits, table and opened locks |
| HostGateway.DeviceTable.Unlock | wired_solution/nodejs/server.js:670-693 | the reply is `UnlockDecision`; on success it writes the open frame, then the status query, and nothing otherwise |
| HostGateway.DeviceTable.Report | wired_solution/nodejs/server.js:621-624 | the result loop returns `Rows` |
| HostGateway.DeviceTable.GetStatus | wired_solution/nodejs/server.js:573-629 | the table becomes the `PollAll` of ids 5..8; rows are returned iff no answer aborted |
| HostGateway.CuReceiver.constructor | wired_solution/nodejs/server.js:484 | the CU buffer starts empty |
| HostGateway.CuReceiver.OnData | wired_solution/nodejs/server.js:486-516 | the buffer becomes what `CuScan` leaves; the table and opens are the passes of the replies it takes, in order |
| Correlator.Settle | wired_solution/nodejs/server.js:383-398 | a settled promise keeps its first value |
| Correlator.InitialWellFormed | wired_solution/nodejs/server.js:38-39 | the start state is well formed and live |
| Correlator.SendKeeps | wired_solution/nodejs/server.js:382-399 | `sendAndWait` keeps the invariants and makes the new request hold the resolver |
| Correlator.WriteFailedKeeps | wired_solution/nodejs/server.js:385-391 | a write error settles the request with null and keeps the invariants |
| Correlator.TimerFiredKeeps | wired_solution/nodejs/server.js:392-397 | a timer that checks ownership settles its request and keeps every request live |
| Correlator.TimerFiredAsWrittenKeeps | wired_solution/nodejs/server.js:392-397 | the written timer keeps the state well formed and no value changes |
| Correlator.DeliverKeeps | wired_solution/nodejs/server.js:552-559 | a valid packet settles the waiting request with it and keeps the invariants; with no resolver nothing changes |
| Correlator.ReceiveAllKeeps | wired_solution/nodejs/server.js:544-563 | a data event keeps the invariants, and settled values never change |
| Correlator.AnsweredInTime | nodejs/serial.js:142-149 | a request answered in time resolves with the packet, its timer cleared, no resolver left |
| Correlator.UnansweredTimesOut | wired_solution/nodejs/server.js:382-398 | a sent request's timer is armed; when it fires unanswered, the written timer resolves it null and empties the slot, as the ownership-checking one would |
| Correlator.NoResolverDrops | nodejs/serial.js:150-152 | a packet with no pending request changes nothing |
| Correlator.StaleTimerStrands | wired_solution/nodejs/server.js:385-397 | as written, a failed write's timer strands the next request; with the ownership check that request settles |
| Correlator.SensorPort.constructor | wired_solution/nodejs/server.js:538 | the port starts with an empty buffer, no resolver, nothing issued |
| Correlator.SensorPort.SendAndWait | wired_solution/nodejs/server.js:382-399 | the state becomes `Send(old)`, the invariants are kept, and the new number is returned |
| Correlator.SensorPort.OnWriteError | wired_solution/nodejs/server.js:386-390 | the state becomes `WriteFailed(old, n)` |
| Correlator.SensorPort.OnTimer | wired_solution/nodejs/server.js:392-397 | the timer as written: the state becomes `TimerFiredAsWritten(old, n)`, which stays well formed (`TimerFiredAsWrittenKeeps`); it can strand a later request (`StaleTimerStrands`) |
| Correlator.SensorPort.Handle | wired_solution/nodejs/server.js:552-562 | the state becomes `Receive(old, packet)` |
| Correlator.SensorPort.OnData | wired_solution/nodejs/server.js:540-564 | the buffer becomes what `Drain` leaves; the state is every candidate received in order |
| Reconnect.Doubled | wired_solution/nodejs/server.js:166 | the new delay is twice the old or 15000, and never above either |
| Reconnect.BackoffClosedForm | wired_solution/nodejs/server.js:162-169 | from 1000 ms, the k-th retry waits min(1000·2^k, 15000) |
| Reconnect.BackoffReachesCap | wired_solution/nodejs/server.js:22-23 | from the fourth retry on, the delay is 15000 |
| Reconnect.TrimStart | wired_solution/nodejs/server.js:70 | leading whitespace removed: a suffix whose first character is not whitespace |
| Reconnect.TrimEnd | wired_solution/nodejs/server.js:70 | trailing whitespace removed: a prefix whose last character is not whitespace |
| Reconnect.TrimPadded | wired_solution/nodejs/server.js:70 | the discovery reply padded with whitespace is still recognised |
| Reconnect.PeerLink.constructor | wired_solution/nodejs/server.js:25-31 | no peer, broadcasting, no reconnect pending, delay 1000 |
| Reconnect.PeerLink.ConnectTcp | wired_solution/nodejs/server.js:110-111 | nothing happens while no peer is known |
| Reconnect.PeerLink.OnUdpMessage | wired_solution/nodejs/server.js:69-77 | the peer is captured only from the trimmed discovery reply while none is known, stopping the broadcast and connecting; anything else changes nothing |
| Reconnect.PeerLink.OnConnect | wired_solution/nodejs/server.js:115-118 | a successful connect resets the delay to 1000 |
| Reconnect.PeerLink.ScheduleReconnect | wired_solution/nodejs/server.js:162-164 | a no-op while a timer is pending; otherwise a timer with the current delay |
| Reconnect.PeerLink.OnReconnectTimer | wired_solution/nodejs/server.js:164-168 | clears the timer, delay := min(2·delay, 15000), reconnects |
| LegacyStatus.Classify | nodejs/serial.js:203-210 | "notcharge" iff < 10, "fullcharged" iff 10 ≤ v < 300, "charging" iff ≥ 300 |
| LegacyStatus.ClassifyMonotone | nodejs/serial.js:203-210 | a larger reading never gets an earlier label |
| LegacyStatus.EntryOf | nodejs/serial.js:198-214 | "timeout" for no reply, the label of bytes 3..6 for a reply, an abort iff the reply is under 7 bytes |
| LegacyStatus.ResultsMeans | nodejs/serial.js:193-215 | one entry per id in order, each its reply's entry; no answer iff some reply aborted |
| LegacyStatus.GetStatus | nodejs/serial.js:193-215 | the loop over ids 1..5 returns `Results` |
| LegacyStatus.AbortStays | nodejs/serial.js:200-201 | a short reply aborts the whole request |

## Left out

- HTTP routing, JSON bodies and status codes, readline port menus, SerialPort/net/dgram setup, and `store.json`: these are I/O glue. /unlock, /getStatus and the data handlers are methods taking their inputs directly. A non-numeric /unlock id ("Invalid Device ID") is not modelled.
- POST /setThreshold: it only parses JSON and assigns the two thresholds. The thresholds are a `Thresholds` value held by the table. Start-up sets them to the stored values or 300/100, after the declared 200/100.
- Float decoding and rounding (`readFloatLE`, `Math.round(Math.abs(…))`): readings are opaque 4-byte words, and the rounding is a function parameter `round`. NaN and infinities are not represented.
- The abort of /getStatus (`DeviceStore.PollOne`, `PollAll`) is a value. In the code, `readFloatLE` on a slice shorter than 4 bytes throws a RangeError. That rejects the async request handler: no HTTP response is written. There is no `unhandledRejection` handler, so under Node's default since version 15 the process exits. The model stops the poll and leaves the table as the earlier answers made it; the process exit is not modelled. `LegacyStatus.Classify` takes a real, so the JS label for NaN ("charging") is not modelled.
- Real time: `setTimeout`, `setInterval`, `delay(250)` and the 2000 ms CU poll become explicit events. This covers timer fire, write error, data, connect, close/error and the inter-byte timeout. The order of the two CU frames /unlock writes is kept; the wait between them is not.
- Promises: each `sendAndWait` promise is a number, and a settled one is an entry of a map. Resolving a settled promise again is a no-op (`Correlator.Settle`).
- `handleSensorDevice` (its body is commented out), `sendNoWait` (it uses an undefined `port`), the cuLock.js interval and the broadcast `setInterval` send are not modelled.
- `serial.js` clears `timeoutHandle` only when it is set and then nulls it; `server.js` always calls `clearTimeout`. Both are modelled by `Correlator.Deliver`. The two validators accept the same frames (`SensorFrame.ValidateMeans`), so one correlator model covers both files.
- FreeRTOS queues and tasks, `uart_driver_install` and `malloc` failure paths. The receiver keeps only the per-byte switch, and a failed allocation in the LEN state is not modelled.
- FirmwareUart.UartSendBytes: requires the frame size to fit the `uint16_t` `packet_len`, because a wrapped length would make the `malloc`'d buffer shorter than the writes that follow.
- FirmwareUart.Uart1SendBytes: the same bound on `packet_len`; `DB_GetDeviceId()` is the parameter `ownId`.
- `DEVICES_UpdateInfo(data, len)`, the ArduinoJson overload, and the sensors' INA219, GPIO, LED, ESP-NOW and NVS code are not part of this model.
- Reconnect.TrimStart: only ASCII whitespace (space, tab, LF, CR, VT, FF) is trimmed. JavaScript's `trim` also removes Unicode spaces and line terminators.
- Reconnect.TrimEnd: the same ASCII-only whitespace set as `TrimStart`.
- Reconnect.PeerLink.ConnectTcp: the socket is modelled as a count of connection attempts. Destroying the previous socket and keep-alive are not modelled.

## Findings

| source | as written | input that shows it | evidently intended | confidence | as-written member | corrected member |
|---|---|---|---|---|---|---|
| master/dev_mng.cpp:15-20 | `LocalDeviceExist` stores the found index in an `int8_t`, so index 128 reads as -128 and counts as "not found" | 129 devices with ids 0..128, then an update for id 128: a second record for id 128 is appended | the index is held at full width, so the existing record is overwritten and ids stay distinct | high, not executed | DevicePacket.Int8IndexDuplicates | DevicePacket.DeviceManager.UpdateInfo |
| wired_solution/nodejs/server.js:385-397 | the timeout closure tests `if (sensorResolver)`, that is any pending resolver, not its own request's | request 0's write fails, request 1 is sent, then request 0's timer fires: it clears request 1's resolver; request 1's reply is dropped and its own timer finds no resolver, so request 1 never settles and /getStatus never answers | a timer settles only its own request and empties the slot only if that request still holds it | medium, not executed | Correlator.StaleTimerStrands | Correlator.TimerFiredKeeps |

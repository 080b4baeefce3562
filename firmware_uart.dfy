/** The sensor firmware's side of the sensor link
    (wired_solution/master/uart_hdl.cpp): the byte-at-a-time receive state
    machine, the two frame senders and the command dispatch. */
module FirmwareUart {
  import opened Bytes
  import opened Crc
  import SensorFrame

  /** UART_PROTOCOL_CRC_LEN: a LEN byte must exceed this to start a frame. */
  const CrcLen: nat := 2
  const Broadcast: Byte := 0x00
  const CmdGetCurrent: Byte := 0x00
  const CmdSetThreshold: Byte := 0x01

  // ---------------------------------------------------------------------
  // Receiving

  /** The receiver's state with the bytes it holds: the abstract view of
      `_uartState`, `pData`, `data_cnt` and `data_len`. */
  datatype RxState = Idle | AwaitLen | InData(len: nat, got: seq<Byte>) | AwaitEtx(payload: seq<Byte>)

  /** One byte through the switch of uart_event_task; a payload is handed to
      LocalHandleIncommingData when the ETX byte arrives. */
  function Step(s: RxState, b: Byte): (RxState, Option<seq<Byte>>)
  {
    match s
    case Idle => (if b == STX then AwaitLen else Idle, None)
    case AwaitLen => (if b as nat > CrcLen then InData(b as nat, []) else Idle, None)
    case InData(len, got) =>
      if |got| + 1 >= len then (AwaitEtx(got + [b]), None) else (InData(len, got + [b]), None)
    case AwaitEtx(payload) => (Idle, if b == ETX then Some(payload) else None)
  }

  function Deliveries(d: Option<seq<Byte>>): seq<seq<Byte>>
  {
    if d.Some? then [d.value] else []
  }

  /** A run of bytes through the receiver: the final state and the payloads
      delivered, in order. */
  function Run(s: RxState, bs: seq<Byte>): (RxState, seq<seq<Byte>>)
  {
    if bs == [] then (s, [])
    else
      var r := Run(s, bs[..|bs| - 1]);
      var t := Step(r.0, bs[|bs| - 1]);
      (t.0, r.1 + Deliveries(t.1))
  }

  /** The inter-byte timeout (no byte for UART_FRAME_TIMEOUT ms). */
  function Timeout(s: RxState): (t: RxState)
    ensures t == Idle
  {
    Idle
  }

  lemma RunSnoc(s: RxState, bs: seq<Byte>, b: Byte)
    ensures Run(s, bs + [b])
         == (Step(Run(s, bs).0, b).0, Run(s, bs).1 + Deliveries(Step(Run(s, bs).0, b).1))
  {
    assert (bs + [b])[..|bs|] == bs;
  }

  lemma RunEmpty(s: RxState)
    ensures Run(s, []) == (s, [])
  {
  }

  lemma {:induction false} RunAppend(s: RxState, a: seq<Byte>, b: seq<Byte>)
    ensures Run(s, a + b) == (Run(Run(s, a).0, b).0, Run(s, a).1 + Run(Run(s, a).0, b).1)
    decreases |b|
  {
    var r := Run(s, a);
    if b == [] {
      assert a + b == a;
      RunEmpty(r.0);
      assert r.1 + [] == r.1;
    } else {
      var front, x := b[..|b| - 1], b[|b| - 1];
      assert b == front + [x];
      assert a + b == (a + front) + [x];
      RunAppend(s, a, front);
      RunSnoc(s, a + front, x);
      RunSnoc(r.0, front, x);
      var q := Run(r.0, front);
      AppendAssoc(r.1, q.1, Deliveries(Step(q.0, x).1));
    }
  }

  /** In IDLE every byte other than STX is ignored. */
  lemma {:induction false} RunIgnoresNoise(g: seq<Byte>)
    requires STX !in g
    ensures Run(Idle, g) == (Idle, [])
    decreases |g|
  {
    if g != [] {
      var front, x := g[..|g| - 1], g[|g| - 1];
      assert x in g;
      assert g == front + [x];
      RunIgnoresNoise(front);
      RunSnoc(Idle, front, x);
      var t := Step(Idle, x);
      assert t == (Idle, None);
      assert Run(Idle, front).1 + Deliveries(t.1) == [];
    }
  }

  /** DATA stores exactly `len` bytes and then waits for ETX. */
  lemma {:induction false} RunFillsData(len: nat, got: seq<Byte>, bs: seq<Byte>)
    requires |got| < len && |got| + |bs| <= len
    ensures Run(InData(len, got), bs)
         == (if |got| + |bs| < len then InData(len, got + bs) else AwaitEtx(got + bs), [])
    decreases |bs|
  {
    if bs == [] {
      assert got + bs == got;
    } else {
      var front, x := bs[..|bs| - 1], bs[|bs| - 1];
      assert bs == front + [x];
      RunFillsData(len, got, front);
      RunSnoc(InData(len, got), front, x);
      assert got + front + [x] == got + bs;
      var t := Step(InData(len, got + front), x);
      assert t == (if |got| + |bs| < len then InData(len, got + bs) else AwaitEtx(got + bs), None);
      assert [] + Deliveries(t.1) == [];
    }
  }

  /** STX then a LEN byte above 2 opens a frame of LEN bytes. */
  lemma RunHeader(len: Byte)
    ensures Run(Idle, [STX, len]) == (if len as nat > CrcLen then InData(len as nat, []) else Idle, [])
  {
    RunSnoc(Idle, [], STX);
    assert [] + [STX] == [STX];
    RunSnoc(Idle, [STX], len);
    assert [STX] + [len] == [STX, len];
    assert Deliveries(None) == [];
  }

  /** Header and data of a length-framed frame leave the receiver waiting for ETX. */
  lemma RunUpToEtx(len: Byte, body: seq<Byte>)
    requires CrcLen < len as nat && |body| == len as nat
    ensures Run(Idle, [STX, len] + body) == (AwaitEtx(body), [])
  {
    RunHeader(len);
    RunFillsData(len as nat, [], body);
    assert [] + body == body;
    RunAppend(Idle, [STX, len], body);
  }

  /** A length-framed frame `STX, L, L bytes, ETX` with L > 2, received from
      IDLE, delivers its L bytes and leaves the receiver IDLE; any other byte
      in place of the ETX drops them. */
  lemma RunDeliversFrame(len: Byte, body: seq<Byte>, last: Byte)
    requires CrcLen < len as nat && |body| == len as nat
    ensures Run(Idle, [STX, len] + body + [last]) == (Idle, if last == ETX then [body] else [])
  {
    RunUpToEtx(len, body);
    RunSnoc(Idle, [STX, len] + body, last);
    assert [] + Deliveries(if last == ETX then Some(body) else None) == (if last == ETX then [body] else []);
  }

  /** A LEN byte of 0, 1 or 2 sends the receiver back to IDLE. */
  lemma RunRejectsShortLen(len: Byte)
    requires len as nat <= CrcLen
    ensures Run(Idle, [STX, len]) == (Idle, [])
  {
    RunHeader(len);
  }

  /** A host request of `n` data bytes: STX, LEN = n + 4, n + 4 bytes, ETX. */
  lemma RequestDelivered(p: seq<Byte>, n: nat)
    requires n <= 251 && |p| == n + 7 && p[0] == STX && p[1] as int == n + 4 && p[|p| - 1] == ETX
    ensures Run(Idle, p) == (Idle, [p[2..|p| - 1]])
  {
    assert p == [STX, p[1]] + p[2..|p| - 1] + [ETX];
    RunDeliversFrame(p[1], p[2..|p| - 1], ETX);
  }

  /** Every request the host builds with at most 251 data bytes reaches the
      handler as id, cmd, the data and both CRC bytes. */
  lemma HostRequestDelivered(id: Byte, cmd: Byte, data: seq<Byte>)
    requires |data| <= 251
    ensures var p := SensorFrame.BuildPacket(id, cmd, data);
            Run(Idle, p) == (Idle, [p[2..|p| - 1]])
            && |p[2..|p| - 1]| == |data| + 4
            && p[2..|p| - 1][0] == id && p[2..|p| - 1][1] == cmd
            && p[2..|p| - 1][2..2 + |data|] == data
  {
    var p := SensorFrame.BuildPacket(id, cmd, data);
    RequestDelivered(p, |data|);
    assert p[2..|p| - 1][2..2 + |data|] == p[4..4 + |data|];
  }

  datatype UartState = StateIdle | StateLen | StateData | StateEtx

  /** The variables of uart_event_task that survive from byte to byte. */
  class UartReceiver {
    var state: UartState
    var pData: array?<Byte>
    var dataCnt: nat
    var dataLen: nat

    ghost predicate Valid()
      reads this, pData
    {
      (state == StateData ==> pData != null && pData.Length == dataLen && dataCnt < dataLen)
      && (state == StateEtx ==> pData != null && pData.Length == dataLen && dataCnt == dataLen)
    }

    ghost function Abs(): RxState
      reads this, pData
      requires Valid()
    {
      match state
      case StateIdle => Idle
      case StateLen => AwaitLen
      case StateData => InData(dataLen, pData[..dataCnt])
      case StateEtx => AwaitEtx(pData[..])
    }

    constructor()
      ensures Valid() && Abs() == Idle
    {
      state := StateIdle;
      pData := null;
      dataCnt := 0;
      dataLen := 0;
    }

    /** The body of the per-byte `switch (_uartState)`. */
    method OnByte(b: Byte) returns (delivered: Option<seq<Byte>>)
      requires Valid()
      modifies this, pData
      ensures Valid()
      ensures (Abs(), delivered) == Step(old(Abs()), b)
      ensures pData == null || pData == old(pData) || fresh(pData)
    {
      delivered := None;
      match state
      case StateIdle =>
        if b == STX {
          pData := null;
          state := StateLen;
        }
      case StateLen =>
        dataLen := b as nat;
        if dataLen > CrcLen {
          pData := new Byte[dataLen];
          dataCnt := 0;
          state := StateData;
        } else {
          state := StateIdle;
        }
      case StateData =>
        pData[dataCnt] := b;
        dataCnt := dataCnt + 1;
        assert pData[..dataCnt] == old(pData[..dataCnt]) + [b];
        if dataCnt >= dataLen {
          state := StateEtx;
          assert pData[..] == pData[..dataCnt];
        }
      case StateEtx =>
        if b == ETX {
          delivered := Some(pData[..]);
        }
        state := StateIdle;
    }

    /** The `for` loop over the bytes of one UART_DATA event. */
    method OnData(chunk: seq<Byte>) returns (delivered: seq<seq<Byte>>)
      requires Valid()
      modifies this, pData
      ensures Valid()
      ensures (Abs(), delivered) == Run(old(Abs()), chunk)
    {
      delivered := [];
      var i := 0;
      while i < |chunk|
        invariant 0 <= i <= |chunk|
        invariant Valid()
        invariant pData == null || pData == old(pData) || fresh(pData)
        invariant (Abs(), delivered) == Run(old(Abs()), chunk[..i])
      {
        var d := OnByte(chunk[i]);
        assert chunk[..i + 1][..i] == chunk[..i];
        delivered := delivered + Deliveries(d);
        i := i + 1;
      }
      assert chunk[..i] == chunk;
    }

    /** No event within UART_FRAME_TIMEOUT while a frame is open. */
    method OnTimeout()
      requires Valid()
      modifies this
      ensures Valid() && Abs() == Timeout(old(Abs()))
    {
      if state != StateIdle {
        state := StateIdle;
      }
    }
  }

  // ---------------------------------------------------------------------
  // Sending

  /** The frame UART_SendBytes writes for `data`: `STX, n+2, data, CRC_hi,
      CRC_lo, ETX` with the CRC over LEN and the data. */
  function SendFrame(data: seq<Byte>): (p: seq<Byte>)
    ensures |p| == |data| + 5 && p[0] == STX && p[|p| - 1] == ETX
    ensures p[1] as int == (|data| + 2) % 256 && p[2..|data| + 2] == data
    ensures BigEndian(p[|p| - 3], p[|p| - 2]) == Crc16(p[1..|p| - 3])
  {
    var body := [ToByte(|data| + 2)] + data;
    var c := Crc16(body);
    var p := [STX] + body + [Hi(c), Lo(c), ETX];
    assert p[1..|p| - 3] == body && p[2..|data| + 2] == data;
    BigEndianOfHiLo(c);
    p
  }

  /** The frame UART1_SendBytes writes for `data` from device `ownId`:
      `STX, n+3, ownId, data, CRC_hi, CRC_lo, ETX`. */
  function Uart1Frame(ownId: Byte, data: seq<Byte>): (p: seq<Byte>)
    ensures |p| == |data| + 6 && p[0] == STX && p[|p| - 1] == ETX
    ensures p[1] as int == (|data| + 3) % 256 && p[2] == ownId && p[3..|data| + 3] == data
    ensures BigEndian(p[|p| - 3], p[|p| - 2]) == Crc16(p[1..|p| - 3])
  {
    var body := [ToByte(|data| + 3), ownId] + data;
    var c := Crc16(body);
    var p := [STX] + body + [Hi(c), Lo(c), ETX];
    assert p[1..|p| - 3] == body && p[3..|data| + 3] == data;
    BigEndianOfHiLo(c);
    p
  }

  /** SendFrame spelled out around its CRC. */
  lemma SendFrameIs(data: seq<Byte>, c: bv16)
    requires c == Crc16([ToByte(|data| + 2)] + data)
    ensures SendFrame(data) == [STX] + ([ToByte(|data| + 2)] + data) + [Hi(c), Lo(c), ETX]
  {
  }

  /** Uart1Frame spelled out around its CRC. */
  lemma Uart1FrameIs(ownId: Byte, data: seq<Byte>, c: bv16)
    requires c == Crc16([ToByte(|data| + 3), ownId] + data)
    ensures Uart1Frame(ownId, data) == [STX] + ([ToByte(|data| + 3), ownId] + data) + [Hi(c), Lo(c), ETX]
  {
  }

  /** The host accepts what UART_SendBytes sends when there is at least one
      data byte (an empty one is five bytes, too short for validatePacket); the
      length warning appears only when more than 253 data bytes made LEN wrap. */
  lemma SendFrameAccepted(data: seq<Byte>)
    ensures SensorFrame.Check(SendFrame(data), 3)
         == if data == [] then SensorFrame.TooShort else SensorFrame.Accepted(|data| + 2 >= 256)
  {
    if data != [] {
      SensorFrame.CrcFramedAccepted(SendFrame(data), 3);
    }
  }

  /** The host's validatePacket accepts every UART1_SendBytes frame, and its
      LEN + 3 length check holds whenever LEN does not wrap. */
  lemma Uart1FrameAccepted(ownId: Byte, data: seq<Byte>)
    ensures SensorFrame.Check(Uart1Frame(ownId, data), 3) == SensorFrame.Accepted(|data| + 3 >= 256)
  {
    SensorFrame.CrcFramedAccepted(Uart1Frame(ownId, data), 3);
  }

  /** The last three writes of both senders: CRC high byte, CRC low byte, ETX. */
  method PutTrailer(packet: array<Byte>, crc: bv16)
    requires packet.Length >= 3
    modifies packet
    ensures packet[..] == old(packet[..packet.Length - 3]) + [Hi(crc), Lo(crc), ETX]
  {
    var len := packet.Length;
    packet[len - 3] := Hi(crc);
    packet[len - 2] := Lo(crc);
    packet[len - 1] := ETX;
  }

  /** UART_SendBytes: fills a fresh packet and reports whether the port took
      all of it; `written` is what Serial.write returns. */
  method UartSendBytes(data: array<Byte>, written: int) returns (ok: bool, packet: array<Byte>)
    requires data.Length + 5 <= 0xFFFF
    ensures fresh(packet) && packet[..] == SendFrame(data[..])
    ensures ok <==> written == data.Length + 5
  {
    var n := data.Length;
    packet := new Byte[n + 5];
    packet[0] := STX;
    packet[1] := ToByte(n + 2);
    CopyInto(packet, 2, data[..]);
    ghost var body := [ToByte(n + 2)] + data[..];
    assert packet[..n + 2] == [STX] + body by {
      assert packet[..n + 2] == packet[..2] + packet[2..n + 2];
    }
    assert packet[1..n + 2] == body;
    var crc := CalculateCrc16(packet, 1, n + 1);
    PutTrailer(packet, crc);
    SendFrameIs(data[..], crc);
    ok := written == n + 5;
  }

  /** UART1_SendBytes: as UART_SendBytes, with the device id in front of the data. */
  method Uart1SendBytes(ownId: Byte, data: array<Byte>, written: int) returns (ok: bool, packet: array<Byte>)
    requires data.Length + 6 <= 0xFFFF
    ensures fresh(packet) && packet[..] == Uart1Frame(ownId, data[..])
    ensures ok <==> written == data.Length + 6
  {
    var n := data.Length;
    packet := new Byte[n + 6];
    packet[0] := STX;
    packet[1] := ToByte(n + 3);
    packet[2] := ownId;
    CopyInto(packet, 3, data[..]);
    ghost var body := [ToByte(n + 3), ownId] + data[..];
    assert packet[..n + 3] == [STX] + body by {
      assert packet[..n + 3] == packet[..3] + packet[3..n + 3];
    }
    assert packet[1..n + 3] == body;
    var crc := CalculateCrc16(packet, 1, n + 2);
    PutTrailer(packet, crc);
    Uart1FrameIs(ownId, data[..], crc);
    ok := written == n + 6;
  }

  // ---------------------------------------------------------------------
  // Dispatch

  /** What the sensor reports: the raw bytes of the two floats and the two flags. */
  datatype Reading = Reading(mA: Word, volts: Word, smoke: bool, fire: bool)

  function FlagByte(b: bool): Byte { if b then 1 else 0 }

  /** The 10-byte reply body: mA, V, smoke, fire. */
  function ReplyBody(r: Reading): (b: seq<Byte>)
    ensures |b| == 10
    ensures b[..4] == r.mA && b[4..8] == r.volts && b[8] == FlagByte(r.smoke) && b[9] == FlagByte(r.fire)
  {
    r.mA + r.volts + [FlagByte(r.smoke), FlagByte(r.fire)]
  }

  /** LocalHandleIncommingData: the frame it sends back, if any. */
  function HandleIncoming(payload: seq<Byte>, ownId: Byte, r: Reading): (reply: Option<seq<Byte>>)
    ensures reply.Some? <==> |payload| > 1 && (payload[0] == Broadcast || payload[0] == ownId)
                             && payload[1] == CmdGetCurrent
    ensures reply.Some? ==> reply.value == Uart1Frame(ownId, ReplyBody(r))
  {
    if |payload| > 1 && (payload[0] == Broadcast || payload[0] == ownId) then
      if payload[1] == CmdGetCurrent then Some(Uart1Frame(ownId, ReplyBody(r)))
      else None
    else None
  }

  /** The reply is a 16-byte frame: id at 2, mA at 3-6, V at 7-10, smoke at 11,
      fire at 12, and it passes the host's validatePacket without warning. */
  lemma ReplyLayout(ownId: Byte, r: Reading)
    ensures var f := Uart1Frame(ownId, ReplyBody(r));
            |f| == 16 && f[2] == ownId && f[3..7] == r.mA && f[7..11] == r.volts
            && f[11] == FlagByte(r.smoke) && f[12] == FlagByte(r.fire)
            && SensorFrame.Check(f, 3) == SensorFrame.Accepted(false)
  {
    var f := Uart1Frame(ownId, ReplyBody(r));
    assert f[3..13] == ReplyBody(r);
    assert f[3..7] == ReplyBody(r)[..4];
    assert f[7..11] == ReplyBody(r)[4..8];
    Uart1FrameAccepted(ownId, ReplyBody(r));
  }

  /** A poll the host builds for this sensor (or for broadcast) is answered. */
  lemma PollAnswered(id: Byte, ownId: Byte, r: Reading)
    requires id == Broadcast || id == ownId
    ensures var p := SensorFrame.BuildPacket(id, CmdGetCurrent, []);
            Run(Idle, p).1 == [p[2..|p| - 1]]
            && HandleIncoming(p[2..|p| - 1], ownId, r) == Some(Uart1Frame(ownId, ReplyBody(r)))
  {
    HostRequestDelivered(id, CmdGetCurrent, []);
  }

  /** A poll addressed to another sensor gets no reply. */
  lemma PollForOtherIgnored(id: Byte, ownId: Byte, r: Reading)
    requires id != Broadcast && id != ownId
    ensures var p := SensorFrame.BuildPacket(id, CmdGetCurrent, []);
            HandleIncoming(p[2..|p| - 1], ownId, r) == None
  {
    HostRequestDelivered(id, CmdGetCurrent, []);
  }
}

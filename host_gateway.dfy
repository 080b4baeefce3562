// The gateway's mutable state in wired_solution/nodejs/server.js: the
// `sensorDevices` array with its thresholds, updated by the TCP handler, the
// /getStatus poll, the CU receive loop and read by /unlock; and the CU port's
// `rxBuffer`. Each method is proved against the functions of DeviceStore.

module HostGateway {
  import opened Bytes
  import CuFrame
  import DevicePacket
  import opened DeviceStore

  class DeviceTable {
    var devices: seq<Device>
    var thresholds: Thresholds

    ghost predicate Valid()
      reads this
    {
      DistinctIds(devices)
    }

    constructor(t: Thresholds)
      ensures Valid() && devices == [] && thresholds == t
    {
      devices := [];
      thresholds := t;
    }

    /** The body of the `forEach` in the TCP handler and of the /getStatus
        loop: refresh the entry found for `id`, or push a new one. */
    method Record(id: Byte, mA: nat, volts: nat, flags: Option<Flags>)
      requires Valid()
      modifies this
      ensures Valid() && thresholds == old(thresholds)
      ensures devices == Upsert(old(devices), id, mA, volts, flags, thresholds)
    {
      UpsertKeepsDistinct(devices, id, mA, volts, flags, thresholds);
      var i := Find(devices, id as int);
      if i >= 0 {
        UpsertExisting(devices, id, mA, volts, flags, thresholds);
        ghost var r := Upsert(devices, id, mA, volts, flags, thresholds);
        var found := devices[i];
        var cnt := if thresholds.notcharge < mA && mA < thresholds.full then found.fullCnt + 1 else 0;
        var smoke := found.smoke;
        var fire := found.fire;
        if flags.Some? {
          smoke := flags.value.smoke;
          fire := flags.value.fire;
        }
        assert r == devices[i := found.(mA := mA, volts := volts, fullCnt := cnt, smoke := smoke, fire := fire)];
        devices := devices[i := found.(mA := mA, volts := volts, fullCnt := cnt, smoke := smoke, fire := fire)];
      } else {
        UpsertAppends(devices, id, mA, volts, flags, thresholds);
        var smoke := flags.Some? && flags.value.smoke;
        var fire := flags.Some? && flags.value.fire;
        devices := devices + [Device(id, mA, volts, false, 0, smoke, fire)];
      }
    }

    /** `tcpSocket.on('data')`: parse the master's packet and record every
        sensor in it. `round` turns a float word into the rounded mA or V. */
    method OnTcpData(chunk: seq<Byte>, round: Word -> nat)
      requires Valid()
      modifies this
      ensures Valid() && thresholds == old(thresholds)
      ensures devices == UpsertAll(old(devices), DevicePacket.ParseSensorDevices(chunk), round, thresholds)
    {
      var infos := DevicePacket.ParseSensorDevicesLoop(chunk);
      var i := 0;
      while i < |infos|
        invariant 0 <= i <= |infos|
        invariant Valid() && thresholds == old(thresholds)
        invariant devices == UpsertAll(old(devices), infos[..i], round, thresholds)
      {
        var d := infos[i];
        Record(d.id, round(d.mA), round(d.volts), None);
        assert infos[..i + 1][..i] == infos[..i];
        i := i + 1;
      }
      assert infos[..i] == infos;
    }

    /** The `dev_id` loop over one CU status word. Returns the locks it opens
        with cuLockOpen(CU_DEVICE_ID, id). */
    method ApplyStatus(status: bv16) returns (opens: seq<nat>)
      requires Valid()
      modifies this
      ensures Valid() && thresholds == old(thresholds)
      ensures (devices, opens) == LockPass(old(devices), status, thresholds, 16)
    {
      LockPassKeepsIds(devices, status, thresholds);
      SameIdsKeepDistinct(LockPass(devices, status, thresholds, 16).0, devices);
      ghost var start := devices;
      opens := [];
      var devId := 0;
      while devId < 16
        invariant 0 <= devId <= 16 && thresholds == old(thresholds)
        invariant (devices, opens) == LockPass(start, status, thresholds, devId)
      {
        var lockStt := (status >> devId) & 1 == 1;
        assert lockStt == CuFrame.LockBit(status, devId);
        ghost var step := LockOne(devices, status, thresholds, devId);
        ghost var next := LockPass(start, status, thresholds, devId + 1);
        assert next == (step.0, opens + step.1);
        ghost var before := opens;
        var i := Find(devices, devId + 1);
        if i >= 0 {
          if devices[i].lock != lockStt {
            devices := devices[i := devices[i].(lock := lockStt)];
          }
          if lockStt && devices[i].mA <= thresholds.notcharge {
            opens := opens + [devId + 1];
          } else {
            assert before + [] == before;
          }
        } else {
          assert before + [] == before;
        }
        assert devices == step.0 && opens == before + step.1;
        assert (devices, opens) == next;
        devId := devId + 1;
      }
    }

    /** The /unlock handler for a numeric id: the answer, and the CU frames it
        writes (open that lock, then ask for the status word). */
    method Unlock(id: int) returns (reply: UnlockReply, sent: seq<seq<Byte>>)
      ensures reply == UnlockDecision(devices, id, thresholds)
      ensures reply == Success ==>
                sent == [CuFrame.ServerOpen(CuFrame.CuDeviceId, id), CuFrame.StatusQuery(CuFrame.CuDeviceId)]
      ensures reply != Success ==> sent == []
    {
      sent := [];
      var i := Find(devices, id);
      if i < 0 {
        reply := DeviceNotFound;
      } else if !devices[i].lock {
        reply := AlreadyUnlocked;
      } else {
        var status := GetSensorStatus(devices[i].mA, thresholds);
        if (status == FullCharged && devices[i].fullCnt >= FullChargedDelay) || status == NotCharge {
          sent := [CuFrame.ServerOpen(CuFrame.CuDeviceId, devices[i].id as int), CuFrame.StatusQuery(CuFrame.CuDeviceId)];
          reply := Success;
        } else {
          reply := DeviceCharging;
        }
      }
    }

    /** The `for (let dev of sensorDevices)` loop that builds the answer. */
    method Report() returns (rows: seq<Row>)
      ensures rows == Rows(devices, thresholds)
    {
      rows := [];
      var k := 0;
      while k < |devices|
        invariant 0 <= k <= |devices|
        invariant rows == Rows(devices[..k], thresholds)
      {
        rows := rows + [RowOf(devices[k], thresholds)];
        assert devices[..k + 1][..k] == devices[..k];
        k := k + 1;
      }
      assert devices[..k] == devices;
    }

    /** POST /getStatus: poll WIRED_DEVICE_ID in order; `resps[i]` is what
        sendAndWait resolved for the i-th id. None when a short answer
        aborted the request; the readings before it stay recorded. */
    method GetStatus(resps: seq<Option<seq<Byte>>>, round: Word -> nat) returns (rows: Option<seq<Row>>)
      requires Valid() && |resps| == |WiredDeviceIds|
      modifies this
      ensures Valid() && thresholds == old(thresholds)
      ensures devices == PollAll(old(devices), WiredDeviceIds, resps, round, thresholds).0
      ensures rows == if PollAll(old(devices), WiredDeviceIds, resps, round, thresholds).1
                      then Some(Rows(devices, thresholds)) else None
    {
      var ids := WiredDeviceIds;
      var i := 0;
      while i < |ids|
        invariant 0 <= i <= |ids|
        invariant Valid() && thresholds == old(thresholds)
        invariant PollAll(old(devices), ids[..i], resps[..i], round, thresholds) == (devices, true)
      {
        assert ids[..i + 1][..i] == ids[..i] && resps[..i + 1][..i] == resps[..i];
        var resp := resps[i];
        if resp.Some? {
          var f := resp.value;
          if |f| < 11 {
            PollAllStaysAborted(old(devices), ids, resps, i + 1, round, thresholds);
            return None;
          }
          Record(ids[i], round(f[3..7]), round(f[7..11]), Some(Flags(|f| > 11 && f[11] != 0, |f| > 12 && f[12] != 0)));
        }
        i := i + 1;
      }
      assert ids[..i] == ids && resps[..i] == resps;
      var r := Report();
      rows := Some(r);
    }
  }

  /** Taking the status reply at the head of the buffer moves it from the
      scan of the buffer to the replies already handled. */
  lemma ScanTakesReply(done: seq<seq<Byte>>, buf: seq<Byte>, whole: seq<Byte>)
    requires |buf| >= CuFrame.ReplyLength && CuFrame.IsStatusReply(buf)
    requires done + CuFrame.CuScan(buf).0 == CuFrame.CuScan(whole).0
    requires CuFrame.CuScan(buf).1 == CuFrame.CuScan(whole).1
    ensures var rest := buf[CuFrame.ReplyLength..];
            done + [buf[..CuFrame.ReplyLength]] + CuFrame.CuScan(rest).0 == CuFrame.CuScan(whole).0
            && CuFrame.CuScan(rest).1 == CuFrame.CuScan(whole).1
  {
    CuFrame.CuScanStep(buf);
    AppendAssoc(done, [buf[..CuFrame.ReplyLength]], CuFrame.CuScan(buf[CuFrame.ReplyLength..]).0);
  }

  /** The CU port's receive side. */
  class CuReceiver {
    var rxBuffer: seq<Byte>

    constructor()
      ensures rxBuffer == []
    {
      rxBuffer := [];
    }

    /** `cuPort.on("data")`: append, then take 9-byte status replies or drop
        one byte at a time while at least 9 bytes are buffered. Returns the
        locks opened, in order. */
    method OnData(chunk: seq<Byte>, table: DeviceTable) returns (opens: seq<nat>)
      requires table.Valid()
      modifies this, table
      ensures table.Valid() && table.thresholds == old(table.thresholds)
      ensures rxBuffer == CuFrame.CuScan(old(rxBuffer) + chunk).1
      ensures (table.devices, opens)
           == ApplyReplies(old(table.devices), CuFrame.CuScan(old(rxBuffer) + chunk).0, table.thresholds)
    {
      var buf := rxBuffer + chunk;
      ghost var whole := buf;
      ghost var done: seq<seq<Byte>> := [];
      opens := [];
      while |buf| >= CuFrame.ReplyLength
        invariant done + CuFrame.CuScan(buf).0 == CuFrame.CuScan(whole).0
        invariant CuFrame.CuScan(buf).1 == CuFrame.CuScan(whole).1
        invariant forall k :: 0 <= k < |done| ==> |done[k]| == CuFrame.ReplyLength
        invariant table.Valid() && table.thresholds == old(table.thresholds)
        invariant (table.devices, opens) == ApplyReplies(old(table.devices), done, table.thresholds)
        decreases |buf|
      {
        if buf[0] == STX && buf[1] as int == CuFrame.CuDeviceId && buf[2] == CuFrame.CmdStatusReply {
          var frame := buf[..CuFrame.ReplyLength];
          var status := BigEndian(frame[4], frame[3]);
          ApplyRepliesSnoc(old(table.devices), done, frame, table.thresholds);
          var more := table.ApplyStatus(status);
          opens := opens + more;
          ScanTakesReply(done, buf, whole);
          done := done + [frame];
          buf := buf[CuFrame.ReplyLength..];
        } else {
          CuFrame.CuScanStep(buf);
          buf := buf[1..];
        }
      }
      assert CuFrame.CuScan(buf) == ([], buf);
      assert done + [] == done;
      rxBuffer := buf;
    }
  }
}

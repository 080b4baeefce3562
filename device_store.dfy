// The gateway's table of sensor devices (`sensorDevices` in
// wired_solution/nodejs/server.js): readings arriving over TCP or from the
// /getStatus poll, the full-charge debounce, the CU lock bitmask and the
// /unlock gate. Currents and voltages are the already rounded naturals the
// gateway computes from the float words; that rounding is a parameter.

module DeviceStore {
  import opened Bytes
  import CuFrame
  import SensorFrame
  import FirmwareUart
  import DevicePacket

  /** SENSOR_FULL_CHARGED_DELAY: qualifying readings needed before a charged locker opens. */
  const FullChargedDelay: nat := 5

  /** WIRED_DEVICE_ID: the sensors /getStatus polls, in order. */
  const WiredDeviceIds: seq<Byte> := [5, 6, 7, 8]

  datatype SensorStatus = NotCharge | Charging | FullCharged

  /** The two thresholds, in mA: `notchargeThreshold` and `sensorThreshold`. */
  datatype Thresholds = Thresholds(notcharge: int, full: int)

  /** getSensorStatus: at or below `notcharge` nothing is plugged in, below
      `full` the battery is full, otherwise it is charging. */
  function GetSensorStatus(mA: nat, t: Thresholds): (s: SensorStatus)
    ensures s == NotCharge <==> mA <= t.notcharge
    ensures s == FullCharged <==> t.notcharge < mA < t.full
    ensures s == Charging <==> t.notcharge < mA && t.full <= mA
  {
    if mA <= t.notcharge then NotCharge
    else if mA < t.full then FullCharged
    else Charging
  }

  /** getSensorStatusString */
  function StatusString(s: SensorStatus): (r: string)
    ensures r == "notcharge" <==> s == NotCharge
    ensures r == "fullcharged" <==> s == FullCharged
    ensures r == "charging" <==> s == Charging
  {
    match s
    case NotCharge => "notcharge"
    case FullCharged => "fullcharged"
    case Charging => "charging"
  }

  /** One entry of `sensorDevices`. Entries that only ever came over TCP have no
      smoke or fire field, which the gateway reports as false. */
  datatype Device = Device(id: Byte, mA: nat, volts: nat, lock: bool, fullCnt: nat, smoke: bool, fire: bool)

  /** `sensorDevices.find(o => o.id === id)`: the first entry with that id, or -1. */
  function Find(devs: seq<Device>, id: int): (r: int)
    ensures -1 <= r < |devs|
    ensures 0 <= r ==> devs[r].id as int == id
    ensures forall k :: 0 <= k < |devs| && (r < 0 || k < r) ==> devs[k].id as int != id
  {
    if devs == [] then -1
    else if devs[0].id as int == id then 0
    else
      var r := Find(devs[1..], id);
      if r < 0 then -1 else r + 1
  }

  /** Find on a table with one more entry at the end. */
  lemma {:induction false} FindSnoc(devs: seq<Device>, d: Device, id: int)
    ensures Find(devs + [d], id)
         == if Find(devs, id) >= 0 then Find(devs, id) else if d.id as int == id then |devs| else -1
  {
    if devs != [] {
      assert (devs + [d])[1..] == devs[1..] + [d];
      FindSnoc(devs[1..], d, id);
    }
  }

  predicate DistinctIds(devs: seq<Device>)
  {
    forall i, j :: 0 <= i < j < |devs| ==> devs[i].id != devs[j].id
  }

  /** Tables whose entries carry the same ids position by position. */
  predicate SameIds(a: seq<Device>, b: seq<Device>)
  {
    |a| == |b| && forall k :: 0 <= k < |a| ==> a[k].id == b[k].id
  }

  lemma {:induction false} FindSameIds(a: seq<Device>, b: seq<Device>, id: int)
    requires SameIds(a, b)
    ensures Find(a, id) == Find(b, id)
  {
    if a != [] {
      assert a[0].id == b[0].id;
      FindSameIds(a[1..], b[1..], id);
    }
  }

  /** In a table with distinct ids, the entry holding an id is the one Find returns. */
  lemma FindDistinct(devs: seq<Device>, j: nat)
    requires DistinctIds(devs) && j < |devs|
    ensures Find(devs, devs[j].id as int) == j
  {
  }

  // ---------------------------------------------------------------------
  // Readings and the full-charge debounce

  /** The reading that counts towards `full_cnt`: notcharge < mA < sensorThreshold. */
  predicate Qualifies(mA: nat, t: Thresholds)
  {
    t.notcharge < mA && mA < t.full
  }

  /** The debounce counts exactly the readings getSensorStatus calls full. */
  lemma QualifiesIsFullCharged(mA: nat, t: Thresholds)
    ensures Qualifies(mA, t) <==> GetSensorStatus(mA, t) == FullCharged
  {
  }

  /** Smoke and fire flags of a /getStatus reply; TCP readings have none. */
  datatype Flags = Flags(smoke: bool, fire: bool)

  /** One reading for sensor `id`: an entry already present gets the new mA and
      V, its `full_cnt` counts one more qualifying reading or drops back to 0,
      and its flags are replaced if the reading has them; an unseen id is
      pushed at the end with `lock` false and `full_cnt` 0. */
  function Upsert(devs: seq<Device>, id: Byte, mA: nat, volts: nat, flags: Option<Flags>, t: Thresholds): (r: seq<Device>)
    ensures |r| == if Find(devs, id as int) >= 0 then |devs| else |devs| + 1
    ensures forall k :: 0 <= k < |devs| && k != Find(devs, id as int) ==> r[k] == devs[k]
  {
    var i := Find(devs, id as int);
    if i >= 0 then
      var d := devs[i];
      var cnt := if Qualifies(mA, t) then d.fullCnt + 1 else 0;
      var smoke := if flags.Some? then flags.value.smoke else d.smoke;
      var fire := if flags.Some? then flags.value.fire else d.fire;
      devs[i := Device(id, mA, volts, d.lock, cnt, smoke, fire)]
    else
      devs + [Device(id, mA, volts, false, 0, flags.Some? && flags.value.smoke, flags.Some? && flags.value.fire)]
  }

  /** A reading for a known sensor rewrites its entry in place and keeps its lock. */
  lemma UpsertExisting(devs: seq<Device>, id: Byte, mA: nat, volts: nat, flags: Option<Flags>, t: Thresholds)
    requires Find(devs, id as int) >= 0
    ensures var r := Upsert(devs, id, mA, volts, flags, t);
            var i := Find(devs, id as int);
            SameIds(r, devs) && Find(r, id as int) == i
            && r[i] == Device(id, mA, volts, devs[i].lock,
                              if Qualifies(mA, t) then devs[i].fullCnt + 1 else 0,
                              if flags.Some? then flags.value.smoke else devs[i].smoke,
                              if flags.Some? then flags.value.fire else devs[i].fire)
  {
    var r := Upsert(devs, id, mA, volts, flags, t);
    assert SameIds(r, devs);
    FindSameIds(r, devs, id as int);
  }

  /** A reading for an unseen sensor appends it, locked state false and count 0. */
  lemma UpsertAppends(devs: seq<Device>, id: Byte, mA: nat, volts: nat, flags: Option<Flags>, t: Thresholds)
    requires Find(devs, id as int) < 0
    ensures var r := Upsert(devs, id, mA, volts, flags, t);
            r[..|devs|] == devs && Find(r, id as int) == |devs|
            && r[|devs|] == Device(id, mA, volts, false, 0,
                                   flags.Some? && flags.value.smoke, flags.Some? && flags.value.fire)
  {
    var r := Upsert(devs, id, mA, volts, flags, t);
    assert r[..|devs|] == devs;
    FindSnoc(devs, r[|devs|], id as int);
  }

  /** Every reading leaves the ids already present where they were. */
  lemma UpsertKeepsIds(devs: seq<Device>, id: Byte, mA: nat, volts: nat, flags: Option<Flags>, t: Thresholds)
    ensures SameIds(Upsert(devs, id, mA, volts, flags, t)[..|devs|], devs)
  {
  }

  /** Updates never make two entries share an id. */
  lemma UpsertKeepsDistinct(devs: seq<Device>, id: Byte, mA: nat, volts: nat, flags: Option<Flags>, t: Thresholds)
    requires DistinctIds(devs)
    ensures DistinctIds(Upsert(devs, id, mA, volts, flags, t))
  {
    var r := Upsert(devs, id, mA, volts, flags, t);
    if Find(devs, id as int) >= 0 {
      UpsertExisting(devs, id, mA, volts, flags, t);
    } else {
      UpsertAppends(devs, id, mA, volts, flags, t);
    }
  }

  /** A run of mA readings for one sensor, all with the same voltage. */
  function Feed(devs: seq<Device>, id: Byte, samples: seq<nat>, volts: nat, t: Thresholds): seq<Device>
  {
    if samples == [] then devs
    else Upsert(Feed(devs, id, samples[..|samples| - 1], volts, t), id, samples[|samples| - 1], volts, None, t)
  }

  lemma FeedOne(devs: seq<Device>, id: Byte, x: nat, volts: nat, t: Thresholds)
    ensures Feed(devs, id, [x], volts, t) == Upsert(devs, id, x, volts, None, t)
  {
    assert [x][..0] == [];
    assert Feed(devs, id, [], volts, t) == devs;
  }

  /** k qualifying readings in a row raise a known sensor's `full_cnt` by k. */
  lemma {:induction false} FeedCounts(devs: seq<Device>, id: Byte, samples: seq<nat>, volts: nat, t: Thresholds)
    requires Find(devs, id as int) >= 0
    requires forall k :: 0 <= k < |samples| ==> Qualifies(samples[k], t)
    ensures var r := Feed(devs, id, samples, volts, t);
            var i := Find(devs, id as int);
            Find(r, id as int) == i && r[i].fullCnt == devs[i].fullCnt + |samples| && r[i].lock == devs[i].lock
  {
    if samples != [] {
      var front := samples[..|samples| - 1];
      FeedCounts(devs, id, front, volts, t);
      UpsertExisting(Feed(devs, id, front, volts, t), id, samples[|samples| - 1], volts, None, t);
    }
  }

  /** A sensor seen for the first time has counted k - 1 after k qualifying readings. */
  lemma FeedFromNew(devs: seq<Device>, id: Byte, samples: seq<nat>, volts: nat, t: Thresholds)
    requires Find(devs, id as int) < 0 && samples != []
    requires forall k :: 0 <= k < |samples| ==> Qualifies(samples[k], t)
    ensures var r := Feed(devs, id, samples, volts, t);
            Find(r, id as int) == |devs| && r[|devs|].fullCnt == |samples| - 1 && !r[|devs|].lock
  {
    var first := Feed(devs, id, samples[..1], volts, t);
    assert samples[..1] == [samples[0]];
    FeedOne(devs, id, samples[0], volts, t);
    UpsertAppends(devs, id, samples[0], volts, None, t);
    var rest := samples[1..];
    FeedCounts(first, id, rest, volts, t);
    FeedSplit(devs, id, samples, volts, t);
  }

  /** Feeding a run is feeding its first reading, then the others. */
  lemma {:induction false} FeedSplit(devs: seq<Device>, id: Byte, samples: seq<nat>, volts: nat, t: Thresholds)
    requires samples != []
    ensures Feed(devs, id, samples, volts, t) == Feed(Feed(devs, id, samples[..1], volts, t), id, samples[1..], volts, t)
  {
    if |samples| > 1 {
      var front := samples[..|samples| - 1];
      FeedSplit(devs, id, front, volts, t);
      assert front[..1] == samples[..1];
      assert front[1..] == samples[1..][..|samples[1..]| - 1];
    } else {
      assert samples[1..] == [];
    }
  }

  /** A qualifying reading after any other resets the streak: the count is then 1. */
  lemma ResetThenCount(devs: seq<Device>, id: Byte, low: nat, high: nat, volts: nat, t: Thresholds)
    requires Find(devs, id as int) >= 0 && !Qualifies(low, t) && Qualifies(high, t)
    ensures var r := Feed(devs, id, [low, high], volts, t);
            Find(r, id as int) == Find(devs, id as int) && r[Find(devs, id as int)].fullCnt == 1
  {
    assert [low, high][..1] == [low];
    var once := Feed(devs, id, [low], volts, t);
    FeedOne(devs, id, low, volts, t);
    UpsertExisting(devs, id, low, volts, None, t);
    UpsertExisting(once, id, high, volts, None, t);
  }

  // ---------------------------------------------------------------------
  // The /unlock gate

  datatype UnlockReply = DeviceNotFound | AlreadyUnlocked | DeviceCharging | Success

  /** A locked device may be released: it is unplugged, or full and has stayed
      full for at least SENSOR_FULL_CHARGED_DELAY readings. */
  predicate MayOpen(d: Device, t: Thresholds)
  {
    var s := GetSensorStatus(d.mA, t);
    (s == FullCharged && d.fullCnt >= FullChargedDelay) || s == NotCharge
  }

  /** The answer of /unlock for a numeric id. */
  function UnlockDecision(devs: seq<Device>, id: int, t: Thresholds): (r: UnlockReply)
    ensures r == DeviceNotFound <==> Find(devs, id) < 0
    ensures r == AlreadyUnlocked <==> Find(devs, id) >= 0 && !devs[Find(devs, id)].lock
    ensures r == Success <==> Find(devs, id) >= 0 && devs[Find(devs, id)].lock && MayOpen(devs[Find(devs, id)], t)
    ensures r == DeviceCharging <==> Find(devs, id) >= 0 && devs[Find(devs, id)].lock && !MayOpen(devs[Find(devs, id)], t)
  {
    var i := Find(devs, id);
    if i < 0 then DeviceNotFound
    else if !devs[i].lock then AlreadyUnlocked
    else if MayOpen(devs[i], t) then Success
    else DeviceCharging
  }

  /** A charging sensor is never released. */
  lemma ChargingStaysLocked(devs: seq<Device>, id: int, t: Thresholds)
    requires Find(devs, id) >= 0 && GetSensorStatus(devs[Find(devs, id)].mA, t) == Charging
    ensures UnlockDecision(devs, id, t) != Success
  {
  }

  /** For a sensor first seen with a run of full readings, the gate passes only
      from the sixth reading on. */
  lemma NewSensorGate(devs: seq<Device>, id: Byte, samples: seq<nat>, volts: nat, t: Thresholds)
    requires Find(devs, id as int) < 0 && samples != []
    requires forall k :: 0 <= k < |samples| ==> Qualifies(samples[k], t)
    ensures var r := Feed(devs, id, samples, volts, t);
            Find(r, id as int) == |devs| && (MayOpen(r[|devs|], t) <==> |samples| >= FullChargedDelay + 1)
  {
    FeedFromNew(devs, id, samples, volts, t);
    var r := Feed(devs, id, samples, volts, t);
    assert Qualifies(samples[|samples| - 1], t);
    Feed1Reading(devs, id, samples, volts, t);
  }

  /** The entry's current is the last reading of the run. */
  lemma Feed1Reading(devs: seq<Device>, id: Byte, samples: seq<nat>, volts: nat, t: Thresholds)
    requires samples != []
    ensures var r := Feed(devs, id, samples, volts, t);
            Find(r, id as int) >= 0 && r[Find(r, id as int)].mA == samples[|samples| - 1]
  {
    var p := Feed(devs, id, samples[..|samples| - 1], volts, t);
    if Find(p, id as int) >= 0 {
      UpsertExisting(p, id, samples[|samples| - 1], volts, None, t);
    } else {
      UpsertAppends(p, id, samples[|samples| - 1], volts, None, t);
    }
  }

  // ---------------------------------------------------------------------
  // The CU lock bitmask

  /** One turn of the `dev_id` loop: lock `d + 1` takes bit `d` of the status
      word, and a locked sensor drawing no more than `notcharge` is opened.
      Returns the table and the lock ids handed to cuLockOpen. */
  function LockOne(devs: seq<Device>, status: bv16, t: Thresholds, d: nat): (seq<Device>, seq<nat>)
    requires d < 16
  {
    var i := Find(devs, d + 1);
    if i < 0 then (devs, [])
    else
      var locked := CuFrame.LockBit(status, d);
      var updated := if devs[i].lock != locked then devs[i := devs[i].(lock := locked)] else devs;
      (updated, if locked && devs[i].mA <= t.notcharge then [d + 1] else [])
  }

  /** The first `n` turns of the `dev_id` loop. */
  function LockPass(devs: seq<Device>, status: bv16, t: Thresholds, n: nat): (seq<Device>, seq<nat>)
    requires n <= 16
  {
    if n == 0 then (devs, [])
    else
      var p := LockPass(devs, status, t, n - 1);
      var q := LockOne(p.0, status, t, n - 1);
      (q.0, p.1 + q.1)
  }

  /** Entry j once the bits below `n` are applied: the entry find() returns for
      an id in 1..n carries that id's bit; every other entry is untouched. */
  function Relocked(devs: seq<Device>, status: bv16, n: nat, j: nat): Device
    requires n <= 16 && j < |devs|
  {
    var id := devs[j].id as int;
    if 1 <= id <= n && Find(devs, id) == j then devs[j].(lock := CuFrame.LockBit(status, id - 1))
    else devs[j]
  }

  /** Lock `x` is opened by the pass: its sensor is known, its bit is set and
      it draws no more than `notcharge`. */
  predicate Opens(devs: seq<Device>, status: bv16, t: Thresholds, x: int)
  {
    1 <= x <= 16 && Find(devs, x) >= 0 && CuFrame.LockBit(status, x - 1) && devs[Find(devs, x)].mA <= t.notcharge
  }

  /** What the pass does: each known lock 1..n gets its bit, nothing else in the
      table changes, and cuLockOpen is called once per opened lock, in
      increasing lock order. */
  lemma {:induction false} LockPassMeans(devs: seq<Device>, status: bv16, t: Thresholds, n: nat)
    requires n <= 16
    ensures var r := LockPass(devs, status, t, n);
            |r.0| == |devs| && (forall j :: 0 <= j < |devs| ==> r.0[j] == Relocked(devs, status, n, j))
    ensures var r := LockPass(devs, status, t, n);
            forall x :: x in r.1 <==> x <= n && Opens(devs, status, t, x)
    ensures var r := LockPass(devs, status, t, n);
            forall a, b :: 0 <= a < b < |r.1| ==> r.1[a] < r.1[b]
  {
    if n > 0 {
      LockPassMeans(devs, status, t, n - 1);
      var p := LockPass(devs, status, t, n - 1);
      RelockedSameIds(devs, p.0, status, n - 1);
      FindSameIds(p.0, devs, n);
      LockOneMeans(devs, p.0, status, t, n);
      AppendIncreasing(p.1, LockOne(p.0, status, t, n - 1).1, n);
    }
  }

  lemma RelockedSameIds(devs: seq<Device>, p: seq<Device>, status: bv16, n: nat)
    requires n <= 16 && |p| == |devs|
    requires forall j :: 0 <= j < |devs| ==> p[j] == Relocked(devs, status, n, j)
    ensures SameIds(p, devs)
  {
    forall j | 0 <= j < |devs| ensures p[j].id == devs[j].id {
      assert p[j] == Relocked(devs, status, n, j);
    }
  }

  /** An increasing list of ids below `n`, then possibly `n`, is increasing. */
  lemma AppendIncreasing(xs: seq<nat>, ys: seq<nat>, n: nat)
    requires forall a, b :: 0 <= a < b < |xs| ==> xs[a] < xs[b]
    requires forall x :: x in xs ==> x < n
    requires ys == [] || ys == [n]
    ensures forall a, b :: 0 <= a < b < |xs + ys| ==> (xs + ys)[a] < (xs + ys)[b]
  {
    forall a, b | 0 <= a < b < |xs + ys|
      ensures (xs + ys)[a] < (xs + ys)[b]
    {
      if b >= |xs| {
        assert (xs + ys)[a] == xs[a] && xs[a] in xs;
      }
    }
  }

  /** The step of LockPassMeans: turn `n - 1` applied to the table of the first
      `n - 1` turns. */
  lemma LockOneMeans(devs: seq<Device>, p: seq<Device>, status: bv16, t: Thresholds, n: nat)
    requires 1 <= n <= 16 && |p| == |devs|
    requires forall j :: 0 <= j < |devs| ==> p[j] == Relocked(devs, status, n - 1, j)
    requires Find(p, n) == Find(devs, n)
    ensures var q := LockOne(p, status, t, n - 1);
            |q.0| == |devs| && (forall j :: 0 <= j < |devs| ==> q.0[j] == Relocked(devs, status, n, j))
            && q.1 == if Opens(devs, status, t, n) then [n] else []
  {
    var i := Find(devs, n);
    var q := LockOne(p, status, t, n - 1);
    if i >= 0 {
      assert p[i] == Relocked(devs, status, n - 1, i);
    }
    forall j | 0 <= j < |devs|
      ensures q.0[j] == Relocked(devs, status, n, j)
    {
      LockOneEntry(devs, p, status, t, n, j);
    }
  }

  /** Entry `j` after turn `n - 1`. */
  lemma LockOneEntry(devs: seq<Device>, p: seq<Device>, status: bv16, t: Thresholds, n: nat, j: nat)
    requires 1 <= n <= 16 && |p| == |devs| && j < |devs|
    requires p[j] == Relocked(devs, status, n - 1, j)
    requires Find(p, n) == Find(devs, n)
    requires Find(devs, n) >= 0 ==> p[Find(devs, n)] == devs[Find(devs, n)]
    ensures |LockOne(p, status, t, n - 1).0| == |devs|
    ensures LockOne(p, status, t, n - 1).0[j] == Relocked(devs, status, n, j)
  {
    var i := Find(devs, n);
    if i < 0 {
      assert devs[j].id as int != n;
    } else if j == i {
      assert devs[j].id as int == n;
    } else {
      assert LockOne(p, status, t, n - 1).0[j] == p[j];
    }
  }

  /** The pass never changes which ids the table holds. */
  lemma LockPassKeepsIds(devs: seq<Device>, status: bv16, t: Thresholds)
    ensures SameIds(LockPass(devs, status, t, 16).0, devs)
  {
    LockPassMeans(devs, status, t, 16);
    var r := LockPass(devs, status, t, 16);
    forall j | 0 <= j < |devs| ensures r.0[j].id == devs[j].id {
      assert r.0[j] == Relocked(devs, status, 16, j);
    }
  }

  /** Every status reply in a window, one pass each, in order. */
  function ApplyReplies(devs: seq<Device>, ws: seq<seq<Byte>>, t: Thresholds): (seq<Device>, seq<nat>)
    requires forall k :: 0 <= k < |ws| ==> |ws[k]| == CuFrame.ReplyLength
  {
    if ws == [] then (devs, [])
    else
      var p := ApplyReplies(devs, ws[..|ws| - 1], t);
      var q := LockPass(p.0, CuFrame.StatusWord(ws[|ws| - 1]), t, 16);
      (q.0, p.1 + q.1)
  }

  /** One more reply is one more pass over the table the earlier ones left. */
  lemma ApplyRepliesSnoc(devs: seq<Device>, ws: seq<seq<Byte>>, w: seq<Byte>, t: Thresholds)
    requires forall k :: 0 <= k < |ws| ==> |ws[k]| == CuFrame.ReplyLength
    requires |w| == CuFrame.ReplyLength
    ensures forall k :: 0 <= k < |ws + [w]| ==> |(ws + [w])[k]| == CuFrame.ReplyLength
    ensures var p := ApplyReplies(devs, ws, t);
            var q := LockPass(p.0, CuFrame.StatusWord(w), t, 16);
            ApplyReplies(devs, ws + [w], t) == (q.0, p.1 + q.1)
  {
    forall k | 0 <= k < |ws| + 1
      ensures |(ws + [w])[k]| == CuFrame.ReplyLength
    {
      if k < |ws| {
        assert (ws + [w])[k] == ws[k];
      }
    }
    assert (ws + [w])[..|ws|] == ws;
  }

  /** Replies never change which ids the table holds. */
  lemma {:induction false} ApplyRepliesKeepsIds(devs: seq<Device>, ws: seq<seq<Byte>>, t: Thresholds)
    requires forall k :: 0 <= k < |ws| ==> |ws[k]| == CuFrame.ReplyLength
    ensures SameIds(ApplyReplies(devs, ws, t).0, devs)
  {
    if ws != [] {
      ApplyRepliesKeepsIds(devs, ws[..|ws| - 1], t);
      var p := ApplyReplies(devs, ws[..|ws| - 1], t);
      LockPassKeepsIds(p.0, CuFrame.StatusWord(ws[|ws| - 1]), t);
    }
  }

  lemma SameIdsKeepDistinct(a: seq<Device>, b: seq<Device>)
    requires SameIds(a, b) && DistinctIds(b)
    ensures DistinctIds(a)
  {
    forall i, j | 0 <= i < j < |a| ensures a[i].id != a[j].id {
      assert a[i].id == b[i].id && a[j].id == b[j].id;
    }
  }

  // ---------------------------------------------------------------------
  // The /getStatus poll

  /** Handling one poll answer. Without an answer nothing changes. An answer
      shorter than 11 bytes makes `readFloatLE` throw, which abandons the
      request (None). Otherwise mA is read at 3, V at 7, and smoke and fire at
      11 and 12 when present. `round` is Math.round(Math.abs(readFloatLE)). */
  function PollOne(devs: seq<Device>, id: Byte, resp: Option<seq<Byte>>, round: Word -> nat, t: Thresholds): (r: Option<seq<Device>>)
    ensures resp.None? ==> r == Some(devs)
    ensures resp.Some? ==> (r.None? <==> |resp.value| < 11)
  {
    match resp
    case None => Some(devs)
    case Some(f) =>
      if |f| < 11 then None
      else Some(Upsert(devs, id, round(f[3..7]), round(f[7..11]),
                       Some(Flags(|f| > 11 && f[11] != 0, |f| > 12 && f[12] != 0)), t))
  }

  /** The poll of the listed ids with their answers: the table it leaves and
      whether the loop ran to the end. */
  function PollAll(devs: seq<Device>, ids: seq<Byte>, resps: seq<Option<seq<Byte>>>, round: Word -> nat, t: Thresholds): (seq<Device>, bool)
    requires |ids| == |resps|
  {
    if ids == [] then (devs, true)
    else
      var p := PollAll(devs, ids[..|ids| - 1], resps[..|resps| - 1], round, t);
      if !p.1 then p
      else match PollOne(p.0, ids[|ids| - 1], resps[|resps| - 1], round, t)
        case None => (p.0, false)
        case Some(d) => (d, true)
  }

  /** Once a poll answer has aborted the request, later ids are not polled. */
  lemma {:induction false} PollAllStaysAborted(devs: seq<Device>, ids: seq<Byte>, resps: seq<Option<seq<Byte>>>,
                                               n: nat, round: Word -> nat, t: Thresholds)
    requires |ids| == |resps| && n <= |ids|
    requires !PollAll(devs, ids[..n], resps[..n], round, t).1
    ensures PollAll(devs, ids, resps, round, t) == PollAll(devs, ids[..n], resps[..n], round, t)
  {
    if n < |ids| {
      assert ids[..|ids| - 1][..n] == ids[..n] && resps[..|resps| - 1][..n] == resps[..n];
      PollAllStaysAborted(devs, ids[..|ids| - 1], resps[..|resps| - 1], n, round, t);
    } else {
      assert ids[..n] == ids && resps[..n] == resps;
    }
  }

  /** A sensor's reply, as the firmware builds it, passes validatePacket and
      is read back with the sensor's own mA, V, smoke and fire. */
  lemma PollReadsSensorReply(devs: seq<Device>, id: Byte, r: FirmwareUart.Reading, round: Word -> nat, t: Thresholds)
    ensures var f := FirmwareUart.Uart1Frame(id, FirmwareUart.ReplyBody(r));
            SensorFrame.ValidatePacket(f)
            && PollOne(devs, id, Some(f), round, t)
               == Some(Upsert(devs, id, round(r.mA), round(r.volts), Some(Flags(r.smoke, r.fire)), t))
  {
    FirmwareUart.ReplyLayout(id, r);
  }

  /** One line of the /getStatus answer. */
  datatype Row = Row(id: Byte, mA: nat, volts: nat, status: string, lock: bool, smoke: bool, fire: bool)

  function RowOf(d: Device, t: Thresholds): Row
  {
    Row(d.id, d.mA, d.volts, StatusString(GetSensorStatus(d.mA, t)), d.lock, d.smoke, d.fire)
  }

  /** The answer lists every known sensor, in table order. */
  function Rows(devs: seq<Device>, t: Thresholds): (rows: seq<Row>)
    ensures |rows| == |devs| && forall k :: 0 <= k < |devs| ==> rows[k] == RowOf(devs[k], t)
  {
    if devs == [] then [] else Rows(devs[..|devs| - 1], t) + [RowOf(devs[|devs| - 1], t)]
  }

  // ---------------------------------------------------------------------
  // Readings arriving over TCP

  /** The TCP data handler: every record of the master's packet, in order,
      without smoke or fire flags. */
  function UpsertAll(devs: seq<Device>, infos: seq<DevicePacket.DeviceInfo>, round: Word -> nat, t: Thresholds): seq<Device>
  {
    if infos == [] then devs
    else
      var d := infos[|infos| - 1];
      Upsert(UpsertAll(devs, infos[..|infos| - 1], round, t), d.id, round(d.mA), round(d.volts), None, t)
  }

  /** The handler keeps the ids of the table distinct. */
  lemma {:induction false} UpsertAllKeepsDistinct(devs: seq<Device>, infos: seq<DevicePacket.DeviceInfo>, round: Word -> nat, t: Thresholds)
    requires DistinctIds(devs)
    ensures DistinctIds(UpsertAll(devs, infos, round, t))
  {
    if infos != [] {
      var d := infos[|infos| - 1];
      UpsertAllKeepsDistinct(devs, infos[..|infos| - 1], round, t);
      UpsertKeepsDistinct(UpsertAll(devs, infos[..|infos| - 1], round, t), d.id, round(d.mA), round(d.volts), None, t);
    }
  }

  /** A sensor in the table stays in it through any reading. */
  lemma UpsertKeepsPresent(devs: seq<Device>, x: int, id: Byte, mA: nat, volts: nat, flags: Option<Flags>, t: Thresholds)
    requires Find(devs, x) >= 0
    ensures Find(Upsert(devs, id, mA, volts, flags, t), x) >= 0
  {
    var r := Upsert(devs, id, mA, volts, flags, t);
    var j := Find(devs, x);
    UpsertKeepsIds(devs, id, mA, volts, flags, t);
    assert r[..|devs|][j].id == r[j].id;
  }

  /** A sensor is in the table after a reading for it. */
  lemma UpsertMakesPresent(devs: seq<Device>, id: Byte, mA: nat, volts: nat, flags: Option<Flags>, t: Thresholds)
    ensures Find(Upsert(devs, id, mA, volts, flags, t), id as int) >= 0
  {
    if Find(devs, id as int) >= 0 {
      UpsertExisting(devs, id, mA, volts, flags, t);
    } else {
      UpsertAppends(devs, id, mA, volts, flags, t);
    }
  }

  /** A sensor known before the handler is still known after it. */
  lemma {:induction false} UpsertAllKeepsPresent(devs: seq<Device>, infos: seq<DevicePacket.DeviceInfo>, round: Word -> nat, t: Thresholds, x: int)
    requires Find(devs, x) >= 0
    ensures Find(UpsertAll(devs, infos, round, t), x) >= 0
  {
    if infos != [] {
      var front := infos[..|infos| - 1];
      var d := infos[|infos| - 1];
      UpsertAllKeepsPresent(devs, front, round, t, x);
      UpsertKeepsPresent(UpsertAll(devs, front, round, t), x, d.id, round(d.mA), round(d.volts), None, t);
    }
  }

  /** The sensor of record `k` is known after the handler. */
  lemma {:induction false} UpsertAllMakesPresent(devs: seq<Device>, infos: seq<DevicePacket.DeviceInfo>, round: Word -> nat, t: Thresholds, k: nat)
    requires k < |infos|
    ensures Find(UpsertAll(devs, infos, round, t), infos[k].id as int) >= 0
  {
    var front := infos[..|infos| - 1];
    var d := infos[|infos| - 1];
    var p := UpsertAll(devs, front, round, t);
    if k < |front| {
      UpsertAllMakesPresent(devs, front, round, t, k);
      assert front[k] == infos[k];
      UpsertKeepsPresent(p, infos[k].id as int, d.id, round(d.mA), round(d.volts), None, t);
    } else {
      UpsertMakesPresent(p, d.id, round(d.mA), round(d.volts), None, t);
    }
  }

  /** After the handler, every sensor of the packet and every sensor known
      before is in the table. */
  lemma UpsertAllFindsAll(devs: seq<Device>, infos: seq<DevicePacket.DeviceInfo>, round: Word -> nat, t: Thresholds)
    ensures var r := UpsertAll(devs, infos, round, t);
            (forall k :: 0 <= k < |infos| ==> Find(r, infos[k].id as int) >= 0)
            && (forall k :: 0 <= k < |devs| ==> Find(r, devs[k].id as int) >= 0)
  {
    forall k | 0 <= k < |infos| ensures Find(UpsertAll(devs, infos, round, t), infos[k].id as int) >= 0 {
      UpsertAllMakesPresent(devs, infos, round, t, k);
    }
    forall k | 0 <= k < |devs| ensures Find(UpsertAll(devs, infos, round, t), devs[k].id as int) >= 0 {
      UpsertAllKeepsPresent(devs, infos, round, t, devs[k].id as int);
    }
  }
}

/** The sensor master's device table and the aggregate packet it sends over
    TCP (master/dev_mng.cpp), and the gateway's reading of that packet
    (parseSensorDevices in wired_solution/nodejs/server.js). A packet is a
    count byte followed by one 9-byte record per device: id, then the raw
    bytes of the mA and V floats. */
module DevicePacket {
  import opened Bytes

  /** sizeof(DeviceInfo_st): the struct is packed. */
  const RecordSize: nat := 9

  datatype DeviceInfo = DeviceInfo(id: Byte, mA: Word, volts: Word)

  predicate DistinctIds(devs: seq<DeviceInfo>)
  {
    forall i, j :: 0 <= i < j < |devs| ==> devs[i].id != devs[j].id
  }

  // ---------------------------------------------------------------------
  // The table

  /** The first index holding `id`, or -1. */
  function FirstIndex(devs: seq<DeviceInfo>, id: Byte): (r: int)
    ensures -1 <= r < |devs|
    ensures r >= 0 ==> devs[r].id == id && forall k :: 0 <= k < r ==> devs[k].id != id
    ensures r == -1 <==> forall k :: 0 <= k < |devs| ==> devs[k].id != id
  {
    if devs == [] then -1
    else if devs[|devs| - 1].id == id && FirstIndex(devs[..|devs| - 1], id) == -1 then |devs| - 1
    else FirstIndex(devs[..|devs| - 1], id)
  }

  /** The value an `int8_t` holds after being assigned `i`. */
  function Int8(i: int): (r: int)
    ensures -128 <= r < 128
    ensures -128 <= i < 128 ==> r == i
    ensures 128 <= i < 256 ==> r == i - 256
  {
    (i + 128) % 256 - 128
  }

  /** DEVICES_UpdateInfo with the index held at full width: an existing id
      has its record overwritten in place, an unseen one is appended. */
  function Update(devs: seq<DeviceInfo>, id: Byte, mA: Word, volts: Word): (r: seq<DeviceInfo>)
  {
    var i := FirstIndex(devs, id);
    if i >= 0 then devs[i := DeviceInfo(id, mA, volts)] else devs + [DeviceInfo(id, mA, volts)]
  }

  /** DEVICES_UpdateInfo as written: the index passes through LocalDeviceExist's
      `int8_t`, so a match at index 128 or beyond reads as a miss (or as
      another index). */
  function UpdateAsWritten(devs: seq<DeviceInfo>, id: Byte, mA: Word, volts: Word): (r: seq<DeviceInfo>)
  {
    var i := Int8(FirstIndex(devs, id));
    if i >= 0 then devs[i := DeviceInfo(id, mA, volts)] else devs + [DeviceInfo(id, mA, volts)]
  }

  /** Updating a known id overwrites only its record; size and every other
      record stay as they were. */
  lemma UpdateExisting(devs: seq<DeviceInfo>, id: Byte, mA: Word, volts: Word, i: nat)
    requires DistinctIds(devs) && i < |devs| && devs[i].id == id
    ensures |Update(devs, id, mA, volts)| == |devs|
    ensures Update(devs, id, mA, volts)[i] == DeviceInfo(id, mA, volts)
    ensures forall k :: 0 <= k < |devs| && k != i ==> Update(devs, id, mA, volts)[k] == devs[k]
  {
    assert FirstIndex(devs, id) == i;
  }

  /** Updating an unseen id appends one record at the end. */
  lemma UpdateUnseen(devs: seq<DeviceInfo>, id: Byte, mA: Word, volts: Word)
    requires forall k :: 0 <= k < |devs| ==> devs[k].id != id
    ensures Update(devs, id, mA, volts) == devs + [DeviceInfo(id, mA, volts)]
  {
  }

  /** Ids stay pairwise distinct across every update. */
  lemma UpdateKeepsDistinct(devs: seq<DeviceInfo>, id: Byte, mA: Word, volts: Word)
    requires DistinctIds(devs)
    ensures DistinctIds(Update(devs, id, mA, volts))
  {
    var r := Update(devs, id, mA, volts);
    if FirstIndex(devs, id) >= 0 {
      assert forall k :: 0 <= k < |r| ==> r[k].id == devs[k].id;
    }
  }

  /** 129 devices whose ids are 0..128, in that order. */
  function Ramp(mA: Word, volts: Word): (devs: seq<DeviceInfo>)
    ensures |devs| == 129 && forall i :: 0 <= i < 129 ==> devs[i].id as int == i
  {
    seq(129, k requires 0 <= k < 129 => DeviceInfo(ByteOf(k), mA, volts))
  }

  /** The defect of the int8_t index: with 129 devices whose ids are 0..128,
      an update of id 128 appends a second record for it instead of
      overwriting the first. */
  lemma Int8IndexDuplicates(mA: Word, volts: Word)
    ensures DistinctIds(Ramp(mA, volts))
    ensures UpdateAsWritten(Ramp(mA, volts), 128, mA, volts) == Ramp(mA, volts) + [DeviceInfo(128, mA, volts)]
    ensures !DistinctIds(UpdateAsWritten(Ramp(mA, volts), 128, mA, volts))
    ensures |Update(Ramp(mA, volts), 128, mA, volts)| == 129
  {
    var devs := Ramp(mA, volts);
    assert devs[128].id == 128;
    var f := FirstIndex(devs, 128);
    assert f >= 0 && devs[f].id as int == f;
    var r := UpdateAsWritten(devs, 128, mA, volts);
    assert r[128].id == r[129].id;
  }

  /** Up to 128 entries the as-written update is the full-width one. */
  lemma AsWrittenAgreesBelow128(devs: seq<DeviceInfo>, id: Byte, mA: Word, volts: Word)
    requires |devs| <= 128
    ensures UpdateAsWritten(devs, id, mA, volts) == Update(devs, id, mA, volts)
  {
  }

  // ---------------------------------------------------------------------
  // The aggregate packet

  /** One record: id, 4 bytes of mA, 4 bytes of V. */
  function Encode(d: DeviceInfo): (r: seq<Byte>)
    ensures |r| == RecordSize
  {
    [d.id] + d.mA + d.volts
  }

  /** The record starting at `at`, read the way parseSensorDevices reads it. */
  function RecordAt(buf: seq<Byte>, at: nat): DeviceInfo
    requires at + RecordSize <= |buf|
  {
    DeviceInfo(buf[at], buf[at + 1..at + 5], buf[at + 5..at + 9])
  }

  lemma DecodeEncode(d: DeviceInfo)
    ensures RecordAt(Encode(d), 0) == d
  {
    var e := Encode(d);
    assert e[1..5] == d.mA && e[5..9] == d.volts;
  }

  /** The records back to back. */
  function Serialize(devs: seq<DeviceInfo>): (r: seq<Byte>)
    ensures |r| == RecordSize * |devs|
  {
    if devs == [] then [] else Serialize(devs[..|devs| - 1]) + Encode(devs[|devs| - 1])
  }

  lemma SerializeSnoc(devs: seq<DeviceInfo>, i: nat)
    requires i < |devs|
    ensures Serialize(devs[..i + 1]) == Serialize(devs[..i]) + Encode(devs[i])
  {
    assert devs[..i + 1][..i] == devs[..i];
  }

  /** Record k sits at offset 9k. */
  lemma {:induction false} SerializeAt(devs: seq<DeviceInfo>, k: nat)
    requires k < |devs|
    ensures Serialize(devs)[RecordSize * k..RecordSize * k + RecordSize] == Encode(devs[k])
    decreases |devs|
  {
    var front := devs[..|devs| - 1];
    if k < |devs| - 1 {
      SerializeAt(front, k);
      assert Serialize(devs)[RecordSize * k..RecordSize * k + RecordSize]
          == Serialize(front)[RecordSize * k..RecordSize * k + RecordSize];
    } else {
      assert Serialize(devs)[RecordSize * k..] == Encode(devs[k]);
    }
  }

  /** The packet for a table: count byte, then the records of the first
      `count` devices. */
  function PacketPrefix(devs: seq<DeviceInfo>): seq<Byte>
  {
    [ToByte(|devs|)] + Serialize(devs[..|devs| % 256])
  }

  // ---------------------------------------------------------------------
  // Parsing on the gateway

  /** Records i, i+1, ... below `count`, stopping at the first one that
      would run past the end of the buffer. */
  function ParseFrom(buf: seq<Byte>, i: nat, count: nat): seq<DeviceInfo>
    decreases count - i
  {
    if i >= count || 1 + RecordSize * i + RecordSize > |buf| then []
    else [RecordAt(buf, 1 + RecordSize * i)] + ParseFrom(buf, i + 1, count)
  }

  /** From record i on, the loop reads min(count, (len-1)/9) - i records. */
  lemma {:induction false} ParseFromLength(buf: seq<Byte>, i: nat, count: nat)
    ensures |ParseFrom(buf, i, count)| == if i < count && 1 + RecordSize * i + RecordSize <= |buf|
                                          then Min(count, (|buf| - 1) / RecordSize) - i else 0
    decreases count - i
  {
    if i < count && 1 + RecordSize * i + RecordSize <= |buf| {
      ParseFromLength(buf, i + 1, count);
    }
  }

  /** Entry k of ParseFrom(buf, i, count) is the record at 1 + 9(i + k). */
  lemma {:induction false} ParseFromAt(buf: seq<Byte>, i: nat, count: nat, k: nat)
    requires k < |ParseFrom(buf, i, count)|
    ensures 1 + RecordSize * (i + k) + RecordSize <= |buf|
    ensures ParseFrom(buf, i, count)[k] == RecordAt(buf, 1 + RecordSize * (i + k))
    decreases k
  {
    if k > 0 {
      ParseFromAt(buf, i + 1, count, k - 1);
    }
  }

  lemma ParseFromStep(buf: seq<Byte>, i: nat, count: nat)
    requires i < count && 1 + RecordSize * i + RecordSize <= |buf|
    ensures ParseFrom(buf, i, count) == [RecordAt(buf, 1 + RecordSize * i)] + ParseFrom(buf, i + 1, count)
  {
  }

  /** One pass of the loop: the record at i moves from the unread part to the read part. */
  lemma ParseFromShift(devices: seq<DeviceInfo>, buf: seq<Byte>, i: nat, count: nat)
    requires i < count && 1 + RecordSize * i + RecordSize <= |buf|
    ensures devices + ParseFrom(buf, i, count)
         == (devices + [RecordAt(buf, 1 + RecordSize * i)]) + ParseFrom(buf, i + 1, count)
  {
    ParseFromStep(buf, i, count);
  }

  lemma ParseFromStop(devices: seq<DeviceInfo>, buf: seq<Byte>, i: nat, count: nat)
    requires i >= count || 1 + RecordSize * i + RecordSize > |buf|
    ensures devices + ParseFrom(buf, i, count) == devices
  {
    assert ParseFrom(buf, i, count) == [];
  }

  /** parseSensorDevices: at most min(count, (len-1)/9) records, record i
      read at offset 1 + 9i. */
  function ParseSensorDevices(buf: seq<Byte>): (r: seq<DeviceInfo>)
    ensures buf == [] ==> r == []
    ensures buf != [] ==> |r| == Min(buf[0] as nat, (|buf| - 1) / RecordSize)
    ensures forall k :: 0 <= k < |r| ==> 1 + RecordSize * k + RecordSize <= |buf|
                                         && r[k] == RecordAt(buf, 1 + RecordSize * k)
  {
    if |buf| < 1 then []
    else
      ParseFromLength(buf, 0, buf[0] as nat);
      ParseFromRecords(buf, buf[0] as nat);
      ParseFrom(buf, 0, buf[0] as nat)
  }

  lemma ParseFromRecords(buf: seq<Byte>, count: nat)
    ensures forall k :: 0 <= k < |ParseFrom(buf, 0, count)| ==>
              1 + RecordSize * k + RecordSize <= |buf| && ParseFrom(buf, 0, count)[k] == RecordAt(buf, 1 + RecordSize * k)
  {
    forall k | 0 <= k < |ParseFrom(buf, 0, count)|
      ensures 1 + RecordSize * k + RecordSize <= |buf| && ParseFrom(buf, 0, count)[k] == RecordAt(buf, 1 + RecordSize * k)
    {
      ParseFromAt(buf, 0, count, k);
    }
  }

  /** The `for` loop of parseSensorDevices. */
  method ParseSensorDevicesLoop(buf: seq<Byte>) returns (devices: seq<DeviceInfo>)
    ensures devices == ParseSensorDevices(buf)
  {
    devices := [];
    if |buf| < 1 {
      return;
    }
    var count := buf[0] as nat;
    var i := 0;
    while i < count
      invariant 0 <= i <= count
      invariant devices + ParseFrom(buf, i, count) == ParseFrom(buf, 0, count)
    {
      var start := 1 + RecordSize * i;
      if start + RecordSize > |buf| {
        break;
      }
      ParseFromShift(devices, buf, i, count);
      devices := devices + [RecordAt(buf, start)];
      i := i + 1;
    }
    ParseFromStop(devices, buf, i, count);
  }

  /** Reading a record depends only on its nine bytes. */
  lemma RecordAtWindow(buf: seq<Byte>, at: nat)
    requires at + RecordSize <= |buf|
    ensures RecordAt(buf, at) == RecordAt(buf[at..at + RecordSize], 0)
  {
    var w := buf[at..at + RecordSize];
    assert w[1..5] == buf[at + 1..at + 5];
    assert w[5..9] == buf[at + 5..at + 9];
  }

  /** Record k of the packet is device k. */
  lemma PacketRecordAt(devs: seq<DeviceInfo>, k: nat)
    requires k < |devs| < 256
    ensures 1 + RecordSize * k + RecordSize <= |PacketPrefix(devs)|
    ensures RecordAt(PacketPrefix(devs), 1 + RecordSize * k) == devs[k]
  {
    var buf := PacketPrefix(devs);
    var s := Serialize(devs);
    assert devs[..|devs| % 256] == devs;
    assert buf == [ToByte(|devs|)] + s;
    var at := RecordSize * k;
    SerializeAt(devs, k);
    assert buf[1 + at..1 + at + RecordSize] == s[at..at + RecordSize];
    RecordAtWindow(buf, 1 + at);
    DecodeEncode(devs[k]);
  }

  /** What the master sends is what the gateway reads back: every device, in
      order, whenever the table holds 1 to 255 entries. */
  lemma ParseSerialized(devs: seq<DeviceInfo>)
    requires 0 < |devs| < 256
    ensures ParseSensorDevices(PacketPrefix(devs)) == devs
  {
    var buf := PacketPrefix(devs);
    assert devs[..|devs| % 256] == devs;
    assert buf[0] as nat == |devs| && |buf| == 1 + RecordSize * |devs|;
    var r := ParseSensorDevices(buf);
    assert |r| == |devs|;
    forall k | 0 <= k < |devs|
      ensures r[k] == devs[k]
    {
      PacketRecordAt(devs, k);
    }
  }

  /** With 256 devices the count byte wraps to 0 and the gateway reads none. */
  lemma FullTableReadsEmpty(devs: seq<DeviceInfo>)
    requires |devs| == 256
    ensures ParseSensorDevices(PacketPrefix(devs)) == []
  {
  }

  // ---------------------------------------------------------------------
  // The master's state

  /** The global `devices_` vector and the functions that work on it. */
  class DeviceManager {
    var devices: seq<DeviceInfo>

    ghost predicate Valid()
      reads this
    {
      DistinctIds(devices)
    }

    constructor()
      ensures Valid() && devices == []
    {
      devices := [];
    }

    /** The linear search of LocalDeviceExist, at full width. */
    method FindDevice(id: Byte) returns (index: int)
      ensures index == FirstIndex(devices, id)
    {
      index := -1;
      var i := 0;
      while i < |devices|
        invariant 0 <= i <= |devices|
        invariant forall k :: 0 <= k < i ==> devices[k].id != id
      {
        if devices[i].id == id {
          index := i;
          assert FirstIndex(devices, id) == i;
          return;
        }
        i := i + 1;
      }
    }

    /** LocalDeviceExist as written: the index found, stored in an int8_t. */
    method LocalDeviceExist(id: Byte) returns (index: int)
      ensures index == Int8(FirstIndex(devices, id))
      ensures |devices| <= 128 ==> index == FirstIndex(devices, id)
    {
      var i := FindDevice(id);
      index := Int8(i);
    }

    /** DEVICES_UpdateInfo(id, mA, V), with the full-width index. */
    method UpdateInfo(id: Byte, mA: Word, volts: Word)
      requires Valid()
      modifies this
      ensures Valid()
      ensures devices == Update(old(devices), id, mA, volts)
    {
      var index := FindDevice(id);
      if index >= 0 {
        devices := devices[index := DeviceInfo(id, mA, volts)];
      } else {
        devices := devices + [DeviceInfo(id, mA, volts)];
      }
      UpdateKeepsDistinct(old(devices), id, mA, volts);
    }

    /** One turn of the pointer walk: the id byte, then the two memcpy'd floats. */
    static method PutRecord(p: array<Byte>, at: nat, d: DeviceInfo)
      requires at + RecordSize <= p.Length
      modifies p
      ensures p[..at] == old(p[..at]) && p[at..at + RecordSize] == Encode(d)
      ensures p[at + RecordSize..] == old(p[at + RecordSize..])
    {
      ghost var before := p[..at];
      ghost var after := p[at + RecordSize..];
      p[at] := d.id;
      assert p[at + RecordSize..] == after;
      assert p[..at + 1] == before + [d.id];
      CopyInto(p, at + 1, d.mA);
      ghost var head := p[..at + 5];
      assert head == before + [d.id] + d.mA by {
        assert head == p[..at + 1] + p[at + 1..at + 5];
      }
      CopyInto(p, at + 5, d.volts);
      assert p[..at + 5] == head;
      assert p[..at] == head[..at] == before;
      assert p[at..at + RecordSize] == head[at..] + p[at + 5..at + 9];
    }

    /** The `for` loop of dev_mng_task: records 0 .. count-1 walked into place
        after the count byte. */
    static method WriteRecords(p: array<Byte>, devs: seq<DeviceInfo>, count: nat)
      requires count <= |devs| && p.Length == 1 + RecordSize * |devs|
      modifies p
      ensures p[..1 + RecordSize * count] == [old(p[0])] + Serialize(devs[..count])
    {
      var ptr := 1;
      var i := 0;
      while i < count
        invariant 0 <= i <= count && ptr == 1 + RecordSize * i
        invariant p[..ptr] == [old(p[0])] + Serialize(devs[..i])
      {
        ghost var done := p[..ptr];
        PutRecord(p, ptr, devs[i]);
        SerializeSnoc(devs, i);
        assert p[..ptr + RecordSize] == done + Encode(devs[i]) by {
          assert p[..ptr + RecordSize] == p[..ptr] + p[ptr..ptr + RecordSize];
        }
        AppendAssoc([old(p[0])], Serialize(devs[..i]), Encode(devs[i]));
        ptr := ptr + RecordSize;
        i := i + 1;
      }
    }

    /** The packet of dev_mng_task: none while the table is empty; otherwise
        1 + 9 * size bytes, the count byte `(uint8_t)size`, and that many
        records walked into place with a pointer. */
    method BuildPacket() returns (packet: array?<Byte>)
      ensures devices == [] <==> packet == null
      ensures packet != null ==> fresh(packet) && packet.Length == 1 + RecordSize * |devices|
                                 && packet[..1 + RecordSize * (|devices| % 256)] == PacketPrefix(devices)
    {
      if |devices| == 0 {
        return null;
      }
      var size := |devices|;
      var p := new Byte[1 + RecordSize * size];
      p[0] := ToByte(size);
      var count := p[0] as nat;
      assert count == size % 256;
      WriteRecords(p, devices, count);
      assert devices[..count] == devices[..size % 256];
      packet := p;
    }
  }
}

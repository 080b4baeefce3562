/** Frames of the CU lock controller (wired_solution/nodejs/server.js and
    nodejs/cuLock.js): five bytes `0x02, addr, cmd, 0x03, checksum`, where the
    checksum is the 8-bit sum of the first four. Status replies are nine bytes
    starting `0x02, cu_id, 0x35`, carrying a 16-bit lock bitmask in bytes 3-4. */
module CuFrame {
  import opened Bytes

  const MessCuTemp: seq<int> := [0x02, 0x00, 0x30, 0x03, 0x35]
  const CmdStatus: int := 0x30
  const CmdOpen: int := 0x31
  const CmdStatusReply: Byte := 0x35
  /** Address of the only CU on the bus, as the gateway uses it. */
  const CuDeviceId: int := 0
  const ReplyLength: nat := 9

  /** The running sum of the `for ... of` loop of cuLockCheckSum / checkSum. */
  function SumFrom(acc: int, arr: seq<int>): (r: int)
    ensures r == acc + Sum(arr)
    decreases |arr|
  {
    if arr == [] then acc
    else
      SumCons(arr[0], arr[1..]);
      assert [arr[0]] + arr[1..] == arr;
      SumFrom(acc + arr[0], arr[1..])
  }

  /** cuLockCheckSum / checkSum: the sum of the numbers, `& 0xff`. */
  function CheckSum(arr: seq<int>): (r: int)
    ensures 0 <= r < 256
    ensures r == Sum(arr) % 256
  {
    SumFrom(0, arr) % 256
  }

  /** Bitwise OR of two non-negative numbers, bit by bit from the lowest. */
  function BitOr(a: nat, b: nat): nat
    decreases a + b
  {
    if a == 0 then b
    else if b == 0 then a
    else 2 * BitOr(a / 2, b / 2) + (if a % 2 == 1 || b % 2 == 1 then 1 else 0)
  }

  /** OR of a multiple of 2^k with a number below 2^k is their sum. */
  lemma {:induction false} BitOrDisjoint(m: nat, b: nat, k: nat)
    requires b < Pow2(k)
    ensures BitOr(m * Pow2(k), b) == m * Pow2(k) + b
    decreases k
  {
    var a := m * Pow2(k);
    if a != 0 && b != 0 {
      assert k > 0;
      var h := m * Pow2(k - 1);
      assert a == 2 * h;
      assert a / 2 == h && a % 2 == 0;
      BitOrDisjoint(m, b / 2, k - 1);
    }
  }

  /** JavaScript `(hi << 4) | lo` for the operands the builders pass: a nibble
      for `hi` and a byte value or -1 for `lo` (-1 has every bit set). */
  function ShiftOr(hi: int, lo: int): (r: int)
    requires 0 <= hi < 16 && -1 <= lo < 256
    ensures lo == -1 ==> r == -1
    ensures 0 <= lo < 16 ==> r == hi * 16 + lo
    ensures hi == 0 ==> r == lo
  {
    if lo == -1 then -1
    else
      BitOrDisjoint(hi, lo % 16, 4);
      BitOr(hi * 16, lo)
  }

  /** A copy of MESS_CU_TEMP with the address and command filled in, the
      checksum of the first four entries in the last one, stored by Buffer.from. */
  function Fill(addr: int, cmd: int): (f: seq<Byte>)
    ensures |f| == 5
    ensures f[0] == STX && f[1] == ToByte(addr) && f[2] == ToByte(cmd) && f[3] == ETX
    ensures f[4] as int == (STX as int + addr + cmd + ETX as int) % 256
  {
    var mess := FilledMess(addr, cmd);
    ToByteIs(mess[0], STX);
    ToByteIs(mess[3], ETX);
    ToByteKeeps(mess[4]);
    [ToByte(mess[0]), ToByte(mess[1]), ToByte(mess[2]), ToByte(mess[3]), ToByte(mess[4])]
  }

  /** The numbers of the filled-in copy of MessCuTemp, before Buffer.from. */
  function FilledMess(addr: int, cmd: int): (mess: seq<int>)
    ensures mess == [STX as int, addr, cmd, ETX as int, (STX as int + addr + cmd + ETX as int) % 256]
  {
    var mess := MessCuTemp[1 := addr][2 := cmd];
    assert mess[..4] == [STX as int, addr, cmd, ETX as int];
    SumOfFour(STX as int, addr, cmd, ETX as int);
    mess[4 := CheckSum(mess[..4])]
  }

  lemma SumOfFour(a: int, b: int, c: int, d: int)
    ensures Sum([a, b, c, d]) == a + b + c + d
  {
    assert [a][..0] == [];
    assert Sum([a]) == a;
    assert [a, b][..1] == [a];
    assert Sum([a, b]) == a + b;
    assert [a, b, c][..2] == [a, b];
    assert Sum([a, b, c]) == a + b + c;
    assert [a, b, c, d][..3] == [a, b, c];
  }

  /** Reducing the addends first does not change a sum modulo 256. */
  lemma ModSum(c: int, x: int, y: int)
    ensures (c + x % 256 + y % 256) % 256 == (c + x + y) % 256
  {
    var qx, qy := x / 256, y / 256;
    assert x == 256 * qx + x % 256;
    assert y == 256 * qy + y % 256;
    assert c + x + y == (c + x % 256 + y % 256) + 256 * (qx + qy);
  }

  /** The frame carries the checksum of its first four bytes. */
  predicate ChecksumOk(f: seq<Byte>)
  {
    |f| == 5 && f[4] as int == (f[0] as int + f[1] as int + f[2] as int + f[3] as int) % 256
  }

  lemma FillChecksumOk(addr: int, cmd: int)
    ensures ChecksumOk(Fill(addr, cmd))
  {
    var f := Fill(addr, cmd);
    assert f[1] as int == addr % 256 && f[2] as int == cmd % 256;
    ModSum(STX as int + ETX as int, addr, cmd);
  }

  /** Address and command below 256 are stored unchanged. */
  lemma FillInRange(addr: int, cmd: int)
    requires 0 <= addr < 256 && 0 <= cmd < 256
    ensures ChecksumOk(Fill(addr, cmd))
    ensures Fill(addr, cmd)[1] as int == addr && Fill(addr, cmd)[2] as int == cmd
  {
    FillChecksumOk(addr, cmd);
    ToByteKeeps(addr);
    ToByteKeeps(cmd);
  }

  /** buildCuLockGetStatusMessage(cu_id) of server.js: `[0x02, cu_id<<4, 0x30, 0x03, sum]`. */
  function StatusQuery(cuId: int): (f: seq<Byte>)
    requires 0 <= cuId < 16
    ensures |f| == 5 && ChecksumOk(f)
    ensures f[0] == STX && f[1] as int == cuId * 16 && f[2] as int == CmdStatus && f[3] == ETX
  {
    FillInRange(ShiftOr(cuId, 0), CmdStatus);
    Fill(ShiftOr(cuId, 0), CmdStatus)
  }

  /** buildMessage of nodejs/cuLock.js, with its module-level deviceId of 0. */
  function ToolStatusQuery(): (f: seq<Byte>)
    ensures f == StatusQuery(0)
  {
    Fill(ShiftOr(0, 0), CmdStatus)
  }

  /** The query for CU 0 is exactly the MESS_CU_TEMP template. */
  lemma StatusQueryIsTemplate()
    ensures ToolStatusQuery() == StatusQuery(CuDeviceId)
    ensures |MessCuTemp| == 5 && forall i :: 0 <= i < 5 ==> StatusQuery(CuDeviceId)[i] as int == MessCuTemp[i]
  {
    var f := StatusQuery(0);
    assert f[4] as int == 0x35;
  }

  /** buildCuLockOpenMessage(deviceId, lockId) of server.js:
      `[0x02, (deviceId<<4)|(lockId-1), 0x31, 0x03, sum]`, with lockId numbered from 1. */
  function ServerOpen(deviceId: int, lockId: int): (f: seq<Byte>)
    requires 0 <= deviceId < 16 && 0 <= lockId < 256
    ensures |f| == 5 && ChecksumOk(f)
    ensures f[0] == STX && f[2] as int == CmdOpen && f[3] == ETX
    ensures 1 <= lockId <= 16 ==> f[1] as int == deviceId * 16 + lockId - 1
    ensures lockId == 0 ==> f[1] == 0xFF
    ensures deviceId == 0 && lockId >= 1 ==> f[1] as int == lockId - 1
  {
    FillChecksumOk(ShiftOr(deviceId, lockId - 1), CmdOpen);
    ToByteKeeps(ShiftOr(deviceId, lockId - 1));
    Fill(ShiftOr(deviceId, lockId - 1), CmdOpen)
  }

  /** buildOpenLockMessage(deviceId, lockId) of nodejs/cuLock.js:
      `[0x02, (deviceId<<4)|lockId, 0x31, 0x03, sum]`, with lockId numbered from 0. */
  function ToolOpen(deviceId: int, lockId: int): (f: seq<Byte>)
    requires 0 <= deviceId < 16 && 0 <= lockId < 256
    ensures |f| == 5 && ChecksumOk(f)
    ensures f[0] == STX && f[2] as int == CmdOpen && f[3] == ETX
    ensures lockId < 16 ==> f[1] as int == deviceId * 16 + lockId
  {
    FillChecksumOk(ShiftOr(deviceId, lockId), CmdOpen);
    ToByteKeeps(ShiftOr(deviceId, lockId));
    Fill(ShiftOr(deviceId, lockId), CmdOpen)
  }

  /** The two files number locks differently: the gateway's lock n is the
      CU tool's lock n - 1. */
  lemma OpenNumbering(deviceId: int, lockId: int)
    requires 0 <= deviceId < 16 && 1 <= lockId < 256
    ensures ServerOpen(deviceId, lockId) == ToolOpen(deviceId, lockId - 1)
  {
  }

  /** Different locks of one CU get different open frames. */
  lemma OpenFramesDistinct(deviceId: int, a: int, b: int)
    requires 0 <= deviceId < 16 && 1 <= a <= 16 && 1 <= b <= 16 && a != b
    ensures ServerOpen(deviceId, a) != ServerOpen(deviceId, b)
  {
    assert ServerOpen(deviceId, a)[1] != ServerOpen(deviceId, b)[1];
  }

  // ---------------------------------------------------------------------
  // Status replies

  /** The window starts like a status reply of the gateway's CU. */
  predicate IsStatusReply(w: seq<Byte>)
  {
    |w| >= 3 && w[0] == STX && w[1] as int == CuDeviceId && w[2] == CmdStatusReply
  }

  /** `(frame[4] << 8) | frame[3]`: the lock bitmask of a reply. */
  function StatusWord(w: seq<Byte>): bv16
    requires |w| >= 5
  {
    BigEndian(w[4], w[3])
  }

  /** `((status >> dev_id) & 1) === 1` */
  function LockBit(status: bv16, i: nat): bool
    requires i < 16
  {
    (status >> i) & 1 == 1
  }

  function ByteBit(b: Byte, i: nat): bool
    requires i < 8
  {
    (b >> i) & 1 == 1
  }

  /** Locks 1-8 are the bits of byte 3, locks 9-16 the bits of byte 4. */
  lemma LockBitsOfReply(w: seq<Byte>, i: nat)
    requires |w| >= 5 && i < 16
    ensures i < 8 ==> LockBit(StatusWord(w), i) == ByteBit(w[3], i)
    ensures 8 <= i ==> LockBit(StatusWord(w), i) == ByteBit(w[4], i - 8)
  {
    LockBitSplit(w[4], w[3], i);
  }

  lemma LockBitSplit(hi: Byte, lo: Byte, i: nat)
    requires i < 16
    ensures i < 8 ==> LockBit(BigEndian(hi, lo), i) == ByteBit(lo, i)
    ensures 8 <= i ==> LockBit(BigEndian(hi, lo), i) == ByteBit(hi, i - 8)
  {
  }

  // ---------------------------------------------------------------------
  // The CU receive loop's window (`while (rxBuffer.length >= 9)`)

  /** One iteration: a status reply takes nine bytes, anything else one. */
  function CuStep(buf: seq<Byte>): (r: (Option<seq<Byte>>, seq<Byte>))
    requires |buf| >= ReplyLength
    ensures IsStatusReply(buf) ==> r == (Some(buf[..ReplyLength]), buf[ReplyLength..])
    ensures !IsStatusReply(buf) ==> r == (None, buf[1..])
  {
    if buf[0] == STX && buf[1] as int == CuDeviceId && buf[2] == CmdStatusReply then
      (Some(buf[..ReplyLength]), buf[ReplyLength..])
    else
      (None, buf[1..])
  }

  /** The whole loop: the status replies it accepts, in order, and what is left. */
  function CuScan(buf: seq<Byte>): (r: (seq<seq<Byte>>, seq<Byte>))
    ensures |r.1| < ReplyLength && |r.1| <= |buf|
    ensures r.1 == buf[|buf| - |r.1|..]
    ensures forall k :: 0 <= k < |r.0| ==> |r.0[k]| == ReplyLength && IsStatusReply(r.0[k])
    decreases |buf|
  {
    if |buf| < ReplyLength then ([], buf)
    else
      var (frame, rest) := CuStep(buf);
      var (frames, left) := CuScan(rest);
      match frame
      case Some(f) => ([f] + frames, left)
      case None => (frames, left)
  }

  /** The loop's first iteration, seen from the whole scan. */
  lemma CuScanStep(buf: seq<Byte>)
    requires |buf| >= ReplyLength
    ensures IsStatusReply(buf) ==> CuScan(buf) == ([buf[..ReplyLength]] + CuScan(buf[ReplyLength..]).0, CuScan(buf[ReplyLength..]).1)
    ensures !IsStatusReply(buf) ==> CuScan(buf) == CuScan(buf[1..])
  {
  }

  /** A reply at the head of `a` is still at the head of `a + b`. */
  lemma CuScanReplyExtends(a: seq<Byte>, b: seq<Byte>)
    requires |a| >= ReplyLength && IsStatusReply(a)
    ensures CuScan(a + b) == ([a[..ReplyLength]] + CuScan(a[ReplyLength..] + b).0, CuScan(a[ReplyLength..] + b).1)
  {
    var ab := a + b;
    assert ab[0] == a[0] && ab[1] == a[1] && ab[2] == a[2];
    SlicesOfAppend(a, b, 0, ReplyLength);
    CuScanStep(ab);
  }

  /** A byte `a` skips at its head is skipped in `a + b` too. */
  lemma CuScanSkipExtends(a: seq<Byte>, b: seq<Byte>)
    requires |a| >= ReplyLength && !IsStatusReply(a)
    ensures CuScan(a + b) == CuScan(a[1..] + b)
  {
    var ab := a + b;
    assert ab[0] == a[0] && ab[1] == a[1] && ab[2] == a[2];
    SlicesOfAppend(a, b, 1, 1);
    CuScanStep(ab);
  }

  /** The CU receive loop over a stream that arrives in two chunks gives the
      replies of the first chunk, then those of what it left followed by the
      second chunk, and leaves what the whole stream leaves. */
  lemma {:induction false} CuScanAppend(a: seq<Byte>, b: seq<Byte>)
    ensures CuScan(a + b).0 == CuScan(a).0 + CuScan(CuScan(a).1 + b).0
    ensures CuScan(a + b).1 == CuScan(CuScan(a).1 + b).1
    decreases |a|
  {
    if |a| < ReplyLength {
      assert CuScan(a) == ([], a);
      assert [] + CuScan(a + b).0 == CuScan(a + b).0;
    } else if IsStatusReply(a) {
      var head, tail := a[..ReplyLength], a[ReplyLength..];
      CuScanStep(a);
      CuScanReplyExtends(a, b);
      CuScanAppend(tail, b);
      var t := CuScan(tail);
      assert CuScan(a) == ([head] + t.0, t.1);
      AppendAssoc([head], t.0, CuScan(t.1 + b).0);
    } else {
      CuScanStep(a);
      CuScanSkipExtends(a, b);
      CuScanAppend(a[1..], b);
    }
  }

  /** Replies sent back to back, each starting with the header, all come out. */
  lemma {:induction false} CuScanReplies(ws: seq<seq<Byte>>)
    requires forall k :: 0 <= k < |ws| ==> |ws[k]| == ReplyLength && IsStatusReply(ws[k])
    ensures CuScan(Join(ws)) == (ws, [])
    decreases |ws|
  {
    if ws != [] {
      var buf := Join(ws);
      assert buf[..ReplyLength] == ws[0] && buf[ReplyLength..] == Join(ws[1..]);
      CuScanReplies(ws[1..]);
      assert [ws[0]] + ws[1..] == ws;
    }
  }

  /** Bytes in front that cannot start a reply are dropped one at a time. */
  lemma {:induction false} CuScanSkips(g: seq<Byte>, w: seq<Byte>)
    requires |w| == ReplyLength && IsStatusReply(w) && STX !in g
    ensures CuScan(g + w) == ([w], [])
    decreases |g|
  {
    if g == [] {
      CuScanReplies([w]);
      assert [w][1..] == [];
      assert Join([w]) == w;
      assert g + w == w;
    } else {
      assert (g + w)[1..] == g[1..] + w;
      assert (g + w)[0] == g[0];
      CuScanSkips(g[1..], w);
    }
  }
}

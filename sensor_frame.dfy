/** The sensor-link frame as the host builds, checks and slices it
    (wired_solution/nodejs/server.js and nodejs/serial.js):
      0x02, LEN, body..., CRC_hi, CRC_lo, 0x03
    where the CRC-16/MODBUS covers LEN and the body. */
module SensorFrame {
  import opened Bytes
  import opened Crc

  /** High and low byte of a 32-bit JavaScript CRC value: `(crc >> 8) & 0xFF`, `crc & 0xFF`. */
  function JsHi(crc: bv32): Byte { ((crc >> 8) & 0xFF) as Byte }
  function JsLo(crc: bv32): Byte { (crc & 0xFF) as Byte }

  /** `(crcHigh << 8) | crcLow` of validatePacket. */
  function RecvCrc(hi: Byte, lo: Byte): bv32
  {
    ((hi as bv32) << 8) | (lo as bv32)
  }

  lemma SplitJoin(c: bv32)
    requires c < 0x1_0000
    ensures RecvCrc(JsHi(c), JsLo(c)) == c
  {
  }

  lemma RecvCrcWidens(hi: Byte, lo: Byte)
    ensures RecvCrc(hi, lo) == BigEndian(hi, lo) as bv32
  {
  }

  // ---------------------------------------------------------------------
  // Building

  /** buildPacket(id, cmd, data): `[0x02, len, id, cmd, ...data, crc_h, crc_l, 0x03]` with
      len = 4 + data.length stored as a byte, and the CRC taken by crc16_modbus
      over `[len, id, cmd, ...data]`. */
  function BuildPacket(id: Byte, cmd: Byte, data: seq<Byte>): (p: seq<Byte>)
    ensures |p| == |data| + 7
    ensures p[0] == STX && p[|p| - 1] == ETX
    ensures p[1] as int == (4 + |data|) % 256 && p[2] == id && p[3] == cmd
    ensures p[4..4 + |data|] == data
  {
    var payload := [ToByte(4 + |data|), id, cmd] + data;
    var crc := JsCrc16Modbus(payload);
    [STX] + payload + [JsHi(crc), JsLo(crc), ETX]
  }

  // ---------------------------------------------------------------------
  // Validating

  /** What validatePacket decides about a candidate frame. A length that
      disagrees with the LEN byte is only logged, so it rides along on acceptance. */
  datatype Verdict = TooShort | BadDelimiters | CrcMismatch | Accepted(lengthMismatch: bool)

  /** The checks of validatePacket / validateSensorPacket, where the frame is
      expected to be LEN + `lenOffset` bytes long (3 in server.js, 5 in serial.js). */
  function Check(p: seq<Byte>, lenOffset: nat): Verdict
  {
    if |p| < 6 then TooShort
    else if p[0] != STX || p[|p| - 1] != ETX then BadDelimiters
    else if RecvCrc(p[|p| - 3], p[|p| - 2]) != JsCrc16(p[1..|p| - 3]) then CrcMismatch
    else Accepted(|p| != p[1] as int + lenOffset)
  }

  /** validatePacket and validateSensorPacket of server.js. */
  function ValidatePacket(p: seq<Byte>): bool
  {
    Check(p, 3).Accepted?
  }

  /** validatePacket of serial.js (length expected to be LEN + 5). */
  function LegacyValidatePacket(p: seq<Byte>): bool
  {
    Check(p, 5).Accepted?
  }

  /** A frame is well formed: delimiters in place and its last-but-one two bytes
      carry, high byte first, the CRC-16/MODBUS of everything between STX and them. */
  ghost predicate CrcFramed(p: seq<Byte>)
  {
    |p| >= 6 && p[0] == STX && p[|p| - 1] == ETX
    && BigEndian(p[|p| - 3], p[|p| - 2]) == Crc16(p[1..|p| - 3])
  }

  lemma WidenedInjective(b: bv16, c: bv16)
    ensures b as bv32 == c as bv32 ==> b == c
  {
  }

  lemma WidenedEqual(b: bv16, c: bv16)
    ensures (b as bv32 == c as bv32) == (b == c)
  {
    WidenedInjective(b, c);
  }

  lemma CrcCheckSound(hi: Byte, lo: Byte, body: seq<Byte>)
    ensures RecvCrc(hi, lo) == JsCrc16(body) ==> BigEndian(hi, lo) == Crc16(body)
  {
    JsCrc16IsCrc16(body);
    RecvCrcWidens(hi, lo);
    WidenedEqual(BigEndian(hi, lo), Crc16(body));
  }

  lemma CrcCheckComplete(hi: Byte, lo: Byte, body: seq<Byte>)
    ensures BigEndian(hi, lo) == Crc16(body) ==> RecvCrc(hi, lo) == JsCrc16(body)
  {
    JsCrc16IsCrc16(body);
    RecvCrcWidens(hi, lo);
  }

  /** The host's CRC comparison holds exactly when the received big-endian
      value is the CRC-16/MODBUS of the frame body. */
  lemma CrcCheckMeans(hi: Byte, lo: Byte, body: seq<Byte>)
    ensures RecvCrc(hi, lo) == JsCrc16(body) <==> BigEndian(hi, lo) == Crc16(body)
  {
    CrcCheckSound(hi, lo, body);
    CrcCheckComplete(hi, lo, body);
  }

  /** Both host validators accept exactly the CRC-framed candidates; the
      length check never rejects. */
  lemma ValidateMeans(p: seq<Byte>)
    ensures ValidatePacket(p) <==> CrcFramed(p)
    ensures LegacyValidatePacket(p) <==> CrcFramed(p)
  {
    if |p| >= 6 {
      CrcCheckMeans(p[|p| - 3], p[|p| - 2], p[1..|p| - 3]);
    }
  }

  /** A CRC-framed frame is accepted by either validator, with the length
      warning exactly when its size is not LEN + offset. */
  lemma CrcFramedAccepted(p: seq<Byte>, lenOffset: nat)
    requires CrcFramed(p)
    ensures Check(p, lenOffset) == Accepted(|p| != p[1] as int + lenOffset)
  {
    CrcCheckMeans(p[|p| - 3], p[|p| - 2], p[1..|p| - 3]);
  }

  /** Every frame buildPacket produces passes validatePacket of server.js; the
      length warning appears exactly when more than 251 data bytes made the LEN
      byte wrap. */
  lemma BuildValidates(id: Byte, cmd: Byte, data: seq<Byte>)
    ensures Check(BuildPacket(id, cmd, data), 3) == Accepted(|data| > 251)
  {
    BuildCrcMatches(id, cmd, data);
    LenWraps(|data|);
  }

  /** The CRC bytes buildPacket appends are the ones validatePacket recomputes. */
  lemma BuildCrcMatches(id: Byte, cmd: Byte, data: seq<Byte>)
    ensures var p := BuildPacket(id, cmd, data);
            RecvCrc(p[|p| - 3], p[|p| - 2]) == JsCrc16(p[1..|p| - 3])
  {
    var p := BuildPacket(id, cmd, data);
    var payload := [ToByte(4 + |data|), id, cmd] + data;
    assert p[1..|p| - 3] == payload;
    JsCrc16ModbusIsCrc16(payload);
    HostCrcsAgree(payload);
    SplitJoin(JsCrc16Modbus(payload));
    assert p[|p| - 3] == JsHi(JsCrc16Modbus(payload));
    assert p[|p| - 2] == JsLo(JsCrc16Modbus(payload));
  }

  /** LEN = (4 + n) mod 256 matches a frame of n + 7 bytes unless it wrapped. */
  lemma LenWraps(n: nat)
    ensures (n + 7 != (4 + n) % 256 + 3) == (n > 251)
  {
    if n > 251 {
      assert (4 + n) % 256 < 4 + n;
    }
  }

  /** serial.js checks the length against LEN + 5, which no buildPacket frame
      has; the frame is accepted anyway, with the warning. */
  lemma BuildValidatesLegacy(id: Byte, cmd: Byte, data: seq<Byte>)
    ensures Check(BuildPacket(id, cmd, data), 5) == Accepted(true)
  {
    BuildValidates(id, cmd, data);
  }

  // ---------------------------------------------------------------------
  // Slicing the receive buffer (the `while (recvBuffer.length >= 7)` loop)

  /** The loop's guard fails or finds no frame: fewer than 7 bytes, no STX, or
      no ETX after the first STX. */
  predicate Stops(buf: seq<Byte>)
  {
    |buf| < 7 || IndexOf(buf, STX, 0) == -1 || IndexOf(buf, ETX, IndexOf(buf, STX, 0) + 1) == -1
  }

  /** One iteration of the receive loop: the candidate runs from the first STX
      to the first ETX after it, and everything through that ETX is removed. */
  function Slice(buf: seq<Byte>): (r: Option<(seq<Byte>, seq<Byte>)>)
    ensures r.None? <==> Stops(buf)
    ensures r.Some? ==> |r.value.0| >= 2 && |r.value.0| + |r.value.1| <= |buf|
    ensures r.Some? ==>
              var k := |buf| - |r.value.0| - |r.value.1|;
              r.value.0 == buf[k..|buf| - |r.value.1|] && r.value.1 == buf[|buf| - |r.value.1|..]
              && STX !in buf[..k]
    ensures r.Some? ==> r.value.0[0] == STX && r.value.0[|r.value.0| - 1] == ETX
                        && ETX !in r.value.0[1..|r.value.0| - 1]
  {
    if |buf| < 7 then None
    else
      var stx := IndexOf(buf, STX, 0);
      if stx == -1 then None
      else
        var etx := IndexOf(buf, ETX, stx + 1);
        if etx == -1 then None
        else Some((buf[stx..etx + 1], buf[etx + 1..]))
  }

  /** Slice in terms of the two searches the loop makes. */
  lemma SliceAt(buf: seq<Byte>, stx: int, etx: int)
    requires |buf| >= 7 && stx == IndexOf(buf, STX, 0) && etx == IndexOf(buf, ETX, stx + 1)
    ensures stx == -1 || etx == -1 ==> Slice(buf).None?
    ensures stx != -1 && etx != -1 ==> 0 <= stx < etx < |buf| && Slice(buf) == Some((buf[stx..etx + 1], buf[etx + 1..]))
  {
  }

  /** The whole receive loop: the candidates it slices, in order, and the buffer it leaves. */
  function Drain(buf: seq<Byte>): (r: (seq<seq<Byte>>, seq<Byte>))
    decreases |buf|
  {
    match Slice(buf)
    case None => ([], buf)
    case Some((packet, rest)) =>
      var d := Drain(rest);
      ([packet] + d.0, d.1)
  }

  /** The loop ends with a buffer it cannot take a frame from, and that buffer
      is what is left of the input after the last frame. */
  lemma {:induction false} DrainLeaves(buf: seq<Byte>)
    ensures Stops(Drain(buf).1)
    ensures |Drain(buf).1| <= |buf| && Drain(buf).1 == buf[|buf| - |Drain(buf).1|..]
    decreases |buf|
  {
    match Slice(buf)
    case None =>
    case Some((packet, rest)) =>
      DrainLeaves(rest);
  }

  lemma DrainStep(buf: seq<Byte>, packet: seq<Byte>, rest: seq<Byte>)
    requires Slice(buf) == Some((packet, rest))
    ensures Drain(buf) == ([packet] + Drain(rest).0, Drain(rest).1)
  {
  }

  lemma DrainOne(buf: seq<Byte>, packet: seq<Byte>)
    requires Slice(buf) == Some((packet, []))
    ensures Drain(buf) == ([packet], [])
  {
    DrainStep(buf, packet, []);
    assert Drain([]) == ([], []);
    assert [packet] + [] == [packet];
  }

  /** Bytes arriving after a buffer the loop can cut do not change the cut:
      they only lengthen what is left. */
  lemma SliceExtends(a: seq<Byte>, b: seq<Byte>, packet: seq<Byte>, rest: seq<Byte>)
    requires Slice(a) == Some((packet, rest))
    ensures Slice(a + b) == Some((packet, rest + b))
  {
    var stx := IndexOf(a, STX, 0);
    var etx := IndexOf(a, ETX, stx + 1);
    SliceAt(a, stx, etx);
    SliceFoundExtends(a, b, stx, etx);
  }

  /** The searches that found a frame in `a` find the same one in `a + b`. */
  lemma SliceFoundExtends(a: seq<Byte>, b: seq<Byte>, stx: nat, etx: nat)
    requires stx < etx < |a| && |a| >= 7
    requires IndexOf(a, STX, 0) == stx && IndexOf(a, ETX, stx + 1) == etx
    ensures Slice(a + b) == Some((a[stx..etx + 1], a[etx + 1..] + b))
  {
    IndexOfExtends(a, b, STX, 0);
    IndexOfExtends(a, b, ETX, stx + 1);
    SlicesOfAppend(a, b, stx, etx + 1);
    SliceAt(a + b, stx, etx);
  }

  /** The receive loop over a stream that arrives in two chunks: the frames of
      the first chunk, then those of what it left followed by the second
      chunk, are the frames of the whole stream, and the same bytes are left. */
  lemma {:induction false} DrainAppend(a: seq<Byte>, b: seq<Byte>)
    ensures Drain(a + b).0 == Drain(a).0 + Drain(Drain(a).1 + b).0
    ensures Drain(a + b).1 == Drain(Drain(a).1 + b).1
    decreases |a|
  {
    match Slice(a)
    case None =>
      assert Drain(a) == ([], a);
      assert [] + Drain(a + b).0 == Drain(a + b).0;
    case Some((packet, rest)) =>
      DrainStep(a, packet, rest);
      DrainExtendsStep(a, b, packet, rest);
      DrainAppend(rest, b);
      var t := Drain(rest);
      AppendAssoc([packet], t.0, Drain(t.1 + b).0);
  }

  /** The first frame of `a` is also the first one taken from `a + b`. */
  lemma DrainExtendsStep(a: seq<Byte>, b: seq<Byte>, packet: seq<Byte>, rest: seq<Byte>)
    requires Slice(a) == Some((packet, rest))
    ensures Drain(a + b) == ([packet] + Drain(rest + b).0, Drain(rest + b).1)
  {
    SliceExtends(a, b, packet, rest);
    DrainStep(a + b, packet, rest + b);
  }

  /** A frame the slicer can cut out whole: STX first, ETX last, no ETX in
      between, and long enough for the loop's guard. */
  predicate Sliceable(f: seq<Byte>)
  {
    |f| >= 7 && f[0] == STX && f[|f| - 1] == ETX && ETX !in f[1..|f| - 1]
  }

  lemma HeadTail<T>(s: seq<T>)
    requires s != []
    ensures [s[0]] + s[1..] == s
  {
  }

  lemma SliceFront(g: seq<Byte>, f: seq<Byte>, rest: seq<Byte>)
    requires Sliceable(f) && STX !in g
    ensures Slice(g + f + rest) == Some((f, rest))
  {
    var buf := g + f + rest;
    assert forall k :: 0 <= k < |g| ==> buf[k] == g[k];
    IndexOfAt(buf, STX, 0, |g|);
    assert forall k :: |g| + 1 <= k < |g| + |f| - 1 ==> buf[k] == f[1..|f| - 1][k - |g| - 1];
    IndexOfAt(buf, ETX, |g| + 1, |g| + |f| - 1);
    assert buf[|g|..|g| + |f|] == f;
    assert buf[|g| + |f|..] == rest;
  }

  /** Feeding any number of sliceable frames back to back yields exactly those
      frames, in order, and empties the buffer. */
  lemma {:induction false} DrainFrames(fs: seq<seq<Byte>>)
    requires forall i :: 0 <= i < |fs| ==> Sliceable(fs[i])
    ensures Drain(Join(fs)) == (fs, [])
    decreases |fs|
  {
    if fs != [] {
      var tail := fs[1..];
      var t := Join(tail);
      assert Join(fs) == [] + fs[0] + t;
      SliceFront([], fs[0], t);
      DrainStep(Join(fs), fs[0], t);
      assert forall i :: 0 <= i < |tail| ==> tail[i] == fs[i + 1];
      DrainFrames(tail);
      HeadTail(fs);
    }
  }

  /** Noise without an STX in front of a frame is skipped and the frame recovered. */
  lemma DrainSkipsNoise(g: seq<Byte>, f: seq<Byte>)
    requires Sliceable(f) && STX !in g
    ensures Drain(g + f) == ([f], [])
  {
    SliceFront(g, f, []);
    assert g + f + [] == g + f;
    DrainOne(g + f, f);
  }

  /** A stray STX in front of a frame is taken as the frame's start: the
      candidate is the stray byte followed by the whole frame. */
  lemma DrainStrayStx(f: seq<Byte>)
    requires Sliceable(f)
    ensures Drain([STX] + f) == ([[STX] + f], [])
  {
    var buf := [STX] + f;
    IndexOfAt(buf, STX, 0, 0);
    forall k | 1 <= k < |buf| - 1
      ensures buf[k] != ETX
    {
      if k >= 2 {
        assert buf[k] == f[1..|f| - 1][k - 2];
      }
    }
    IndexOfAt(buf, ETX, 1, |buf| - 1);
    SliceAt(buf, 0, |buf| - 1);
    assert buf[0..|buf|] == buf && buf[|buf|..] == [];
    DrainOne(buf, buf);
  }

  /** The slicer cuts at the first 0x03 after the STX, even inside a frame. */
  lemma SliceCutsAtEtx(f: seq<Byte>, j: nat)
    requires 7 <= |f| && f[0] == STX && 0 < j < |f| && f[j] == ETX
    requires forall k :: 1 <= k < j ==> f[k] != ETX
    ensures Slice(f) == Some((f[..j + 1], f[j + 1..]))
  {
    IndexOfAt(f, STX, 0, 0);
    IndexOfAt(f, ETX, 1, j);
  }

  /** The response to a poll whose data is the single byte 0x03 is cut to its
      first five bytes, which validatePacket rejects as too short. */
  lemma EarlyEtxCutsFrame(id: Byte)
    requires id != ETX
    ensures var f := BuildPacket(id, 0, [ETX]);
            Slice(f) == Some((f[..5], f[5..])) && Check(f[..5], 3) == TooShort
  {
    var f := BuildPacket(id, 0, [ETX]);
    ByteInjective(f[1], 5);
    assert f[4] == f[4..5][0] == ETX;
    SliceCutsAtEtx(f, 4);
  }
}

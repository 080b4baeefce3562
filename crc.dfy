/** CRC-16/MODBUS as used on the sensor link (reflected polynomial 0xA001,
    initial register 0xFFFF, no final XOR), as described in section 6.2.2 of
    the Modbus over Serial Line Specification V1.02. Three implementations of
    the same checksum appear in the system: the host's crc16 and crc16_modbus
    (JavaScript, 32-bit bitwise arithmetic) and the firmware's
    LocalCalculateCrc16 (uint16_t arithmetic). */
module Crc {
  import opened Bytes

  const Poly: bv16 := 0xA001
  const Init: bv16 := 0xFFFF

  // ---------------------------------------------------------------------
  // Reference definition: the 16-bit register after each byte, last byte last.

  /** One shift of the reflected register. */
  function Shift(crc: bv16): bv16
  {
    if crc & 1 == 1 then (crc >> 1) ^ Poly else crc >> 1
  }

  /** `k` shifts of the register. */
  function Shifts(crc: bv16, k: nat): bv16
    decreases k
  {
    if k == 0 then crc else Shifts(Shift(crc), k - 1)
  }

  /** The register after absorbing one byte. */
  function Absorb(crc: bv16, b: Byte): bv16
  {
    Shifts(crc ^ (b as bv16), 8)
  }

  /** The register after absorbing all of `s`, starting from `crc`. */
  function Register(crc: bv16, s: seq<Byte>): bv16
    decreases |s|
  {
    if s == [] then crc else Absorb(Register(crc, s[..|s| - 1]), s[|s| - 1])
  }

  /** CRC-16/MODBUS of `s`. */
  function Crc16(s: seq<Byte>): bv16
  {
    Register(Init, s)
  }

  /** Absorbing a first byte and then the rest is absorbing the whole. */
  lemma {:induction false} RegisterCons(crc: bv16, b: Byte, t: seq<Byte>)
    ensures Register(Absorb(crc, b), t) == Register(crc, [b] + t)
    decreases |t|
  {
    if t == [] {
      assert [b] + t == [b];
      assert ([b] + t)[..0] == [];
    } else {
      var u := t[..|t| - 1];
      RegisterCons(crc, b, u);
      assert ([b] + t)[..|[b] + t| - 1] == [b] + u;
    }
  }

  /** The register after a concatenation continues from the register after the prefix. */
  lemma {:induction false} RegisterAppend(crc: bv16, s: seq<Byte>, t: seq<Byte>)
    ensures Register(crc, s + t) == Register(Register(crc, s), t)
    decreases |t|
  {
    if t == [] {
      assert s + t == s;
    } else {
      RegisterAppend(crc, s, t[..|t| - 1]);
      assert (s + t)[..|s + t| - 1] == s + t[..|t| - 1];
    }
  }

  lemma RegisterSnoc(crc: bv16, s: seq<Byte>, b: Byte)
    ensures Register(crc, s + [b]) == Absorb(Register(crc, s), b)
  {
    assert (s + [b])[..|s + [b]| - 1] == s;
  }

  /** The register after three bytes. */
  lemma Register3(crc: bv16, t: seq<Byte>)
    requires |t| == 3
    ensures Register(crc, t) == Absorb(Absorb(Absorb(crc, t[0]), t[1]), t[2])
  {
    RegisterSnoc(crc, [], t[0]);
    assert [] + [t[0]] == t[..1];
    RegisterSnoc(crc, t[..1], t[1]);
    assert t[..1] + [t[1]] == t[..2];
    RegisterSnoc(crc, t[..2], t[2]);
    assert t[..2] + [t[2]] == t;
  }

  /** "123" takes the register from 0xFFFF to 0x7A75. */
  lemma CheckFirst(t: seq<Byte>)
    requires |t| == 3 && t[0] == 0x31 && t[1] == 0x32 && t[2] == 0x33
    ensures Register(Init, t) == 0x7A75
  {
    Register3(Init, t);
    assert Absorb(0xFFFF, 0x31) == 0x947E;
    assert Absorb(0x947E, 0x32) == 0xF595;
    assert Absorb(0xF595, 0x33) == 0x7A75;
  }

  /** "456" takes the register from 0x7A75 to 0x32E4. */
  lemma CheckMiddle(t: seq<Byte>)
    requires |t| == 3 && t[0] == 0x34 && t[1] == 0x35 && t[2] == 0x36
    ensures Register(0x7A75, t) == 0x32E4
  {
    Register3(0x7A75, t);
    assert Absorb(0x7A75, 0x34) == 0x30BA;
    assert Absorb(0x30BA, 0x35) == 0xA471;
    assert Absorb(0xA471, 0x36) == 0x32E4;
  }

  /** "789" takes the register from 0x32E4 to 0x4B37. */
  lemma CheckLast(t: seq<Byte>)
    requires |t| == 3 && t[0] == 0x37 && t[1] == 0x38 && t[2] == 0x39
    ensures Register(0x32E4, t) == 0x4B37
  {
    Register3(0x32E4, t);
    assert Absorb(0x32E4, 0x37) == 0x9D73;
    assert Absorb(0x9D73, 0x38) == 0x37DD;
    assert Absorb(0x37DD, 0x39) == 0x4B37;
  }

  /** The standard check value of CRC-16/MODBUS: 0x4B37 for ASCII "123456789". */
  lemma CheckValue(s: seq<Byte>)
    requires |s| == 9 && s[0] == 0x31 && s[1] == 0x32 && s[2] == 0x33
    requires s[3] == 0x34 && s[4] == 0x35 && s[5] == 0x36
    requires s[6] == 0x37 && s[7] == 0x38 && s[8] == 0x39
    ensures Crc16(s) == 0x4B37
  {
    CheckFirst(s[..3]);
    RegisterSplit(Init, s, 3);
    var t := s[3..];
    CheckMiddle(t[..3]);
    RegisterSplit(0x7A75, t, 3);
    CheckLast(t[3..]);
  }

  /** The register over `s` continues from the register over its first `k` bytes. */
  lemma RegisterSplit(crc: bv16, s: seq<Byte>, k: nat)
    requires k <= |s|
    ensures Register(crc, s) == Register(Register(crc, s[..k]), s[k..])
  {
    RegisterAppend(crc, s[..k], s[k..]);
    assert s[..k] + s[k..] == s;
  }

  // ---------------------------------------------------------------------
  // The host's two JavaScript loops. JavaScript evaluates `^`, `&` and `>>`
  // on 32-bit integers, so their accumulator is a bv32; it never leaves
  // the low 16 bits, so `>>` (arithmetic) and a logical shift agree.

  /** One inner iteration of crc16: `crc = (crc >> 1) ^ 0xA001` or `crc >>= 1`. */
  function JsShift(crc: bv32): bv32
  {
    if crc & 1 != 0 then (crc >> 1) ^ 0xA001 else crc >> 1
  }

  /** One inner iteration of crc16_modbus: shift first, then xor when the old low bit was set. */
  function JsModbusShift(crc: bv32): bv32
  {
    var shifted := crc >> 1;
    if crc & 0x0001 != 0 then shifted ^ 0xA001 else shifted
  }

  function JsShifts(crc: bv32, k: nat, modbus: bool): bv32
    decreases k
  {
    if k == 0 then crc
    else JsShifts(if modbus then JsModbusShift(crc) else JsShift(crc), k - 1, modbus)
  }

  /** One outer iteration: `crc ^= b` followed by the eight inner iterations. */
  function JsAbsorb(crc: bv32, b: Byte, modbus: bool): bv32
  {
    JsShifts(crc ^ (b as bv32), 8, modbus)
  }

  /** The outer `for` loop of crc16 (modbus = false) or crc16_modbus (modbus = true). */
  function JsLoop(crc: bv32, buf: seq<Byte>, modbus: bool): bv32
    decreases |buf|
  {
    if buf == [] then crc
    else JsLoop(JsAbsorb(crc, buf[0], modbus), buf[1..], modbus)
  }

  /** crc16(buf) of the host (`return crc & 0xFFFF`). */
  function JsCrc16(buf: seq<Byte>): bv32
  {
    JsLoop(0xFFFF, buf, false) & 0xFFFF
  }

  /** crc16_modbus(buffer) of the host. */
  function JsCrc16Modbus(buf: seq<Byte>): bv32
  {
    JsLoop(0xFFFF, buf, true) & 0xFFFF
  }

  lemma {:induction false} JsShiftsAgree(crc: bv16, k: nat, modbus: bool)
    ensures JsShifts(crc as bv32, k, modbus) == Shifts(crc, k) as bv32
    decreases k
  {
    if k > 0 {
      assert JsShift(crc as bv32) == Shift(crc) as bv32;
      assert JsModbusShift(crc as bv32) == Shift(crc) as bv32;
      JsShiftsAgree(Shift(crc), k - 1, modbus);
    }
  }

  lemma JsShiftsAfterXor(crc: bv16, b: Byte, k: nat, modbus: bool)
    ensures JsShifts((crc as bv32) ^ (b as bv32), k, modbus) == Shifts(crc ^ (b as bv16), k) as bv32
  {
    WidenXor(crc, b);
    JsShiftsAgree(crc ^ (b as bv16), k, modbus);
  }

  lemma JsAbsorbAgrees(crc: bv16, b: Byte, modbus: bool)
    ensures JsAbsorb(crc as bv32, b, modbus) == Absorb(crc, b) as bv32
  {
    JsShiftsAfterXor(crc, b, 8, modbus);
  }

  lemma WidenXor(crc: bv16, b: Byte)
    ensures (crc as bv32) ^ (b as bv32) == (crc ^ (b as bv16)) as bv32
  {
  }

  lemma {:induction false} JsLoopAgrees(crc: bv16, buf: seq<Byte>, modbus: bool)
    ensures JsLoop(crc as bv32, buf, modbus) == Register(crc, buf) as bv32
    decreases |buf|
  {
    if buf != [] {
      JsAbsorbAgrees(crc, buf[0], modbus);
      JsLoopAgrees(Absorb(crc, buf[0]), buf[1..], modbus);
      RegisterCons(crc, buf[0], buf[1..]);
      assert [buf[0]] + buf[1..] == buf;
    }
  }

  lemma JsLoopFromInit(buf: seq<Byte>, modbus: bool)
    ensures JsLoop(0xFFFF, buf, modbus) == Crc16(buf) as bv32
  {
    JsLoopAgrees(Init, buf, modbus);
  }

  /** crc16 of the host computes CRC-16/MODBUS on every byte sequence; the
      32-bit accumulator never leaves the low 16 bits. */
  lemma JsCrc16IsCrc16(buf: seq<Byte>)
    ensures JsCrc16(buf) == Crc16(buf) as bv32
    ensures JsCrc16(buf) < 0x1_0000
  {
    JsLoopFromInit(buf, false);
    MaskKeeps(JsLoop(0xFFFF, buf, false), Crc16(buf));
  }

  /** crc16_modbus of the host computes CRC-16/MODBUS on every byte sequence. */
  lemma JsCrc16ModbusIsCrc16(buf: seq<Byte>)
    ensures JsCrc16Modbus(buf) == Crc16(buf) as bv32
    ensures JsCrc16Modbus(buf) < 0x1_0000
  {
    JsLoopFromInit(buf, true);
    MaskKeeps(JsLoop(0xFFFF, buf, true), Crc16(buf));
  }

  /** A widened 16-bit value is below 2^16 and masking it with 0xFFFF keeps it. */
  lemma MaskKeeps(x: bv32, y: bv16)
    requires x == y as bv32
    ensures x & 0xFFFF == y as bv32 && x & 0xFFFF < 0x1_0000
  {
  }

  /** The host's two CRC functions agree on every input. */
  lemma HostCrcsAgree(buf: seq<Byte>)
    ensures JsCrc16(buf) == JsCrc16Modbus(buf)
  {
    JsCrc16IsCrc16(buf);
    JsCrc16ModbusIsCrc16(buf);
  }

  // ---------------------------------------------------------------------
  // The firmware's LocalCalculateCrc16(&data[from], count), over a buffer.

  method CalculateCrc16(data: array<Byte>, from: nat, count: nat) returns (crc: bv16)
    requires from + count <= data.Length
    ensures crc == Crc16(data[from..from + count])
  {
    crc := 0xFFFF;
    var i := 0;
    while i < count
      invariant 0 <= i <= count
      invariant crc == Crc16(data[from..from + i])
    {
      crc := AbsorbByte(crc, data[from + i]);
      RegisterSnoc(Init, data[from..from + i], data[from + i]);
      assert data[from..from + i] + [data[from + i]] == data[from..from + i + 1];
      i := i + 1;
    }
  }

  /** The body of LocalCalculateCrc16's outer loop: XOR the byte in, then
      eight shifts. */
  method AbsorbByte(crc0: bv16, b: Byte) returns (crc: bv16)
    ensures crc == Absorb(crc0, b)
  {
    crc := crc0 ^ (b as bv16);
    ghost var start := crc;
    var j := 0;
    while j < 8
      invariant 0 <= j <= 8
      invariant crc == Shifts(start, j)
    {
      ShiftsSnoc(start, j);
      if crc & 0x0001 == 1 {
        crc := crc >> 1;
        crc := crc ^ 0xA001;
      } else {
        crc := crc >> 1;
      }
      j := j + 1;
    }
  }

  lemma {:induction false} ShiftsSnoc(crc: bv16, k: nat)
    ensures Shifts(crc, k + 1) == Shift(Shifts(crc, k))
    decreases k
  {
    if k > 0 {
      ShiftsSnoc(Shift(crc), k - 1);
    }
  }
}

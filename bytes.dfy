/** Byte-level vocabulary shared by the gateway and the sensor firmware. */
module Bytes {

  type Byte = bv8

  /** Four raw bytes of a little-endian IEEE-754 float, kept opaque. */
  type Word = w: seq<Byte> | |w| == 4 witness [0, 0, 0, 0]

  datatype Option<T> = None | Some(value: T)

  const STX: Byte := 0x02
  const ETX: Byte := 0x03

  function Min(a: int, b: int): int { if a < b then a else b }

  function Pow2(k: nat): (r: nat)
    ensures r >= 1
  {
    if k == 0 then 1 else 2 * Pow2(k - 1)
  }

  /** The frames of `ws` sent back to back. */
  function Join<T>(ws: seq<seq<T>>): seq<T>
  {
    if ws == [] then [] else ws[0] + Join(ws[1..])
  }

  /** Buffer.indexOf(b, from) of Node.js for a non-negative start: the first
      position at or after `from` that holds `b`, or -1 when there is none. */
  function IndexOf(s: seq<Byte>, b: Byte, from: nat): (r: int)
    ensures -1 <= r < |s|
    ensures r >= 0 ==> from <= r && s[r] == b
    ensures r >= 0 ==> forall k :: from <= k < r ==> s[k] != b
    ensures r == -1 <==> forall k :: from <= k < |s| ==> s[k] != b
    decreases |s| - from
  {
    if from >= |s| then -1
    else if s[from] == b then from
    else IndexOf(s, b, from + 1)
  }

  /** IndexOf finds a position exactly when the byte is there and nowhere
      between the start and that position. */
  lemma IndexOfAt(s: seq<Byte>, b: Byte, from: nat, i: nat)
    requires from <= i < |s| && s[i] == b
    requires forall k :: from <= k < i ==> s[k] != b
    ensures IndexOf(s, b, from) == i
  {
  }

  /** The byte whose value is `m`, counted up from zero. */
  function ByteOf(m: nat): (b: Byte)
    requires m < 256
    ensures b as int == m
  {
    if m == 0 then 0 else ByteOf(m - 1) + 1
  }

  /** Every byte is the one its value names. */
  lemma {:induction false} ByteOfValue(b: Byte)
    ensures ByteOf(b as int) == b
    decreases b as int
  {
    if b != 0 {
      ByteOfValue(b - 1);
    }
  }

  /** Two bytes with the same value are the same byte. */
  lemma ByteInjective(b: Byte, c: Byte)
    requires b as int == c as int
    ensures b == c
  {
    ByteOfValue(b);
    ByteOfValue(c);
  }

  /** A JavaScript number stored into a Buffer keeps its value modulo 256. */
  function ToByte(x: int): (b: Byte)
    ensures b as int == x % 256
  {
    var m := x % 256;
    assert ByteOf(m) as int == m;
    var b: Byte :| b as int == m;
    b
  }

  /** A number whose residue is the value of `b` is stored as `b`. */
  lemma ToByteIs(x: int, b: Byte)
    requires x % 256 == b as int
    ensures ToByte(x) == b
  {
    ByteInjective(ToByte(x), b);
  }

  lemma ToByteKeeps(x: int)
    ensures 0 <= x < 256 ==> ToByte(x) as int == x
    ensures x == -1 ==> ToByte(x) == 0xFF
  {
    if x == -1 {
      ToByteIs(x, 0xFF);
    }
  }

  /** High and low byte of a 16-bit value, as sent on the wire (high first). */
  function Hi(x: bv16): Byte { (x >> 8) as Byte }
  function Lo(x: bv16): Byte { (x & 0xFF) as Byte }

  /** A byte found in `s` is found at the same place in `s + t`. */
  lemma {:induction false} IndexOfExtends(s: seq<Byte>, t: seq<Byte>, b: Byte, from: nat)
    requires IndexOf(s, b, from) >= 0
    ensures IndexOf(s + t, b, from) == IndexOf(s, b, from)
    decreases |s| - from
  {
    assert (s + t)[from] == s[from];
    if s[from] != b {
      IndexOfExtends(s, t, b, from + 1);
    }
  }

  /** The big-endian 16-bit value of two received bytes. */
  function BigEndian(hi: Byte, lo: Byte): (r: bv16)
    ensures Hi(r) == hi && Lo(r) == lo
  {
    ((hi as bv16) << 8) | (lo as bv16)
  }

  lemma BigEndianOfHiLo(x: bv16)
    ensures BigEndian(Hi(x), Lo(x)) == x
  {
  }

  lemma AppendAssoc<T>(a: seq<T>, b: seq<T>, c: seq<T>)
    ensures a + (b + c) == (a + b) + c
  {
  }

  /** Slices of `a + b` that start inside `a`. */
  lemma SlicesOfAppend<T>(a: seq<T>, b: seq<T>, i: nat, j: nat)
    requires i <= j <= |a|
    ensures (a + b)[i..j] == a[i..j] && (a + b)[j..] == a[j..] + b
  {
  }

  /** memcpy of `src` into `dst` at offset `at`; nothing else in `dst` changes. */
  method CopyInto(dst: array<Byte>, at: nat, src: seq<Byte>)
    requires at + |src| <= dst.Length
    modifies dst
    ensures dst[..at] == old(dst[..at])
    ensures dst[at..at + |src|] == src
    ensures dst[at + |src|..] == old(dst[at + |src|..])
  {
    var i := 0;
    while i < |src|
      invariant 0 <= i <= |src|
      invariant dst[..at] == old(dst[..at])
      invariant dst[at..at + i] == src[..i]
      invariant dst[at + |src|..] == old(dst[at + |src|..])
    {
      dst[at + i] := src[i];
      i := i + 1;
    }
  }

  /** Sum of a sequence of (JavaScript) numbers. */
  function Sum(s: seq<int>): int
  {
    if s == [] then 0 else Sum(s[..|s| - 1]) + s[|s| - 1]
  }

  /** Adding a number in front adds it to the sum. */
  lemma {:induction false} SumCons(x: int, s: seq<int>)
    ensures Sum([x] + s) == x + Sum(s)
    decreases |s|
  {
    if s == [] {
      assert [x] + s == [x];
    } else {
      var t := [x] + s;
      assert t[..|t| - 1] == [x] + s[..|s| - 1];
      SumCons(x, s[..|s| - 1]);
    }
  }

  /** The byte values of a byte sequence, as plain numbers. */
  function Values(s: seq<Byte>): (r: seq<int>)
    ensures |r| == |s|
    ensures forall k :: 0 <= k < |s| ==> r[k] == s[k] as int
  {
    seq(|s|, k requires 0 <= k < |s| => s[k] as int)
  }
}

/** Bytes, big-endian fields and the exclusive-or used by both record layers. */
module Bytes {

  type byte = x: int | 0 <= x < 256
  type Bytes = seq<byte>

  // ----- big-endian fields -----

  function U16(n: nat): Bytes { [n / 256 % 256, n % 256] }

  function U24(n: nat): Bytes { [n / 0x1_0000 % 256] + U16(n) }

  function U32(n: nat): Bytes { U16(n / 0x1_0000) + U16(n) }

  function U64(n: nat): Bytes { U32(n / 0x1_0000_0000) + U32(n) }

  function ReadU16(b: Bytes, at: nat): nat
    requires at + 2 <= |b|
  {
    var hi: nat, lo: nat := b[at], b[at + 1];
    256 * hi + lo
  }

  function ReadU24(b: Bytes, at: nat): nat
    requires at + 3 <= |b|
  {
    var top: nat := b[at];
    0x1_0000 * top + ReadU16(b, at + 1)
  }

  function ReadU32(b: Bytes, at: nat): nat
    requires at + 4 <= |b|
  {
    0x1_0000 * ReadU16(b, at) + ReadU16(b, at + 2)
  }

  /** Three digits to base 256, the upper one of any size. */
  lemma Digits(top: nat, high: nat, low: nat)
    requires high < 256 && low < 256
    ensures var n := 0x1_0000 * top + 256 * high + low;
            n / 256 == 256 * top + high && n / 256 % 256 == high && n % 256 == low
            && n / 0x1_0000 == top && n % 0x1_0000 == 256 * high + low
  {
  }

  /** Every number is its low sixteen bits and the rest. */
  lemma Split16(n: nat) returns (top: nat, high: nat, low: nat)
    ensures high < 256 && low < 256 && n == 0x1_0000 * top + 256 * high + low
    ensures U16(n) == [high, low]
  {
    var q := n / 256;
    low := n % 256;
    top, high := q / 256, q % 256;
    assert n == 256 * q + low && q == 256 * top + high;
    Digits(top, high, low);
  }

  /** A 16-bit field keeps the low sixteen bits, so it reads back exactly the lengths that fit. */
  lemma U16Reads(n: nat)
    ensures ReadU16(U16(n), 0) == n % 0x1_0000
  {
    var top, high, low := Split16(n);
    Digits(top, high, low);
  }

  lemma U16Writes(b: Bytes)
    requires |b| == 2
    ensures U16(ReadU16(b, 0)) == b
  {
    var high: nat, low: nat := b[0], b[1];
    Digits(0, high, low);
  }

  lemma U24Reads(n: nat)
    requires n < 0x100_0000
    ensures ReadU24(U24(n), 0) == n
  {
    U16Reads(n);
    assert U24(n)[1] == U16(n)[0] && U24(n)[2] == U16(n)[1];
  }

  lemma U24Writes(b: Bytes)
    requires |b| == 3
    ensures U24(ReadU24(b, 0)) == b
  {
    var top: nat, high: nat, low: nat := b[0], b[1], b[2];
    Digits(top, high, low);
  }

  lemma U32Reads(n: nat)
    requires n < 0x1_0000_0000
    ensures ReadU32(U32(n), 0) == n
  {
    U16Reads(n);
    U16Reads(n / 0x1_0000);
  }

  lemma U32Writes(b: Bytes)
    requires |b| == 4
    ensures U32(ReadU32(b, 0)) == b
  {
    var high, low := ReadU16(b, 0), ReadU16(b, 2);
    U16Writes(b[..2]);
    U16Writes(b[2..]);
    assert ReadU16(b[2..], 0) == low && ReadU16(b[..2], 0) == high;
    var n := 0x1_0000 * high + low;
    assert n / 0x1_0000 == high && n % 0x1_0000 == low;
    U16Low(n);
  }

  /** Only the low sixteen bits are written. */
  lemma U16Low(n: nat)
    ensures U16(n) == U16(n % 0x1_0000)
  {
    var top, high, low := Split16(n);
    Digits(top, high, low);
    Digits(0, high, low);
  }

  /** Byte `i` of a number, counted from the least significant. */
  function Octet(n: nat, i: nat): byte
    decreases i
  {
    if i == 0 then n % 256 else Octet(n / 256, i - 1)
  }

  lemma OctetStep(n: nat, i: nat)
    ensures Octet(n, i + 1) == Octet(n / 256, i) && Octet(n, 0) == n % 256
  {
  }

  lemma Halved(n: nat)
    ensures n / 256 / 256 == n / 0x1_0000
  {
  }

  lemma PairIsOctets(n: nat)
    ensures U16(n) == [Octet(n, 1), Octet(n, 0)]
  {
    OctetStep(n, 0);
    OctetStep(n / 256, 0);
    hide Octet;
  }

  lemma {:induction false} OctetsAbove(n: nat, i: nat)
    ensures Octet(n, i + 2) == Octet(n / 0x1_0000, i)
  {
    Halved(n);
    OctetStep(n, i + 1);
    OctetStep(n / 256, i);
    hide Octet;
  }

  lemma WordIsOctets(n: nat)
    ensures U32(n) == [Octet(n, 3), Octet(n, 2), Octet(n, 1), Octet(n, 0)]
  {
    PairIsOctets(n);
    PairIsOctets(n / 0x1_0000);
    OctetsAbove(n, 0);
    OctetsAbove(n, 1);
    hide Octet; hide U16;
  }

  /** All fields have their most significant byte first. */
  lemma BigEndian(n: nat)
    ensures U16(n) == [Octet(n, 1), Octet(n, 0)]
    ensures U24(n) == [Octet(n, 2), Octet(n, 1), Octet(n, 0)]
    ensures U32(n) == [Octet(n, 3), Octet(n, 2), Octet(n, 1), Octet(n, 0)]
    ensures U64(n) == [Octet(n, 7), Octet(n, 6), Octet(n, 5), Octet(n, 4), Octet(n, 3), Octet(n, 2), Octet(n, 1), Octet(n, 0)]
  {
    PairIsOctets(n);
    WordIsOctets(n);
    OctetsAbove(n, 0);
    OctetStep(n / 0x1_0000, 0);
    LongIsOctets(n);
    hide Octet; hide U16; hide U32; hide U64;
  }

  lemma LongIsOctets(n: nat)
    ensures U64(n) == [Octet(n, 7), Octet(n, 6), Octet(n, 5), Octet(n, 4), Octet(n, 3), Octet(n, 2), Octet(n, 1), Octet(n, 0)]
  {
    WordIsOctets(n);
    UpperOctets(n);
    assert U64(n) == UpperWord(n) + U32(n);
    hide Octet; hide U32; hide UpperWord; hide U64;
      }

  function UpperWord(n: nat): Bytes { U32(n / 0x1_0000_0000) }

  lemma Quartered(n: nat)
    ensures n / 0x1_0000 / 0x1_0000 == n / 0x1_0000_0000
  {
  }

  lemma UpperOctets(n: nat)
    ensures UpperWord(n) == [Octet(n, 7), Octet(n, 6), Octet(n, 5), Octet(n, 4)]
  {
    var top := n / 0x1_0000 / 0x1_0000;
    Quartered(n);
    WordIsOctets(top);
    OctetsTwiceAbove(n, 0);
    OctetsTwiceAbove(n, 1);
    OctetsTwiceAbove(n, 2);
    OctetsTwiceAbove(n, 3);
    hide Octet; hide U32;
  }

  lemma OctetsTwiceAbove(n: nat, i: nat)
    ensures Octet(n, i + 4) == Octet(n / 0x1_0000 / 0x1_0000, i)
  {
    OctetsAbove(n, i + 2);
    OctetsAbove(n / 0x1_0000, i);
    hide Octet;
  }

  // ----- exclusive or -----

  function Pow2(n: nat): nat { if n == 0 then 1 else 2 * Pow2(n - 1) }

  function XorBits(a: nat, b: nat, width: nat): nat
  {
    if width == 0 then 0 else 2 * XorBits(a / 2, b / 2, width - 1) + (a + b) % 2
  }

  lemma {:induction false} XorBitsRange(a: nat, b: nat, width: nat)
    ensures XorBits(a, b, width) < Pow2(width)
  {
    if width > 0 {
      XorBitsRange(a / 2, b / 2, width - 1);
    }
  }

  /** A bit combined twice with the same bit is itself again. */
  lemma BitCancels(a: nat, k: nat, high: nat)
    ensures var x := 2 * high + (a + k) % 2; x / 2 == high && (x + k) % 2 == a % 2
  {
    var x := 2 * high + (a + k) % 2;
    assert (a + k) % 2 == (a % 2 + k % 2) % 2 && (x + k) % 2 == ((a + k) % 2 + k % 2) % 2;
    assert a % 2 == 0 || a % 2 == 1;
    assert k % 2 == 0 || k % 2 == 1;
  }

  lemma {:induction false} XorBitsCancel(a: nat, k: nat, width: nat)
    requires a < Pow2(width)
    ensures XorBits(XorBits(a, k, width), k, width) == a
  {
    if width > 0 {
      var high := XorBits(a / 2, k / 2, width - 1);
      BitCancels(a, k, high);
      XorBitsCancel(a / 2, k / 2, width - 1);
      XorUnfolds(a, k, width);
      XorUnfolds(XorBits(a, k, width), k, width);
      hide XorBits;
      assert a == 2 * (a / 2) + a % 2;
    }
  }

  lemma XorUnfolds(a: nat, k: nat, width: nat)
    requires width > 0
    ensures XorBits(a, k, width) == 2 * XorBits(a / 2, k / 2, width - 1) + (a + k) % 2
  {
  }

  function Xor(a: byte, b: byte): byte
  {
    XorBitsRange(a, b, 8);
    assert Pow2(8) == 256;
    XorBits(a, b, 8)
  }

  lemma XorTwice(a: byte, k: byte)
    ensures Xor(Xor(a, k), k) == a
  {
    assert Pow2(8) == 256;
    XorBitsCancel(a, k, 8);
  }

  /** Bit `i` of a number. */
  function Bit(n: nat, i: nat): nat
    decreases i
  {
    if i == 0 then n % 2 else Bit(n / 2, i - 1)
  }

  lemma {:induction false} XorBitsAt(a: nat, b: nat, width: nat, i: nat)
    requires i < width
    ensures Bit(XorBits(a, b, width), i) == (if Bit(a, i) == Bit(b, i) then 0 else 1) && Bit(a, i) < 2
    decreases width
  {
    var x, high := XorBits(a, b, width), XorBits(a / 2, b / 2, width - 1);
    BitCancels(a, b, high);
    assert x / 2 == high;
    if i > 0 {
      XorBitsAt(a / 2, b / 2, width - 1, i - 1);
    }
  }

  /** A bit of the result is set exactly when the two bits differ. */
  lemma XorIsBitwise(a: byte, b: byte, i: nat)
    requires i < 8
    ensures Bit(Xor(a, b), i) == if Bit(a, i) == Bit(b, i) then 0 else 1
  {
    XorBitsAt(a, b, 8, i);
  }

  lemma {:induction false} XorBitsZero(k: nat, width: nat)
    requires k < Pow2(width)
    ensures XorBits(0, k, width) == k
  {
    if width > 0 {
      XorBitsZero(k / 2, width - 1);
    }
  }

  lemma XorZero(k: byte)
    ensures Xor(0, k) == k
  {
    assert Pow2(8) == 256;
    XorBitsZero(k, 8);
  }

  function XorSeq(a: Bytes, b: Bytes): (r: Bytes)
    requires |a| == |b|
    ensures |r| == |a|
  {
    seq(|a|, i requires 0 <= i < |a| => Xor(a[i], b[i]))
  }

  // ----- concatenation -----

  function Repeat(b: byte, n: nat): (r: Bytes)
    ensures |r| == n
  {
    seq(n, _ => b)
  }

  function Flatten(parts: seq<Bytes>): Bytes
  {
    if parts == [] then [] else parts[0] + Flatten(parts[1..])
  }

  lemma {:induction false} FlattenAppend(xs: seq<Bytes>, ys: seq<Bytes>)
    ensures Flatten(xs + ys) == Flatten(xs) + Flatten(ys)
  {
    if xs == [] {
      assert xs + ys == ys;
    } else {
      FlattenAppend(xs[1..], ys);
      FlattenStep(xs + ys);
      FlattenStep(xs);
      hide Flatten;
      assert (xs + ys)[1..] == xs[1..] + ys && (xs + ys)[0] == xs[0];
      Regroup(xs[0], Flatten(xs[1..]), Flatten(ys));
    }
  }

  lemma FlattenStep(xs: seq<Bytes>)
    requires xs != []
    ensures Flatten(xs) == xs[0] + Flatten(xs[1..])
  {
  }

  lemma Regroup(a: Bytes, b: Bytes, c: Bytes)
    ensures a + b + c == a + (b + c)
  {
  }

  lemma FlattenOne(x: Bytes)
    ensures Flatten([x]) == x
  {
    assert Flatten([x]) == x + Flatten([]);
  }

  // ----- buffers -----

  /** Go's copy into a slice: the bytes before and behind stay. */
  method CopyInto(dst: array<byte>, at: nat, src: Bytes)
    requires at + |src| <= dst.Length
    modifies dst
    ensures dst[..at + |src|] == old(dst[..at]) + src && dst[at + |src|..] == old(dst[at + |src|..])
  {
    for i := 0 to |src|
      invariant dst[..at + i] == old(dst[..at]) + src[..i] && dst[at + i..] == old(dst[at + i..])
    {
      dst[at + i] := src[i];
    }
    assert src[..|src|] == src;
  }
}

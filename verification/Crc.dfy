/** The CRC32C that the accel-config test library compares the device against: slicing-by-8 tables, with the
    polynomial of RFC 3720, section 12.1. A machine word is the sequence of its bits, least significant first. */
module Crc {

  type Word = w: seq<bool> | |w| == 32 witness seq(32, _ => false)
  type Octet = w: seq<bool> | |w| == 8 witness seq(8, _ => false)

  function Xor(a: seq<bool>, b: seq<bool>): (r: seq<bool>)
    requires |a| == |b|
    ensures |r| == |a|
  {
    seq(|a|, i requires 0 <= i < |a| => a[i] != b[i])
  }

  function Or(a: seq<bool>, b: seq<bool>): (r: seq<bool>)
    requires |a| == |b|
    ensures |r| == |a|
  {
    seq(|a|, i requires 0 <= i < |a| => a[i] || b[i])
  }

  function Not(a: seq<bool>): (r: seq<bool>)
    ensures |r| == |a|
  {
    seq(|a|, i requires 0 <= i < |a| => !a[i])
  }

  function Shr(a: seq<bool>, k: nat): (r: seq<bool>)
    ensures |r| == |a|
  {
    seq(|a|, i requires 0 <= i < |a| => i + k < |a| && a[i + k])
  }

  function Shl(a: seq<bool>, k: nat): (r: seq<bool>)
    ensures |r| == |a|
  {
    seq(|a|, i requires 0 <= i < |a| => k <= i && a[i - k])
  }

  /** The bits from the other end. */
  function Mirror(a: seq<bool>): (r: seq<bool>)
    ensures |r| == |a|
  {
    seq(|a|, i requires 0 <= i < |a| => a[|a| - 1 - i])
  }

  /** The octet converted to a word. */
  function Extend(b: Octet): Word {
    b + seq(24, _ => false)
  }

  function Value(a: seq<bool>): (v: nat) {
    if a == [] then 0 else (if a[0] then 1 else 0) + 2 * Value(a[1..])
  }

  function FromNat(n: nat, width: nat): (r: seq<bool>)
    ensures |r| == width
  {
    if width == 0 then [] else [n % 2 == 1] + FromNat(n / 2, width - 1)
  }

  /** The nibble table of `reverse_u8`. */
  const NIBBLES: seq<nat> := [0x0, 0x8, 0x4, 0xC, 0x2, 0xA, 0x6, 0xE, 0x1, 0x9, 0x5, 0xD, 0x3, 0xB, 0x7, 0xF]

  function ReversedNibble(n: seq<bool>): (r: seq<bool>)
    requires |n| == 4
    ensures r == Mirror(n)
  {
    NibbleValue(n);
    FromNat(NIBBLES[Value(n)], 4)
  }

  function Digit(bit: bool): nat {
    if bit then 1 else 0
  }

  lemma ValueOfFour(n: seq<bool>)
    requires |n| == 4
    ensures Value(n) == Digit(n[0]) + 2 * Digit(n[1]) + 4 * Digit(n[2]) + 8 * Digit(n[3])
  {
    assert n[1..][1..] == n[2..] && n[2..][1..] == n[3..] && n[3..][1..] == [];
    assert Value(n[3..]) == Digit(n[3]);
    assert Value(n[2..]) == Digit(n[2]) + 2 * Digit(n[3]);
  }

  lemma NibbleValue(n: seq<bool>)
    requires |n| == 4
    ensures Value(n) < 16 && FromNat(NIBBLES[Value(n)], 4) == Mirror(n)
  {
    hide Value, FromNat;
    ValueOfFour(n);
    NibbleEntry(Digit(n[0]), Digit(n[1]), Digit(n[2]), Digit(n[3]));
    FourBits(NIBBLES[Value(n)]);
    Halves(Digit(n[3]), Digit(n[2]), Digit(n[1]), Digit(n[0]));
  }

  lemma NibbleEntry(d0: nat, d1: nat, d2: nat, d3: nat)
    requires d0 <= 1 && d1 <= 1 && d2 <= 1 && d3 <= 1
    ensures NIBBLES[d0 + 2 * d1 + 4 * d2 + 8 * d3] == d3 + 2 * d2 + 4 * d1 + 8 * d0
  {
  }

  lemma Halves(d0: nat, d1: nat, d2: nat, d3: nat)
    requires d0 <= 1 && d1 <= 1 && d2 <= 1 && d3 <= 1
    ensures var v := d0 + 2 * d1 + 4 * d2 + 8 * d3;
      v % 2 == d0 && v / 2 % 2 == d1 && v / 2 / 2 % 2 == d2 && v / 2 / 2 / 2 % 2 == d3
  {
    var v := d0 + 2 * d1 + 4 * d2 + 8 * d3;
    assert v / 2 == d1 + 2 * d2 + 4 * d3 && v / 2 / 2 == d2 + 2 * d3 && v / 2 / 2 / 2 == d3;
  }

  lemma FourBits(v: nat)
    ensures FromNat(v, 4) == [v % 2 == 1, v / 2 % 2 == 1, v / 2 / 2 % 2 == 1, v / 2 / 2 / 2 % 2 == 1]
  {
    assert FromNat(v / 2 / 2 / 2, 1) == [v / 2 / 2 / 2 % 2 == 1];
    assert FromNat(v / 2 / 2, 2) == [v / 2 / 2 % 2 == 1, v / 2 / 2 / 2 % 2 == 1];
    assert FromNat(v / 2, 3) == [v / 2 % 2 == 1, v / 2 / 2 % 2 == 1, v / 2 / 2 / 2 % 2 == 1];
  }

  function ReverseU8(x: Octet): (r: Octet)
    ensures r == Mirror(x)
  {
    ReversedNibble(x[4..]) + ReversedNibble(x[..4])
  }

  lemma ReversedByte(num: Word, i: nat)
    requires i < 4
    ensures forall j :: 0 <= j < 8 ==> ReverseU8(Shr(num, i * 8)[..8])[j] == num[8 * i + 7 - j]
  {
  }

  method Reverse(num: Word) returns (rev: Word)
    ensures rev == Mirror(num)
  {
    hide ReverseU8;
    rev := seq(32, _ => false);
    for i := 0 to 4
      invariant forall j :: 0 <= j < 32 ==> rev[j] == if i == 4 then num[31 - j] else 8 <= j < 8 * i + 8 && num[8 * i + 7 - j]
    {
      ReversedByte(num, i);
      var octet := ReverseU8(Shr(num, i * 8)[..8]);
      ghost var before := rev;
      rev := Or(rev, Extend(octet));
      assert forall j :: 0 <= j < 32 ==> rev[j] == if j < 8 then octet[j] else before[j];
      if i < 3 {
        rev := Shl(rev, 8);
      }
    }
  }

  // ---------------------------------------------------------------------------------------------
  // Reference: division by the generator polynomial, one bit at a time
  // ---------------------------------------------------------------------------------------------

  const POLYNOMIAL: Word := FromNat(0x1EDC6F41, 32)

  /** Shifts one message bit into the remainder, most significant coefficient first. */
  function DivideBit(rem: Word, bit: bool): Word {
    if rem[31] != bit then Xor(Shl(rem, 1), POLYNOMIAL) else Shl(rem, 1)
  }

  function Remainder(rem: Word, bits: seq<bool>): Word
    decreases |bits|
  {
    if bits == [] then rem else Remainder(DivideBit(rem, bits[0]), bits[1..])
  }

  lemma {:induction false} RemainderAppend(rem: Word, a: seq<bool>, b: seq<bool>)
    ensures Remainder(rem, a + b) == Remainder(Remainder(rem, a), b)
    decreases |a|
  {
    if a == [] {
      assert a + b == b;
    } else {
      assert (a + b)[1..] == a[1..] + b;
      RemainderAppend(DivideBit(rem, a[0]), a[1..], b);
    }
  }

  /** The message: bytes in order, each least significant bit first unless data reflection is bypassed. */
  function Bits(data: seq<Octet>, bypassDataRef: bool): seq<bool>
    decreases |data|
  {
    if data == [] then []
    else (if bypassDataRef then Mirror(data[0]) else data[0]) + Bits(data[1..], bypassDataRef)
  }

  /** CRC32C of a message with each combination of flags. */
  function Crc32(data: seq<Octet>, seed: Word, bypassInvRef: bool, bypassDataRef: bool): Word {
    var bits := Bits(data, bypassDataRef);
    if bypassInvRef then Remainder(seed, bits) else Not(Mirror(Remainder(Mirror(Not(seed)), bits)))
  }

  lemma {:induction false} BitsAppend(a: seq<Octet>, b: seq<Octet>, bypassDataRef: bool)
    ensures Bits(a + b, bypassDataRef) == Bits(a, bypassDataRef) + Bits(b, bypassDataRef)
    decreases |a|
  {
    if a == [] {
      assert a + b == b;
    } else {
      assert (a + b)[1..] == a[1..] + b;
      BitsAppend(a[1..], b, bypassDataRef);
    }
  }

  lemma MirrorNotTwice(a: Word)
    ensures Mirror(Mirror(a)) == a && Not(Not(a)) == a
  {
  }

  /** For every flag set the checksum of a concatenation continues from the checksum of its first part. */
  lemma CrcContinues(a: seq<Octet>, b: seq<Octet>, seed: Word, bypassInvRef: bool, bypassDataRef: bool)
    ensures Crc32(a + b, seed, bypassInvRef, bypassDataRef)
      == Crc32(b, Crc32(a, seed, bypassInvRef, bypassDataRef), bypassInvRef, bypassDataRef)
  {
    hide Mirror, Not, Remainder, Bits;
    BitsAppend(a, b, bypassDataRef);
    var start := if bypassInvRef then seed else Mirror(Not(seed));
    var middle := Remainder(start, Bits(a, bypassDataRef));
    RemainderAppend(start, Bits(a, bypassDataRef), Bits(b, bypassDataRef));
    MirrorNotTwice(middle);
    MirrorNotTwice(Mirror(middle));
  }

  function AllReversed(data: seq<Octet>): (r: seq<Octet>)
    ensures |r| == |data| && forall i :: 0 <= i < |data| ==> r[i] == ReverseU8(data[i])
    decreases |data|
  {
    if data == [] then [] else [ReverseU8(data[0])] + AllReversed(data[1..])
  }

  /** Bypassing data reflection is the same as running on bit-reversed bytes. */
  lemma {:induction false} BypassIsReversal(data: seq<Octet>, seed: Word, bypassInvRef: bool)
    ensures Bits(data, true) == Bits(AllReversed(data), false)
    ensures Crc32(data, seed, bypassInvRef, true) == Crc32(AllReversed(data), seed, bypassInvRef, false)
    decreases |data|
  {
    hide Mirror, Remainder;
    if data != [] {
      BypassIsReversal(data[1..], seed, bypassInvRef);
      assert AllReversed(data)[1..] == AllReversed(data[1..]);
    }
  }

  // ---------------------------------------------------------------------------------------------
  // What tells the flag settings, the bit orders and the polynomial apart
  // ---------------------------------------------------------------------------------------------

  lemma DivideXor(x: Word, y: Word, b: bool, c: bool)
    ensures DivideBit(Xor(x, y), b != c) == Xor(DivideBit(x, b), DivideBit(y, c))
  {
    hide FromNat;
    assert Xor(x, y)[31] == (x[31] != y[31]);
  }

  lemma {:induction false} RemainderXor(x: Word, y: Word, a: seq<bool>, b: seq<bool>)
    requires |a| == |b|
    ensures Remainder(Xor(x, y), Xor(a, b)) == Xor(Remainder(x, a), Remainder(y, b))
    decreases |a|
  {
    hide DivideBit;
    if a != [] {
      DivideXor(x, y, a[0], b[0]);
      assert Xor(a, b)[1..] == Xor(a[1..], b[1..]) && Xor(a, b)[0] == (a[0] != b[0]);
      RemainderXor(DivideBit(x, a[0]), DivideBit(y, b[0]), a[1..], b[1..]);
    }
  }

  function XorAll(a: seq<Octet>, b: seq<Octet>): (r: seq<Octet>)
    requires |a| == |b|
    ensures |r| == |a|
  {
    seq(|a|, i requires 0 <= i < |a| => Xor(a[i], b[i]))
  }

  lemma {:induction false} BitsXor(a: seq<Octet>, b: seq<Octet>, bypassDataRef: bool)
    requires |a| == |b|
    ensures |Bits(a, bypassDataRef)| == |Bits(b, bypassDataRef)|
    ensures Bits(XorAll(a, b), bypassDataRef) == Xor(Bits(a, bypassDataRef), Bits(b, bypassDataRef))
    decreases |a|
  {
    hide Xor, Mirror;
    if a != [] {
      BitsXor(a[1..], b[1..], bypassDataRef);
      assert XorAll(a, b)[1..] == XorAll(a[1..], b[1..]) && XorAll(a, b)[0] == Xor(a[0], b[0]);
      XorParts(a[0], b[0], Bits(a[1..], bypassDataRef), Bits(b[1..], bypassDataRef));
    } else {
      XorNothing();
    }
  }

  lemma XorNothing()
    ensures Xor([], []) == []
  {
  }

  lemma XorParts(a: Octet, b: Octet, c: seq<bool>, d: seq<bool>)
    requires |c| == |d|
    ensures Mirror(Xor(a, b)) == Xor(Mirror(a), Mirror(b))
    ensures Xor(a + c, b + d) == Xor(a, b) + Xor(c, d)
    ensures Xor(Mirror(a) + c, Mirror(b) + d) == Xor(Mirror(a), Mirror(b)) + Xor(c, d)
  {
  }

  /** Without inversion the checksum is linear over exclusive or, in data and seed together. */
  lemma CrcIsLinear(a: seq<Octet>, b: seq<Octet>, s: Word, t: Word, bypassDataRef: bool)
    requires |a| == |b|
    ensures Crc32(XorAll(a, b), Xor(s, t), true, bypassDataRef)
      == Xor(Crc32(a, s, true, bypassDataRef), Crc32(b, t, true, bypassDataRef))
  {
    BitsXor(a, b, bypassDataRef);
    RemainderXor(s, t, Bits(a, bypassDataRef), Bits(b, bypassDataRef));
  }

  lemma {:induction false} ZeroBitsLeaveZero(bits: seq<bool>)
    requires forall i :: 0 <= i < |bits| ==> !bits[i]
    ensures var zero: Word := seq(32, _ => false); Remainder(zero, bits) == zero
    decreases |bits|
  {
    var zero: Word := seq(32, _ => false);
    if bits != [] {
      assert Shl(zero, 1) == zero;
      ZeroBitsLeaveZero(bits[1..]);
    }
  }

  /** A single set bit at the end of the message leaves the polynomial. */
  lemma LastBitLeavesPolynomial(zeros: seq<bool>)
    requires forall i :: 0 <= i < |zeros| ==> !zeros[i]
    ensures var zero: Word := seq(32, _ => false); Remainder(zero, zeros + [true]) == POLYNOMIAL
  {
    hide FromNat;
    var zero: Word := seq(32, _ => false);
    RemainderAppend(zero, zeros, [true]);
    ZeroBitsLeaveZero(zeros);
    OneBit(zero);
    assert Xor(Shl(zero, 1), POLYNOMIAL) == POLYNOMIAL;
  }

  lemma OneBit(rem: Word)
    ensures Remainder(rem, [true]) == DivideBit(rem, true)
  {
    hide DivideBit;
    assert [true][1..] == [];
  }

  function Nibble(d: nat): (r: seq<bool>)
    ensures |r| == 4
  {
    [d % 2 == 1, d / 2 % 2 == 1, d / 4 % 2 == 1, d / 8 % 2 == 1]
  }

  /** The word with the hexadecimal digits `d7`..`d0`. */
  function Hex(d7: nat, d6: nat, d5: nat, d4: nat, d3: nat, d2: nat, d1: nat, d0: nat): Word {
    Half(d3, d2, d1, d0) + Half(d7, d6, d5, d4)
  }

  function Half(d3: nat, d2: nat, d1: nat, d0: nat): (r: seq<bool>)
    ensures |r| == 16
  {
    Nibble(d0) + Nibble(d1) + Nibble(d2) + Nibble(d3)
  }

  lemma BitSplit(n: nat, width: nat)
    requires width >= 1
    ensures FromNat(n, width) == [n % 2 == 1] + FromNat(n / 2, width - 1)
  {
  }

  lemma Quarters(n: nat, d: nat)
    requires d < 16
    ensures var v := n * 16 + d;
      && v % 2 == d % 2 && v / 2 % 2 == d / 2 % 2 && v / 2 / 2 % 2 == d / 4 % 2 && v / 2 / 2 / 2 % 2 == d / 8 % 2
      && v / 2 / 2 / 2 / 2 == n
  {
    var v := n * 16 + d;
    assert v / 2 == 8 * n + d / 2;
    assert v / 2 / 2 == 4 * n + d / 4;
    assert v / 2 / 2 / 2 == 2 * n + d / 8;
  }

  lemma NibbleSplit(n: nat, d: nat, width: nat)
    requires width >= 4 && d < 16
    ensures FromNat(n * 16 + d, width) == Nibble(d) + FromNat(n, width - 4)
  {
    hide FromNat;
    var v := n * 16 + d;
    Quarters(n, d);
    BitSplit(v, width);
    BitSplit(v / 2, width - 1);
    BitSplit(v / 2 / 2, width - 2);
    BitSplit(v / 2 / 2 / 2, width - 3);
  }

  lemma Digits(d7: nat, d6: nat, d5: nat, d4: nat, d3: nat, d2: nat, d1: nat, d0: nat)
    requires d7 < 16 && d6 < 16 && d5 < 16 && d4 < 16 && d3 < 16 && d2 < 16 && d1 < 16 && d0 < 16
    ensures FromNat(((((((d7 * 16 + d6) * 16 + d5) * 16 + d4) * 16 + d3) * 16 + d2) * 16 + d1) * 16 + d0, 32)
      == Hex(d7, d6, d5, d4, d3, d2, d1, d0)
  {
    hide FromNat, Nibble;
    assert Hex(d7, d6, d5, d4, d3, d2, d1, d0)
        == Nibble(d0) + (Nibble(d1) + (Nibble(d2) + (Nibble(d3) + (Nibble(d4) + (Nibble(d5) + (Nibble(d6) + Nibble(d7)))))));
    var n6 := d7 * 16 + d6;
    var n5 := n6 * 16 + d5;
    var n4 := n5 * 16 + d4;
    var n3 := n4 * 16 + d3;
    var n2 := n3 * 16 + d2;
    var n1 := n2 * 16 + d1;
    NibbleSplit(n1, d0, 32);
    NibbleSplit(n2, d1, 28);
    NibbleSplit(n3, d2, 24);
    NibbleSplit(n4, d3, 20);
    NibbleSplit(n5, d4, 16);
    NibbleSplit(n6, d5, 12);
    NibbleSplit(d7, d6, 8);
    NibbleSplit(0, d7, 4);
    NoBits(0);
  }

  lemma NoBits(n: nat)
    ensures FromNat(n, 0) == []
  {
  }

  lemma MirrorHex(d7: nat, d6: nat, d5: nat, d4: nat, d3: nat, d2: nat, d1: nat, d0: nat)
    requires d7 < 16 && d6 < 16 && d5 < 16 && d4 < 16 && d3 < 16 && d2 < 16 && d1 < 16 && d0 < 16
    ensures Mirror(Hex(d7, d6, d5, d4, d3, d2, d1, d0))
      == Hex(NIBBLES[d0], NIBBLES[d1], NIBBLES[d2], NIBBLES[d3], NIBBLES[d4], NIBBLES[d5], NIBBLES[d6], NIBBLES[d7])
    ensures Not(Hex(d7, d6, d5, d4, d3, d2, d1, d0)) == Hex(15 - d7, 15 - d6, 15 - d5, 15 - d4, 15 - d3, 15 - d2, 15 - d1, 15 - d0)
  {
    hide Half, Mirror, Not, NIBBLES;
    MirrorHalf(d3, d2, d1, d0);
    MirrorHalf(d7, d6, d5, d4);
    MirrorAppend(Half(d3, d2, d1, d0), Half(d7, d6, d5, d4));
  }

  lemma MirrorAppend(a: seq<bool>, b: seq<bool>)
    ensures Mirror(a + b) == Mirror(b) + Mirror(a) && Not(a + b) == Not(a) + Not(b)
  {
  }

  lemma MirrorHalf(d3: nat, d2: nat, d1: nat, d0: nat)
    requires d3 < 16 && d2 < 16 && d1 < 16 && d0 < 16
    ensures Mirror(Half(d3, d2, d1, d0)) == Half(NIBBLES[d0], NIBBLES[d1], NIBBLES[d2], NIBBLES[d3])
    ensures Not(Half(d3, d2, d1, d0)) == Half(15 - d3, 15 - d2, 15 - d1, 15 - d0)
  {
    hide Nibble, Mirror, Not;
    var a, b, c, d := Nibble(d0), Nibble(d1), Nibble(d2), Nibble(d3);
    MirrorAppend(a + b + c, d);
    MirrorAppend(a + b, c);
    MirrorAppend(a, b);
    NibbleMirror(d0);
    NibbleMirror(d1);
    NibbleMirror(d2);
    NibbleMirror(d3);
    assert Mirror(a + b + c + d) == Mirror(d) + Mirror(c) + Mirror(b) + Mirror(a);
  }

  lemma NibbleMirror(d: nat)
    requires d < 16
    ensures Mirror(Nibble(d)) == Nibble(NIBBLES[d]) && Not(Nibble(d)) == Nibble(15 - d)
  {
    hide Value, FromNat, Mirror, Nibble;
    NibbleBits(d);
    NibbleValue(Nibble(d));
    NibbleIs(NIBBLES[d]);
    NibbleNot(d);
  }

  lemma NibbleIs(v: nat)
    ensures FromNat(v, 4) == Nibble(v)
  {
    hide FromNat;
    FourBits(v);
    HalvedTwice(v);
    HalvedTwice(v / 2);
  }

  lemma HalvedTwice(v: nat)
    ensures v / 2 / 2 == v / 4 && v / 2 / 4 == v / 8
  {
  }

  lemma NibbleBits(d: nat)
    requires d < 16
    ensures Value(Nibble(d)) == d
  {
    hide Value;
    ValueOfFour(Nibble(d));
    BitsOfDigit(d);
  }

  lemma BitsOfDigit(d: nat)
    requires d < 16
    ensures d == d % 2 + 2 * (d / 2 % 2) + 4 * (d / 4 % 2) + 8 * (d / 8 % 2)
  {
    assert d / 2 == d / 2 % 2 + 2 * (d / 4);
    assert d / 4 == d / 4 % 2 + 2 * (d / 8);
  }

  lemma NibbleNot(d: nat)
    requires d < 16
    ensures Not(Nibble(d)) == Nibble(15 - d)
  {
    BitsOfDigit(d);
    Halves(1 - d % 2, 1 - d / 2 % 2, 1 - d / 4 % 2, 1 - d / 8 % 2);
  }

  /** The polynomial from the other end, as the tables have it. */
  lemma MirroredPolynomial()
    ensures Mirror(POLYNOMIAL) == FromNat(0x82F63B78, 32)
    ensures Not(Mirror(POLYNOMIAL)) == FromNat(0x7D09C487, 32)
  {
    hide FromNat, Mirror, Not, Hex;
    Digits(0x1, 0xE, 0xD, 0xC, 0x6, 0xF, 0x4, 0x1);
    Digits(0x8, 0x2, 0xF, 0x6, 0x3, 0xB, 0x7, 0x8);
    Digits(0x7, 0xD, 0x0, 0x9, 0xC, 0x4, 0x8, 0x7);
    MirrorHex(0x1, 0xE, 0xD, 0xC, 0x6, 0xF, 0x4, 0x1);
    MirrorHex(0x8, 0x2, 0xF, 0x6, 0x3, 0xB, 0x7, 0x8);
  }

  lemma OneByteBits(b: Octet, bypassDataRef: bool)
    ensures Bits([b], bypassDataRef) == if bypassDataRef then Mirror(b) else b
  {
    hide Mirror;
    assert [b][1..] == [];
    assert Bits([], bypassDataRef) == [];
  }

  /** Check values for every flag set: the byte 0x80, or 0x01 where data reflection is bypassed, after a seed that
      starts the register at zero. */
  lemma CheckValues()
    ensures var low, high: Octet := [true] + seq(7, _ => false), seq(7, _ => false) + [true];
      var zero: Word := seq(32, _ => false);
      && Crc32([high], Not(zero), false, false) == FromNat(0x7D09C487, 32)
      && Crc32([low], Not(zero), false, true) == FromNat(0x7D09C487, 32)
      && Crc32([high], zero, true, false) == FromNat(0x1EDC6F41, 32)
      && Crc32([low], zero, true, true) == FromNat(0x1EDC6F41, 32)
  {
    hide FromNat, Remainder;
    var low, high: Octet := [true] + seq(7, _ => false), seq(7, _ => false) + [true];
    var zero: Word := seq(32, _ => false);
    MirroredPolynomial();
    assert Mirror(low) == high && Mirror(Not(Not(zero))) == zero;
    OneByteBits(high, false);
    OneByteBits(low, true);
    LastBitLeavesPolynomial(seq(7, _ => false));
  }

  /** The entry 128 of row 0 in the table, as it is printed in the source. */
  lemma TableEntry()
    ensures var high: Octet := seq(7, _ => false) + [true];
      Lookup(0, high) == FromNat(0x82F63B78, 32)
  {
    hide FromNat;
    var high: Octet := seq(7, _ => false) + [true];
    MirroredPolynomial();
    var x := Extend(high);
    StepsAdd(7, 1, x);
    StepsOverZeros(7, x);
    var y := Shr(x, 7);
    assert Steps(1, y) == Step(y);
    assert Xor(Shr(y, 1), Mirror(POLYNOMIAL)) == Mirror(POLYNOMIAL);
  }

  // ---------------------------------------------------------------------------------------------
  // The reflected register
  // ---------------------------------------------------------------------------------------------

  function Step(crc: Word): Word {
    if crc[0] then Xor(Shr(crc, 1), Mirror(POLYNOMIAL)) else Shr(crc, 1)
  }

  function Steps(k: nat, crc: Word): Word {
    if k == 0 then crc else Steps(k - 1, Step(crc))
  }

  lemma StepXor(x: Word, y: Word)
    ensures Step(Xor(x, y)) == Xor(Step(x), Step(y))
  {
    hide FromNat, Mirror;
  }

  lemma {:induction false} StepsXor(k: nat, x: Word, y: Word)
    ensures Steps(k, Xor(x, y)) == Xor(Steps(k, x), Steps(k, y))
  {
    hide Step, Xor;
    if k > 0 {
      StepXor(x, y);
      StepsXor(k - 1, Step(x), Step(y));
    }
  }

  lemma {:induction false} StepsAdd(j: nat, k: nat, x: Word)
    ensures Steps(j + k, x) == Steps(k, Steps(j, x))
  {
    hide Step;
    if j > 0 {
      StepsAdd(j - 1, k, Step(x));
    }
  }

  /** Steps over low zero bits only shift. */
  lemma {:induction false} StepsOverZeros(k: nat, x: Word)
    requires k <= 32 && forall i :: 0 <= i < k ==> !x[i]
    ensures Steps(k, x) == Shr(x, k)
  {
    if k == 0 {
      assert Shr(x, 0) == x;
    } else {
      StepsOverZeros(k - 1, Shr(x, 1));
      assert Shr(Shr(x, 1), k - 1) == Shr(x, k);
    }
  }

  /** The bytes above the lowest are only shifted down by eight steps. */
  lemma EightSteps(x: Word)
    ensures Steps(8, x) == Xor(Shr(x, 8), Steps(8, Extend(x[..8])))
  {
    hide Step, Steps;
    var high: Word := seq(32, i requires 0 <= i < 32 => 8 <= i && x[i]);
    assert x == Xor(high, Extend(x[..8]));
    StepsXor(8, high, Extend(x[..8]));
    StepsOverZeros(8, high);
    assert Shr(high, 8) == Shr(x, 8);
  }

  /** One bit of data, still followed by others, enters the register. */
  lemma ReflectedBit(rem: Word, d: Word)
    ensures Step(Xor(Mirror(rem), d)) == Xor(Mirror(DivideBit(rem, d[0])), Shr(d, 1))
  {
    hide FromNat;
    ShiftMirrored(rem, d, POLYNOMIAL);
    XorSwap(Shr(Mirror(rem), 1), Shr(d, 1), Mirror(POLYNOMIAL));
    assert Xor(Mirror(rem), d)[0] == (rem[31] != d[0]);
  }

  lemma ShiftMirrored(rem: Word, d: Word, p: Word)
    ensures Shr(Xor(Mirror(rem), d), 1) == Xor(Shr(Mirror(rem), 1), Shr(d, 1))
    ensures Mirror(Shl(rem, 1)) == Shr(Mirror(rem), 1)
    ensures Mirror(Xor(Shl(rem, 1), p)) == Xor(Shr(Mirror(rem), 1), Mirror(p))
  {
  }

  /** As many steps as there are data bits divide by the polynomial bit by bit. */
  lemma {:induction false} ReflectedBits(rem: Word, bits: seq<bool>, d: Word)
    requires |bits| <= 32 && d == bits + seq(32 - |bits|, _ => false)
    ensures Steps(|bits|, Xor(Mirror(rem), d)) == Mirror(Remainder(rem, bits))
    decreases |bits|
  {
    if bits == [] {
      assert Xor(Mirror(rem), d) == Mirror(rem);
    } else {
      ReflectedBit(rem, d);
      ReflectedBits(DivideBit(rem, bits[0]), bits[1..], Shr(d, 1));
    }
  }

  /** The register after a whole message, byte by byte. */
  function Register(crc: Word, data: seq<Octet>): Word
    decreases |data|
  {
    if data == [] then crc
    else Steps(8, Xor(Register(crc, data[..|data| - 1]), Extend(data[|data| - 1])))
  }

  lemma {:induction false} RegisterIsRemainder(rem: Word, data: seq<Octet>)
    ensures Register(Mirror(rem), data) == Mirror(Remainder(rem, Bits(data, false)))
    decreases |data|
  {
    hide Mirror, Steps, DivideBit, Xor;
    if data != [] {
      var front, last := data[..|data| - 1], data[|data| - 1];
      RegisterIsRemainder(rem, front);
      assert data == front + [last];
      BitsAppend(front, [last], false);
      assert Bits([last], false) == last;
      RemainderAppend(rem, Bits(front, false), last);
      ReflectedBits(Remainder(rem, Bits(front, false)), last, Extend(last));
    }
  }

  // ---------------------------------------------------------------------------------------------
  // Slicing by eight
  // ---------------------------------------------------------------------------------------------

  /** Row `k` of the lookup table, by its recurrence. */
  function Lookup(k: nat, i: Octet): Word {
    if k == 0 then Steps(8, Extend(i))
    else Xor(Shr(Lookup(k - 1, i), 8), Lookup(0, Lookup(k - 1, i)[..8]))
  }

  lemma {:induction false} LookupIsSteps(k: nat, i: Octet)
    ensures Lookup(k, i) == Steps(8 * k + 8, Extend(i))
  {
    hide Steps, Xor, Shr, Extend;
    if k > 0 {
      LookupIsSteps(k - 1, i);
      EightSteps(Lookup(k - 1, i));
      StepsAdd(8 * k, 8, Extend(i));
    }
  }

  lemma PeelByte(k: nat, x: Word)
    ensures Steps(k + 8, x) == Xor(Steps(k, Shr(x, 8)), Steps(k + 8, Extend(x[..8])))
  {
    hide Steps, Xor, Shr, Extend;
    StepsAdd(8, k, x);
    StepsAdd(8, k, Extend(x[..8]));
    EightSteps(x);
    StepsXor(k, Shr(x, 8), Steps(8, Extend(x[..8])));
  }

  function Xor4(a: Word, b: Word, c: Word, d: Word): Word {
    Xor(Xor(Xor(a, b), c), d)
  }

  /** A word followed by `8 * k` more steps is four table entries. */
  lemma WordIsFourLookups(k: nat, x: Word)
    ensures Steps(8 * k + 32, x)
      == Xor4(Lookup(k + 3, x[..8]), Lookup(k + 2, x[8..16]), Lookup(k + 1, x[16..24]), Lookup(k, x[24..]))
  {
    hide Steps, Lookup;
    PeelByte(8 * k + 24, x);
    PeelByte(8 * k + 16, Shr(x, 8));
    PeelByte(8 * k + 8, Shr(x, 16));
    LookupIsSteps(k + 3, x[..8]);
    LookupIsSteps(k + 2, x[8..16]);
    LookupIsSteps(k + 1, x[16..24]);
    LookupIsSteps(k, x[24..]);
    assert Shr(Shr(x, 8), 8) == Shr(x, 16) && Shr(Shr(x, 16), 8) == Shr(x, 24) == Extend(x[24..]);
    assert Shr(x, 8)[..8] == x[8..16] && Shr(x, 16)[..8] == x[16..24];
    XorReorder(Lookup(k + 3, x[..8]), Lookup(k + 2, x[8..16]), Lookup(k + 1, x[16..24]), Lookup(k, x[24..]));
  }

  lemma XorReorder(a: Word, b: Word, c: Word, d: Word)
    ensures Xor(Xor(Xor(d, c), b), a) == Xor4(a, b, c, d)
  {
  }

  /** The little-endian word at `data[i]`. */
  function WordAt(data: seq<Octet>, i: nat): Word
    requires i + 4 <= |data|
  {
    var low: seq<bool> := data[i];
    low + data[i + 1] + data[i + 2] + data[i + 3]
  }

  lemma ByteThenRest(crc: Word, w: Word)
    ensures Steps(8, Xor(crc, w)) == Xor(Steps(8, Xor(crc, Extend(w[..8]))), Shr(w, 8))
  {
    hide Steps;
    var low := Xor(crc, Extend(w[..8]));
    EightSteps(Xor(crc, w));
    EightSteps(low);
    assert Xor(crc, w)[..8] == low[..8];
    assert Shr(Xor(crc, w), 8) == Xor(Shr(low, 8), Shr(w, 8));
    XorSwap(Shr(low, 8), Shr(w, 8), Steps(8, Extend(low[..8])));
  }

  lemma XorSwap(a: Word, b: Word, c: Word)
    ensures Xor(Xor(a, b), c) == Xor(Xor(a, c), b)
  {
  }

  lemma RegisterByte(crc: Word, data: seq<Octet>, i: nat)
    requires i < |data|
    ensures Register(crc, data[..i + 1]) == Steps(8, Xor(Register(crc, data[..i]), Extend(data[i])))
  {
    hide Steps, Xor, Extend;
    assert data[..i + 1][..i] == data[..i];
  }

  lemma WordBytes(a: Octet, b: Octet, c: Octet, d: Octet)
    ensures var w: Word := a + b + c + d;
      && w[..8] == a && Shr(w, 8)[..8] == b && Shr(Shr(w, 8), 8)[..8] == c
      && Shr(Shr(Shr(w, 8), 8), 8) == Extend(d)
  {
  }

  /** Four byte steps are one 32-bit step on the little-endian word. */
  lemma RegisterWord(crc: Word, data: seq<Octet>, i: nat)
    requires i + 4 <= |data|
    ensures Register(crc, data[..i + 4]) == Steps(32, Xor(Register(crc, data[..i]), WordAt(data, i)))
  {
    hide Steps, Xor, Shr, Extend, Register;
    var w, c := WordAt(data, i), Register(crc, data[..i]);
    WordBytes(data[i], data[i + 1], data[i + 2], data[i + 3]);
    RegisterByte(crc, data, i);
    RegisterByte(crc, data, i + 1);
    RegisterByte(crc, data, i + 2);
    RegisterByte(crc, data, i + 3);
    var c1, c2, c3 := Register(crc, data[..i + 1]), Register(crc, data[..i + 2]), Register(crc, data[..i + 3]);
    ByteThenRest(c, w);
    ByteThenRest(c1, Shr(w, 8));
    ByteThenRest(c2, Shr(Shr(w, 8), 8));
    StepsAdd(8, 24, Xor(c, w));
    StepsAdd(8, 16, Xor(c1, Shr(w, 8)));
    StepsAdd(8, 8, Xor(c2, Shr(Shr(w, 8), 8)));
  }

  /** The eight-byte step of the loop: eight table entries. */
  function EightBytes(one: Word, two: Word): Word {
    Xor(Xor(Xor(Xor(Xor4(Lookup(7, one[..8]), Lookup(6, one[8..16]), Lookup(5, one[16..24]), Lookup(4, one[24..])),
                    Lookup(3, two[..8])), Lookup(2, two[8..16])), Lookup(1, two[16..24])), Lookup(0, two[24..]))
  }

  lemma XorGroup(a: Word, b: Word, c: Word, d: Word, e: Word)
    ensures Xor(a, Xor4(b, c, d, e)) == Xor(Xor(Xor(Xor(a, b), c), d), e)
  {
  }

  lemma RegisterEightBytes(crc: Word, data: seq<Octet>, i: nat)
    requires i + 8 <= |data|
    ensures Register(crc, data[..i + 8])
      == EightBytes(Xor(WordAt(data, i), Register(crc, data[..i])), WordAt(data, i + 4))
  {
    hide Steps, Xor, Register, Lookup, Xor4, WordAt;
    var c, w0, w1 := Register(crc, data[..i]), WordAt(data, i), WordAt(data, i + 4);
    var one := Xor(w0, c);
    RegisterWord(crc, data, i);
    RegisterWord(crc, data, i + 4);
    XorCommutes(c, w0);
    StepsXor(32, Steps(32, one), w1);
    StepsAdd(32, 32, one);
    WordIsFourLookups(4, one);
    WordIsFourLookups(0, w1);
    XorGroup(Steps(64, one), Lookup(3, w1[..8]), Lookup(2, w1[8..16]), Lookup(1, w1[16..24]), Lookup(0, w1[24..]));
  }

  lemma XorCommutes(a: Word, b: Word)
    ensures Xor(a, b) == Xor(b, a)
  {
  }

  lemma TableByte(crc: Word, b: Octet)
    ensures Xor(Shr(crc, 8), Lookup(0, Xor(crc[..8], b))) == Steps(8, Xor(crc, Extend(b)))
    ensures Xor(Lookup(0, Xor(crc, Extend(b))[..8]), Shr(crc, 8)) == Steps(8, Xor(crc, Extend(b)))
  {
    hide Steps;
    var x := Xor(crc, Extend(b));
    EightSteps(x);
    assert Shr(x, 8) == Shr(crc, 8) && x[..8] == Xor(crc[..8], b);
    XorCommutes(Shr(crc, 8), Lookup(0, x[..8]));
  }

  /** The table-driven loops for reflected data: eight bytes at a time, then one at a time. */
  method SlicedLoop(data: seq<Octet>, start: Word) returns (crc: Word)
    ensures crc == Register(start, data)
  {
    hide Lookup, Register, Xor, Shr, WordAt, Steps, EightBytes, Xor4;
    crc := start;
    var i := 0;
    assert data[..0] == [];
    RegisterNothing(start);
    while |data| - i >= 8
      invariant 0 <= i <= |data|
      invariant crc == Register(start, data[..i])
    {
      RegisterEightBytes(start, data, i);
      var one := Xor(WordAt(data, i), crc);
      var two := WordAt(data, i + 4);
      crc := EightBytes(one, two);
      i := i + 8;
    }
    while i < |data|
      invariant 0 <= i <= |data|
      invariant crc == Register(start, data[..i])
    {
      RegisterByte(start, data, i);
      TableByte(crc, data[i]);
      crc := Xor(Shr(crc, 8), Lookup(0, Xor(crc[..8], data[i])));
      i := i + 1;
    }
    assert data[..i] == data;
  }

  /** The loop for bypassed data reflection. */
  method BypassLoop(data: seq<Octet>, start: Word) returns (crc: Word)
    ensures crc == Register(start, AllReversed(data))
  {
    hide Lookup, Register, Xor, Shr, Steps, ReverseU8, AllReversed;
    crc := start;
    ghost var message := AllReversed(data);
    assert message[..0] == [];
    RegisterNothing(start);
    for i := 0 to |data|
      invariant crc == Register(start, message[..i])
    {
      RegisterByte(start, message, i);
      TableByte(crc, ReverseU8(data[i]));
      crc := Xor(Lookup(0, Xor(crc, Extend(ReverseU8(data[i])))[..8]), Shr(crc, 8));
    }
    assert message[..|data|] == message;
  }

  /** The library's CRC32C. */
  method DsaCalculateCrc32(data: seq<Octet>, seed: Word, bypassInvRef: bool, bypassDataRef: bool) returns (r: Word)
    ensures r == Crc32(data, seed, bypassInvRef, bypassDataRef)
  {
    hide Register, Remainder, Mirror, Not, Bits;
    var crc: Word;
    if bypassInvRef {
      crc := Reverse(seed);
    } else {
      crc := Not(seed);
    }
    ghost var rem := if bypassInvRef then seed else Mirror(Not(seed));
    MirrorNotTwice(Not(seed));
    if !bypassDataRef {
      crc := SlicedLoop(data, crc);
      RegisterIsRemainder(rem, data);
    } else {
      crc := BypassLoop(data, crc);
      BypassIsReversal(data, seed, bypassInvRef);
      RegisterIsRemainder(rem, AllReversed(data));
    }
    ghost var end := Remainder(rem, Bits(data, bypassDataRef));
    MirrorNotTwice(end);
    if bypassInvRef {
      r := Reverse(crc);
    } else {
      r := Not(crc);
    }
  }

  lemma RegisterNothing(crc: Word)
    ensures Register(crc, []) == crc
  {
  }
}

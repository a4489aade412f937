/**
 The register form of the digest is long division: the remainder of the message, followed by 32
 zero bits and with its first 32 bits complemented, divided by the Castagnoli polynomial.
 */
module Crc32cDivision {
  import opened Bytes
  import opened Crc32cTable
  import opened Crc32c

  /** The Castagnoli polynomial 0x11EDC6F41 without its top term x^32, highest power first. */
  const POLY: bv32 := 0x1EDC6F41

  const ALL_ONES: bv32 := 0xFFFF_FFFF

  // --- the specification: schoolbook division of a bit string

  /** The partial remainder times x: when a term x^32 appears, subtract the divisor. */
  function TimesX(r: bv32): bv32 {
    (r << 1) ^ (if r & 0x8000_0000 == 0x8000_0000 then POLY else 0)
  }

  /** Bring down the bits of the dividend one by one, highest power first. */
  function Divide(r: bv32, bits: seq<bool>): bv32
    decreases |bits|
  {
    if bits == [] then r else Divide(Xor(TimesX(r), Bit(bits[0])), bits[1..])
  }

  function Remainder(dividend: seq<bool>): bv32 {
    Divide(0, dividend)
  }

  /** `Repeat`, in the form in which division takes it apart. */
  function Copies(b: bool, n: nat): (r: seq<bool>)
    ensures |r| == n && forall i :: 0 <= i < n ==> r[i] == b
  {
    if n == 0 then [] else [b] + Copies(b, n - 1)
  }

  /** The message bits, then 32 zeros; the first 32 bits of all that are complemented. */
  function Dividend(bits: seq<bool>): (r: seq<bool>)
    ensures |r| == |bits| + 32
  {
    var s := bits + Copies(false, 32);
    seq(|s|, i requires 0 <= i < |s| => if i < 32 then !s[i] else s[i])
  }

  /** The same 32 bits in the opposite order. */
  function Reverse(x: bv32): bv32 {
    var a := ((x >> 1) & 0x5555_5555) | ((x & 0x5555_5555) << 1);
    var b := ((a >> 2) & 0x3333_3333) | ((a & 0x3333_3333) << 2);
    var c := ((b >> 4) & 0x0F0F_0F0F) | ((b & 0x0F0F_0F0F) << 4);
    var d := ((c >> 8) & 0x00FF_00FF) | ((c & 0x00FF_00FF) << 8);
    (d >> 16) | (d << 16)
  }

  // --- division is linear over GF(2)

  lemma TimesXLinear(a: bv32, b: bv32)
    ensures TimesX(Xor(a, b)) == Xor(TimesX(a), TimesX(b))
  {
    hide TimesX;
    assert a & 0x8000_0000 == 0 || a & 0x8000_0000 == 0x8000_0000;
    assert b & 0x8000_0000 == 0 || b & 0x8000_0000 == 0x8000_0000;
    if a & 0x8000_0000 == 0 {
      if b & 0x8000_0000 == 0 {
        BothLow(a, b);
      } else {
        HighLow(b, a);
      }
    } else if b & 0x8000_0000 == 0 {
      HighLow(a, b);
    } else {
      BothHigh(a, b);
    }
  }

  lemma BothLow(a: bv32, b: bv32)
    requires a & 0x8000_0000 == 0 && b & 0x8000_0000 == 0
    ensures TimesX(a ^ b) == TimesX(a) ^ TimesX(b)
  {}

  lemma HighLow(a: bv32, b: bv32)
    requires a & 0x8000_0000 == 0x8000_0000 && b & 0x8000_0000 == 0
    ensures TimesX(a ^ b) == TimesX(a) ^ TimesX(b) && TimesX(b ^ a) == TimesX(b) ^ TimesX(a)
  {}

  lemma BothHigh(a: bv32, b: bv32)
    requires a & 0x8000_0000 == 0x8000_0000 && b & 0x8000_0000 == 0x8000_0000
    ensures TimesX(a ^ b) == TimesX(a) ^ TimesX(b)
  {}

  lemma Xor4(a: bv32, b: bv32, c: bv32, d: bv32)
    ensures Xor(Xor(a, b), Xor(c, d)) == Xor(Xor(a, c), Xor(b, d))
  {
    hide Xor;
    XorAssociative(a, b, Xor(c, d));
    XorAssociative(b, c, d);
    XorCommutes(b, c);
    XorAssociative(c, b, d);
    XorAssociative(a, c, Xor(b, d));
  }

  lemma XorCommutes(a: bv32, b: bv32)
    ensures Xor(a, b) == Xor(b, a)
  {}

  lemma XorZero(a: bv32)
    ensures Xor(a, 0) == a && Xor(0, a) == a
  {}

  lemma BitXor(b: bool, c: bool)
    ensures Bit(b != c) == Xor(Bit(b), Bit(c))
  {}

  lemma {:induction false} DivideLinear(r: bv32, s: bv32, a: seq<bool>, b: seq<bool>, ab: seq<bool>)
    requires |a| == |b| == |ab| && forall i :: 0 <= i < |a| ==> ab[i] == (a[i] != b[i])
    ensures Divide(Xor(r, s), ab) == Xor(Divide(r, a), Divide(s, b))
    decreases |a|
  {
    hide TimesX, Xor, Bit;
    if a != [] {
      TimesXLinear(r, s);
      BitXor(a[0], b[0]);
      Xor4(TimesX(r), TimesX(s), Bit(a[0]), Bit(b[0]));
      DivideLinear(Xor(TimesX(r), Bit(a[0])), Xor(TimesX(s), Bit(b[0])), a[1..], b[1..], ab[1..]);
    }
  }

  lemma {:induction false} DivideChunks(r: bv32, a: seq<bool>, b: seq<bool>)
    ensures Divide(r, a + b) == Divide(Divide(r, a), b)
    decreases |a|
  {
    hide TimesX, Xor, Bit;
    if a == [] {
      assert a + b == b;
    } else {
      assert (a + b)[1..] == a[1..] + b;
      DivideChunks(Xor(TimesX(r), Bit(a[0])), a[1..], b);
    }
  }

  // --- multiplication by a power of x

  function TimesXs(r: bv32, n: nat): bv32
    decreases n
  {
    if n == 0 then r else TimesXs(TimesX(r), n - 1)
  }

  lemma {:induction false} TimesXsLinear(a: bv32, b: bv32, n: nat)
    ensures TimesXs(Xor(a, b), n) == Xor(TimesXs(a, n), TimesXs(b, n))
    decreases n
  {
    hide TimesX, Xor;
    if n > 0 {
      TimesXLinear(a, b);
      TimesXsLinear(TimesX(a), TimesX(b), n - 1);
    }
  }

  lemma {:induction false} TimesXLast(r: bv32, n: nat)
    ensures TimesXs(TimesX(r), n) == TimesX(TimesXs(r, n))
    decreases n
  {
    hide TimesX;
    if n > 0 {
      TimesXLast(TimesX(r), n - 1);
    }
  }

  lemma {:induction false} DivideZeros(r: bv32, n: nat)
    ensures Divide(r, Copies(false, n)) == TimesXs(r, n)
    decreases n
  {
    hide TimesX, Xor;
    if n > 0 {
      XorZero(TimesX(r));
      assert Copies(false, n)[1..] == Copies(false, n - 1);
      DivideZeros(TimesX(r), n - 1);
    }
  }

  // --- the register, mirrored: highest power in the top bit, message bits enter there

  function TopBit(b: bool): bv32 {
    if b then 0x8000_0000 else 0
  }

  function Mirrored(r: bv32, bits: seq<bool>): bv32
    decreases |bits|
  {
    if bits == [] then r else Mirrored(TimesX(Xor(r, TopBit(bits[0]))), bits[1..])
  }

  lemma ReverseXor(a: bv32, b: bv32)
    ensures Reverse(Xor(a, b)) == Xor(Reverse(a), Reverse(b))
  {}

  lemma ReverseBit(b: bool)
    ensures Reverse(Bit(b)) == TopBit(b)
  {}

  lemma ReverseStep(x: bv32)
    ensures Reverse(Step(x)) == TimesX(Reverse(x))
  {}

  lemma {:induction false} RegisterMirrored(crc: bv32, bits: seq<bool>)
    ensures Reverse(Register(crc, bits)) == Mirrored(Reverse(crc), bits)
    decreases |bits|
  {
    hide Reverse, Step, Xor, Bit, TopBit, TimesX;
    if bits != [] {
      var x := Xor(crc, Bit(bits[0]));
      ReverseXor(crc, Bit(bits[0]));
      ReverseBit(bits[0]);
      ReverseStep(x);
      RegisterMirrored(Step(x), bits[1..]);
    }
  }

  /** What the register held at the start is just multiplied by x for every message bit. */
  lemma {:induction false} MirroredSplits(r: bv32, s: bv32, bits: seq<bool>)
    ensures Mirrored(Xor(r, s), bits) == Xor(Mirrored(r, bits), TimesXs(s, |bits|))
    decreases |bits|
  {
    hide TimesX, Xor, TopBit;
    if bits != [] {
      var t := TopBit(bits[0]);
      XorSwap(r, s, t);
      TimesXLinear(Xor(r, t), s);
      MirroredSplits(TimesX(Xor(r, t)), TimesX(s), bits[1..]);
    }
  }

  lemma XorSwap(r: bv32, s: bv32, t: bv32)
    ensures Xor(Xor(r, s), t) == Xor(Xor(r, t), s)
  {
    hide Xor;
    XorAssociative(r, s, t);
    XorCommutes(s, t);
    XorAssociative(r, t, s);
  }

  /** A bit brought down at the low end gets to the top after 31 multiplications by x. */
  lemma BitToTop(b: bool)
    ensures TimesXs(Bit(b), 31) == TopBit(b)
  {
    assert TimesXs(0x8000_0000, 0) == 0x8000_0000;
    assert TimesXs(0x40000000, 1) == 0x80000000;
    assert TimesXs(0x20000000, 2) == 0x80000000;
    assert TimesXs(0x10000000, 3) == 0x80000000;
    assert TimesXs(0x08000000, 4) == 0x80000000;
    assert TimesXs(0x04000000, 5) == 0x80000000;
    assert TimesXs(0x02000000, 6) == 0x80000000;
    assert TimesXs(0x01000000, 7) == 0x80000000;
    assert TimesXs(0x00800000, 8) == 0x80000000;
    assert TimesXs(0x00400000, 9) == 0x80000000;
    assert TimesXs(0x00200000, 10) == 0x80000000;
    assert TimesXs(0x00100000, 11) == 0x80000000;
    assert TimesXs(0x00080000, 12) == 0x80000000;
    assert TimesXs(0x00040000, 13) == 0x80000000;
    assert TimesXs(0x00020000, 14) == 0x80000000;
    assert TimesXs(0x00010000, 15) == 0x80000000;
    assert TimesXs(0x00008000, 16) == 0x80000000;
    assert TimesXs(0x00004000, 17) == 0x80000000;
    assert TimesXs(0x00002000, 18) == 0x80000000;
    assert TimesXs(0x00001000, 19) == 0x80000000;
    assert TimesXs(0x00000800, 20) == 0x80000000;
    assert TimesXs(0x00000400, 21) == 0x80000000;
    assert TimesXs(0x00000200, 22) == 0x80000000;
    assert TimesXs(0x00000100, 23) == 0x80000000;
    assert TimesXs(0x00000080, 24) == 0x80000000;
    assert TimesXs(0x00000040, 25) == 0x80000000;
    assert TimesXs(0x00000020, 26) == 0x80000000;
    assert TimesXs(0x00000010, 27) == 0x80000000;
    assert TimesXs(0x00000008, 28) == 0x80000000;
    assert TimesXs(0x00000004, 29) == 0x80000000;
    assert TimesXs(0x00000002, 30) == 0x80000000;
    assert TimesXs(0x00000001, 31) == 0x80000000;
    ZeroStaysZero(31);
  }

  lemma {:induction false} ZeroStaysZero(n: nat)
    ensures TimesXs(0, n) == 0
  {
    if n > 0 {
      assert TimesX(0) == 0;
      ZeroStaysZero(n - 1);
    }
  }

  /** Division with the bits entering at the low end lags 32 multiplications behind the register. */
  lemma {:induction false} DivideLags(r: bv32, bits: seq<bool>)
    ensures TimesXs(Divide(r, bits), 32) == Mirrored(TimesXs(r, 32), bits)
    decreases |bits|
  {
    hide TimesX, Xor, Bit, TopBit;
    if bits != [] {
      var b := bits[0];
      var r1 := Xor(TimesX(r), Bit(b));
      DivideLags(r1, bits[1..]);
      OneBitLags(r, b);
    }
  }

  lemma OneBitLags(r: bv32, b: bool)
    ensures TimesXs(Xor(TimesX(r), Bit(b)), 32) == TimesX(Xor(TimesXs(r, 32), TopBit(b)))
  {
    hide TimesX, Xor, Bit, TopBit, TimesXs;
    TimesXsLinear(TimesX(r), Bit(b), 32);
    TimesXLast(r, 32);
    Last32(Bit(b));
    BitToTop(b);
    TimesXLinear(TimesXs(r, 32), TopBit(b));
  }

  lemma Last32(r: bv32)
    ensures TimesXs(r, 32) == TimesX(TimesXs(r, 31))
  {
    hide TimesX;
    TimesXLast(r, 31);
  }

  lemma LoadHalf()
    ensures Divide(0x0001FFFF, Copies(true, 15)) == ALL_ONES
  {
    assert Divide(0xFFFFFFFF, Copies(true, 0)) == ALL_ONES;
    assert Divide(0x7FFFFFFF, Copies(true, 1)) == ALL_ONES;
    assert Divide(0x3FFFFFFF, Copies(true, 2)) == ALL_ONES;
    assert Divide(0x1FFFFFFF, Copies(true, 3)) == ALL_ONES;
    assert Divide(0x0FFFFFFF, Copies(true, 4)) == ALL_ONES;
    assert Divide(0x07FFFFFF, Copies(true, 5)) == ALL_ONES;
    assert Divide(0x03FFFFFF, Copies(true, 6)) == ALL_ONES;
    assert Divide(0x01FFFFFF, Copies(true, 7)) == ALL_ONES;
    assert Divide(0x00FFFFFF, Copies(true, 8)) == ALL_ONES;
    assert Divide(0x007FFFFF, Copies(true, 9)) == ALL_ONES;
    assert Divide(0x003FFFFF, Copies(true, 10)) == ALL_ONES;
    assert Divide(0x001FFFFF, Copies(true, 11)) == ALL_ONES;
    assert Divide(0x000FFFFF, Copies(true, 12)) == ALL_ONES;
    assert Divide(0x0007FFFF, Copies(true, 13)) == ALL_ONES;
    assert Divide(0x0003FFFF, Copies(true, 14)) == ALL_ONES;
    assert Divide(0x0001FFFF, Copies(true, 15)) == ALL_ONES;
  }

  lemma LoadOnes()
    ensures Divide(0, Copies(true, 32)) == ALL_ONES
  {
    LoadHalf();
    assert Divide(0x0000FFFF, Copies(true, 16)) == ALL_ONES;
    assert Divide(0x00007FFF, Copies(true, 17)) == ALL_ONES;
    assert Divide(0x00003FFF, Copies(true, 18)) == ALL_ONES;
    assert Divide(0x00001FFF, Copies(true, 19)) == ALL_ONES;
    assert Divide(0x00000FFF, Copies(true, 20)) == ALL_ONES;
    assert Divide(0x000007FF, Copies(true, 21)) == ALL_ONES;
    assert Divide(0x000003FF, Copies(true, 22)) == ALL_ONES;
    assert Divide(0x000001FF, Copies(true, 23)) == ALL_ONES;
    assert Divide(0x000000FF, Copies(true, 24)) == ALL_ONES;
    assert Divide(0x0000007F, Copies(true, 25)) == ALL_ONES;
    assert Divide(0x0000003F, Copies(true, 26)) == ALL_ONES;
    assert Divide(0x0000001F, Copies(true, 27)) == ALL_ONES;
    assert Divide(0x0000000F, Copies(true, 28)) == ALL_ONES;
    assert Divide(0x00000007, Copies(true, 29)) == ALL_ONES;
    assert Divide(0x00000003, Copies(true, 30)) == ALL_ONES;
    assert Divide(0x00000001, Copies(true, 31)) == ALL_ONES;
    assert Divide(0x00000000, Copies(true, 32)) == ALL_ONES;
  }

  /** The dividend is the padded message plus 32 ones. */
  lemma DivideDividend(bits: seq<bool>)
    ensures Remainder(Dividend(bits)) == Mirrored(ALL_ONES, bits)
  {
    hide TimesX, Xor, Bit, TopBit, Divide, Mirrored, TimesXs;
    var padded := bits + Copies(false, 32);
    var ones := Copies(true, 32) + Copies(false, |bits|);
    XorZero(0);
    DivideLinear(0, 0, padded, ones, Dividend(bits));
    DivideChunks(0, bits, Copies(false, 32));
    DivideZeros(Divide(0, bits), 32);
    DivideLags(0, bits);
    ZeroStaysZero(32);
    DivideChunks(0, Copies(true, 32), Copies(false, |bits|));
    LoadOnes();
    DivideZeros(ALL_ONES, |bits|);
    MirroredSplits(0, ALL_ONES, bits);
    XorZero(ALL_ONES);
  }

  lemma ReverseNot(x: bv32)
    ensures Not(x) == Reverse(Not(Reverse(x)))
  {}

  /**
   Main result. For every message the digest is the complemented remainder of long division by the
   Castagnoli polynomial, its bits in the opposite order.
   */
  lemma DigestIsDivision(data: seq<byte>)
    ensures Digest(data) == Reverse(Not(Remainder(Dividend(MessageBits(data)))))
  {
    hide Reverse, Not, Register, MessageBits, Remainder, Dividend, Mirrored;
    var bits := MessageBits(data);
    DivideDividend(bits);
    RegisterMirrored(START, bits);
    ReverseOnes();
    ReverseNot(Register(START, bits));
  }

  lemma ReverseOnes()
    ensures Reverse(START) == ALL_ONES
  {}
}

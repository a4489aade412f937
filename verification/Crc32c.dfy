/**
 The header and data digests of iSCSI (section 13.1 of RFC 7143): the table-driven code of
 `iscsi.cpp`, proved equal to the bit-serial register, and what the digest is sure to detect.
 */
module Crc32c {
  import opened Bytes
  import opened Crc32cTable

  // --- the bit-serial register

  function Bit(b: bool): bv32 {
    if b then 1 else 0
  }

  /** Each message bit enters at bit 0, and the register takes a step. */
  function Register(crc: bv32, bits: seq<bool>): bv32
    decreases |bits|
  {
    if bits == [] then crc else Register(Step(Xor(crc, Bit(bits[0]))), bits[1..])
  }

  /** Eight bits, lowest first. */
  function Bits8(v: bv8): (r: seq<bool>)
    ensures |r| == 8
  {
    [v & 1 == 1, v & 2 == 2, v & 4 == 4, v & 8 == 8, v & 16 == 16, v & 32 == 32, v & 64 == 64, v & 128 == 128]
  }

  /** The `n` lowest binary digits of a number, lowest first. */
  function Digits(b: nat, n: nat): (r: seq<bool>)
    ensures |r| == n
  {
    if n == 0 then [] else [b % 2 == 1] + Digits(b / 2, n - 1)
  }

  function ByteBits(b: byte): (r: seq<bool>)
    ensures |r| == 8
  {
    Digits(b, 8)
  }

  /** The bits of a message in the order in which they are sent. */
  function MessageBits(data: seq<byte>): (r: seq<bool>)
    ensures |r| == 8 * |data|
  {
    if data == [] then [] else ByteBits(data[0]) + MessageBits(data[1..])
  }

  /** The register after the bytes of `data`. */
  function Fold(crc: bv32, data: seq<byte>): bv32 {
    Register(crc, MessageBits(data))
  }

  const START: bv32 := 0xFFFF_FFFF

  function Not(x: bv32): bv32 {
    !x
  }

  /** The finished digest of `data`. */
  function Digest(data: seq<byte>): bv32 {
    Not(Fold(START, data))
  }

  lemma {:induction false} RegisterChunks(crc: bv32, a: seq<bool>, b: seq<bool>)
    ensures Register(crc, a + b) == Register(Register(crc, a), b)
    decreases |a|
  {
    hide Step, Xor, Bit;
    if a == [] {
      assert a + b == b;
    } else {
      assert (a + b)[1..] == a[1..] + b;
      RegisterChunks(Step(Xor(crc, Bit(a[0]))), a[1..], b);
    }
  }

  lemma {:induction false} MessageBitsConcat(a: seq<byte>, b: seq<byte>)
    ensures MessageBits(a + b) == MessageBits(a) + MessageBits(b)
  {
    hide ByteBits;
    if a == [] {
      assert a + b == b;
    } else {
      assert (a + b)[1..] == a[1..] + b;
      MessageBitsConcat(a[1..], b);
      assert ByteBits(a[0]) + (MessageBits(a[1..]) + MessageBits(b)) == (ByteBits(a[0]) + MessageBits(a[1..])) + MessageBits(b);
    }
  }

  /** Feeding the register of one chunk into the next gives the register of the concatenation. */
  lemma Chunks(crc: bv32, a: seq<byte>, b: seq<byte>)
    ensures Fold(crc, a + b) == Fold(Fold(crc, a), b)
  {
    hide Register, MessageBits;
    MessageBitsConcat(a, b);
    RegisterChunks(crc, MessageBits(a), MessageBits(b));
  }

  // --- up to 32 bits at a time: add them all first, then take that many steps

  function Up(w: bv32): bv32 {
    w << 1
  }

  /** The bits as a number, the first of them in bit 0. */
  function Pack(bits: seq<bool>): bv32 {
    if bits == [] then 0 else Xor(Bit(bits[0]), Up(Pack(bits[1..])))
  }

  /** The top `32 - n` bits. */
  function TopMask(n: nat): bv32 {
    if n == 0 then 0xFFFF_FFFF else Up(TopMask(n - 1))
  }

  predicate Clear(w: bv32, mask: bv32) {
    w & mask == 0
  }

  lemma ClearStep(w: bv32, m: bv32, b: bool)
    requires Clear(w, m)
    ensures Clear(Xor(Bit(b), Up(w)), Up(m))
  {}

  lemma {:induction false} PackIsSmall(bits: seq<bool>)
    ensures Clear(Pack(bits), TopMask(|bits|))
  {
    if bits == [] {
      assert Pack(bits) == 0;
    } else {
      hide Clear, Xor, Up, Bit;
      PackIsSmall(bits[1..]);
      ClearStep(Pack(bits[1..]), TopMask(|bits| - 1), bits[0]);
    }
  }

  /** The top bit of `m` is set, and stays set when `m` is shifted up to `k` places. */
  predicate TopStaysSet(m: bv32, k: nat)
    decreases k
  {
    m & 0x8000_0000 == 0x8000_0000 && (k > 0 ==> TopStaysSet(Up(m), k - 1))
  }

  lemma {:induction false} TopMaskHasTop(n: nat)
    requires n <= 31
    ensures TopStaysSet(TopMask(n), 31 - n)
  {
    if n > 0 {
      hide Up;
      TopMaskHasTop(n - 1);
    } else {
      AllOnes();
    }
  }

  lemma AllOnes()
    ensures TopStaysSet(0xFFFF_FFFF, 31)
  {
    assert TopStaysSet(0x80000000, 0);
    assert TopStaysSet(0xC0000000, 1);
    assert TopStaysSet(0xE0000000, 2);
    assert TopStaysSet(0xF0000000, 3);
    assert TopStaysSet(0xF8000000, 4);
    assert TopStaysSet(0xFC000000, 5);
    assert TopStaysSet(0xFE000000, 6);
    assert TopStaysSet(0xFF000000, 7);
    assert TopStaysSet(0xFF800000, 8);
    assert TopStaysSet(0xFFC00000, 9);
    assert TopStaysSet(0xFFE00000, 10);
    assert TopStaysSet(0xFFF00000, 11);
    assert TopStaysSet(0xFFF80000, 12);
    assert TopStaysSet(0xFFFC0000, 13);
    assert TopStaysSet(0xFFFE0000, 14);
    assert TopStaysSet(0xFFFF0000, 15);
    assert TopStaysSet(0xFFFF8000, 16);
    assert TopStaysSet(0xFFFFC000, 17);
    assert TopStaysSet(0xFFFFE000, 18);
    assert TopStaysSet(0xFFFFF000, 19);
    assert TopStaysSet(0xFFFFF800, 20);
    assert TopStaysSet(0xFFFFFC00, 21);
    assert TopStaysSet(0xFFFFFE00, 22);
    assert TopStaysSet(0xFFFFFF00, 23);
    assert TopStaysSet(0xFFFFFF80, 24);
    assert TopStaysSet(0xFFFFFFC0, 25);
    assert TopStaysSet(0xFFFFFFE0, 26);
    assert TopStaysSet(0xFFFFFFF0, 27);
    assert TopStaysSet(0xFFFFFFF8, 28);
    assert TopStaysSet(0xFFFFFFFC, 29);
    assert TopStaysSet(0xFFFFFFFE, 30);
    assert TopStaysSet(0xFFFFFFFF, 31);
  }

  lemma ClearTop(w: bv32, m: bv32)
    requires Clear(w, m) && m & 0x8000_0000 == 0x8000_0000
    ensures Clear(w, 0x8000_0000)
  {}

  lemma PackLeavesTopClear(bits: seq<bool>)
    requires |bits| <= 31
    ensures Clear(Pack(bits), 0x8000_0000)
  {
    hide Clear, Pack, Up;
    PackIsSmall(bits);
    TopMaskHasTop(|bits|);
    ClearTop(Pack(bits), TopMask(|bits|));
  }

  lemma AddEarlierEven(x: bv32, w: bv32)
    requires w & 0x8000_0000 == 0 && x & 1 == 0
    ensures Step(x) ^ w == Step(x ^ (w << 1))
  {}

  lemma AddEarlierOdd(x: bv32, w: bv32)
    requires w & 0x8000_0000 == 0 && x & 1 == 1
    ensures Step(x) ^ w == Step(x ^ (w << 1))
  {}

  /** What is added after a step can be added before it, one place higher. */
  lemma AddEarlier(x: bv32, w: bv32)
    requires Clear(w, 0x8000_0000)
    ensures Xor(Step(x), w) == Step(Xor(x, Up(w)))
  {
    hide Step;
    assert x & 1 == 0 || x & 1 == 1;
    if x & 1 == 0 {
      AddEarlierEven(x, w);
    } else {
      AddEarlierOdd(x, w);
    }
  }

  lemma XorAssociative(a: bv32, b: bv32, c: bv32)
    ensures Xor(Xor(a, b), c) == Xor(a, Xor(b, c))
  {}

  lemma {:induction false} RegisterIsSteps(crc: bv32, bits: seq<bool>)
    requires |bits| <= 32
    ensures Register(crc, bits) == Steps(Xor(crc, Pack(bits)), |bits|)
    decreases |bits|
  {
    if bits == [] {
    } else {
      hide Step, Xor, Up, Bit, Clear;
      var x, rest := Xor(crc, Bit(bits[0])), bits[1..];
      RegisterIsSteps(Step(x), rest);
      PackLeavesTopClear(rest);
      AddEarlier(x, Pack(rest));
      XorAssociative(crc, Bit(bits[0]), Up(Pack(rest)));
    }
  }

  // --- eight bits as a number

  /** The number that eight bits make up, written out. */
  lemma PackNothing()
    ensures Pack([]) == 0
  {}

  lemma PackFrom(b: seq<bool>, k: nat)
    requires k < |b|
    ensures Pack(b[k..]) == Xor(Bit(b[k]), Up(Pack(b[k + 1..])))
  {
    hide Xor, Up, Bit;
    assert b[k..][1..] == b[k + 1..];
  }

  lemma Pack8(b: seq<bool>)
    requires |b| == 8
    ensures Pack(b) == Xor(Bit(b[0]), Up(Xor(Bit(b[1]), Up(Xor(Bit(b[2]), Up(Xor(Bit(b[3]), Up(
                       Xor(Bit(b[4]), Up(Xor(Bit(b[5]), Up(Xor(Bit(b[6]), Up(Xor(Bit(b[7]), Up(0))))))))))))))))
  {
    hide Xor, Up, Bit, Pack;
    PackFrom(b, 0); PackFrom(b, 1); PackFrom(b, 2); PackFrom(b, 3);
    PackFrom(b, 4); PackFrom(b, 5); PackFrom(b, 6); PackFrom(b, 7);
    assert b[0..] == b && b[8..] == [];
    PackNothing();
  }

  lemma EightBits(v: bv8)
    ensures Xor(Bit(v & 1 == 1), Up(Xor(Bit(v & 2 == 2), Up(Xor(Bit(v & 4 == 4), Up(Xor(Bit(v & 8 == 8), Up(
            Xor(Bit(v & 16 == 16), Up(Xor(Bit(v & 32 == 32), Up(Xor(Bit(v & 64 == 64), Up(
            Xor(Bit(v & 128 == 128), Up(0)))))))))))))))) == v as bv32
  {}

  lemma PackBits8(v: bv8)
    ensures Pack(Bits8(v)) == v as bv32
  {
    hide Xor, Up, Bit, Pack;
    Pack8(Bits8(v));
    EightBits(v);
  }

  // --- the code

  function LowByte(x: bv32): bv8 {
    (x & 0xFF) as bv8
  }

  function HighBytes(x: bv32): bv32 {
    x & 0xFFFF_FF00
  }

  function DropByte(x: bv32): bv32 {
    x >> 8
  }

  function Widen(v: bv8): bv32 {
    v as bv32
  }

  lemma HighBytesShift(x: bv32)
    ensures Step8(HighBytes(x)) == DropByte(x)
  {}

  lemma ByteParts(x: bv32)
    ensures x == Xor(Widen(LowByte(x)), HighBytes(x))
  {}

  lemma DropByteIgnores(crc: bv32, v: bv8)
    ensures DropByte(Xor(crc, Widen(v))) == DropByte(crc)
  {}

  lemma ByteIsStep8(crc: bv32, v: bv8)
    ensures Register(crc, Bits8(v)) == Step8(Xor(crc, Widen(v)))
  {
    hide Xor, Steps, Bits8, Register, Pack;
    RegisterIsSteps(crc, Bits8(v));
    PackBits8(v);
  }

  /** The register after a byte, as the table-driven loop computes it. */
  lemma ByteStep(crc: bv32, v: bv8)
    ensures Register(crc, Bits8(v)) == Xor(Step8(Widen(LowByte(Xor(crc, Widen(v))))), DropByte(crc))
  {
    hide *;
    var x := Xor(crc, Widen(v));
    ByteIsStep8(crc, v);
    ByteParts(x);
    HighBytesShift(x);
    DropByteIgnores(crc, v);
    Step8Linear(Widen(LowByte(x)), HighBytes(x));
  }

  function FromBits(b0: bool, b1: bool, b2: bool, b3: bool, b4: bool, b5: bool, b6: bool, b7: bool): bv8 {
    (if b0 then 1 else 0) | (if b1 then 2 else 0) | (if b2 then 4 else 0) | (if b3 then 8 else 0)
    | (if b4 then 16 else 0) | (if b5 then 32 else 0) | (if b6 then 64 else 0) | (if b7 then 128 else 0)
  }

  lemma BitsOfBits(b0: bool, b1: bool, b2: bool, b3: bool, b4: bool, b5: bool, b6: bool, b7: bool)
    ensures Bits8(FromBits(b0, b1, b2, b3, b4, b5, b6, b7)) == [b0, b1, b2, b3, b4, b5, b6, b7]
  {}

  /** A byte, which is an integer elsewhere, as a bit vector. */
  function Octet(b: byte): (v: bv8)
  {
    var s := Digits(b, 8);
    FromBits(s[0], s[1], s[2], s[3], s[4], s[5], s[6], s[7])
  }

  lemma OctetBits(b: byte)
    ensures Bits8(Octet(b)) == ByteBits(b)
  {
    hide Bits8, FromBits, Digits;
    var s := Digits(b, 8);
    BitsOfBits(s[0], s[1], s[2], s[3], s[4], s[5], s[6], s[7]);
    EightElements(s);
  }

  lemma EightElements(s: seq<bool>)
    requires |s| == 8
    ensures s == [s[0], s[1], s[2], s[3], s[4], s[5], s[6], s[7]]
  {}

  /** One turn of the loop: the table entry for the low byte, and the other three bytes. */
  method TableStep(crc: bv32, b: byte) returns (r: bv32)
    ensures r == Register(crc, ByteBits(b))
  {
    hide *;
    r := TableStepBits(crc, Octet(b));
    OctetBits(b);
  }

  method TableStepBits(crc: bv32, v: bv8) returns (r: bv32)
    ensures r == Register(crc, Bits8(v))
  {
    hide *;
    var entry := Lookup(LowByte(Xor(crc, Widen(v))));
    r := Xor(entry, DropByte(crc));
    ByteStep(crc, v);
    WidenIs(LowByte(Xor(crc, Widen(v))));
  }

  lemma WidenIs(v: bv8)
    ensures Widen(v) == v as bv32
  {}

  /** `crc32_0x11EDC6F41`: the finished digest, and the register to continue with. */
  method Compute(data: seq<byte>, startWith: Option<bv32>) returns (first: bv32, second: bv32)
    ensures second == Fold(if startWith.Some? then startWith.value else START, data)
    ensures first == Not(second)
    ensures startWith.None? ==> first == Digest(data)
  {
    hide Register, ByteBits, Not;
    var crc := if startWith.Some? then startWith.value else START;
    ghost var start := crc;
    var k := 0;
    while k < |data|
      invariant 0 <= k <= |data|
      invariant Fold(crc, data[k..]) == Fold(start, data)
    {
      assert data[k..][1..] == data[k + 1..];
      RegisterChunks(crc, ByteBits(data[k]), MessageBits(data[k + 1..]));
      crc := TableStep(crc, data[k]);
      k := k + 1;
    }
    RegisterOfNothing(crc);
    return Not(crc), crc;
  }

  lemma RegisterOfNothing(crc: bv32)
    ensures Register(crc, []) == crc
  {}

  // --- what the digest is sure to detect

  lemma StepInjective(a: bv32, b: bv32)
    requires Step(a) == Step(b)
    ensures a == b
  {}

  lemma {:induction false} StepsInjective(a: bv32, b: bv32, n: nat)
    requires Steps(a, n) == Steps(b, n)
    ensures a == b
    decreases n
  {
    hide Step;
    if n > 0 {
      StepsInjective(Step(a), Step(b), n - 1);
      StepInjective(a, b);
    }
  }

  lemma XorCancels(c: bv32, a: bv32, b: bv32)
    requires Xor(c, a) == Xor(c, b) || Xor(a, c) == Xor(b, c)
    ensures a == b
  {}

  /** Different register contents stay different, whatever bits follow. */
  lemma {:induction false} RegisterInjective(a: bv32, b: bv32, bits: seq<bool>)
    requires Register(a, bits) == Register(b, bits)
    ensures a == b
    decreases |bits|
  {
    hide Step, Xor, Bit;
    if bits != [] {
      var x, y := Xor(a, Bit(bits[0])), Xor(b, Bit(bits[0]));
      RegisterInjective(Step(x), Step(y), bits[1..]);
      StepInjective(x, y);
      XorCancels(Bit(bits[0]), a, b);
    }
  }

  lemma PackHead(b: bool, c: bool, u: bv32, w: bv32)
    requires u & 0x8000_0000 == 0 && w & 0x8000_0000 == 0
    requires Xor(Bit(b), Up(u)) == Xor(Bit(c), Up(w))
    ensures b == c && u == w
  {}

  lemma {:induction false} PackInjective(u: seq<bool>, w: seq<bool>)
    requires |u| == |w| <= 32 && Pack(u) == Pack(w)
    ensures u == w
  {
    hide Xor, Up, Bit;
    if u != [] {
      PackLeavesTopClear(u[1..]);
      PackLeavesTopClear(w[1..]);
      PackHead(u[0], w[0], Pack(u[1..]), Pack(w[1..]));
      PackInjective(u[1..], w[1..]);
      assert u == [u[0]] + u[1..] && w == [w[0]] + w[1..];
    }
  }

  /** Up to 32 bits are determined by the register before and after them. */
  lemma WindowInjective(crc: bv32, u: seq<bool>, w: seq<bool>)
    requires |u| == |w| <= 32 && Register(crc, u) == Register(crc, w)
    ensures u == w
  {
    hide Register, Steps, Xor, Pack;
    RegisterIsSteps(crc, u);
    RegisterIsSteps(crc, w);
    StepsInjective(Xor(crc, Pack(u)), Xor(crc, Pack(w)), |u|);
    XorCancels(crc, Pack(u), Pack(w));
    PackInjective(u, w);
  }

  /** Two messages that differ only within 32 consecutive bits leave different registers. */
  lemma BurstChangesRegister(crc: bv32, before: seq<bool>, u: seq<bool>, w: seq<bool>, after: seq<bool>)
    requires |u| == |w| <= 32 && u != w
    ensures Register(crc, before + u + after) != Register(crc, before + w + after)
  {
    hide Register;
    RegisterChunks(crc, before + u, after);
    RegisterChunks(crc, before, u);
    RegisterChunks(crc, before + w, after);
    RegisterChunks(crc, before, w);
    var c := Register(crc, before);
    if Register(Register(c, u), after) == Register(Register(c, w), after) {
      RegisterInjective(Register(c, u), Register(c, w), after);
      WindowInjective(c, u, w);
    }
  }

  lemma {:induction false} DigitsInjective(a: nat, b: nat, n: nat, bound: nat)
    requires Digits(a, n) == Digits(b, n) && a < bound && b < bound && bound <= PowerOfTwo(n)
    ensures a == b
  {
    if n > 0 {
      var u, w := Digits(a, n), Digits(b, n);
      assert u[0] == w[0] && Digits(a / 2, n - 1) == u[1..] && Digits(b / 2, n - 1) == w[1..];
      DigitsInjective(a / 2, b / 2, n - 1, PowerOfTwo(n - 1));
    }
  }

  function PowerOfTwo(n: nat): nat {
    if n == 0 then 1 else 2 * PowerOfTwo(n - 1)
  }

  lemma ByteBitsInjective(a: byte, b: byte)
    requires ByteBits(a) == ByteBits(b)
    ensures a == b
  {
    assert PowerOfTwo(8) == 256;
    DigitsInjective(a, b, 8, 256);
  }

  lemma {:induction false} MessageBitsInjective(u: seq<byte>, w: seq<byte>)
    requires |u| == |w| && MessageBits(u) == MessageBits(w)
    ensures u == w
  {
    hide ByteBits;
    if u != [] {
      var bu, bw := MessageBits(u), MessageBits(w);
      assert ByteBits(u[0]) == bu[..8] && ByteBits(w[0]) == bw[..8];
      assert MessageBits(u[1..]) == bu[8..] && MessageBits(w[1..]) == bw[8..];
      ByteBitsInjective(u[0], w[0]);
      MessageBitsInjective(u[1..], w[1..]);
      assert u == [u[0]] + u[1..] && w == [w[0]] + w[1..];
    }
  }

  lemma NotInjective(a: bv32, b: bv32)
    requires Not(a) == Not(b)
    ensures a == b
  {}

  /**
   Two different messages of equal length that agree outside some window of at most four
   consecutive bytes have different digests.
   */
  lemma BurstDetected(a: seq<byte>, b: seq<byte>, p: nat, k: nat)
    requires |a| == |b| && a != b && k <= 4 && p + k <= |a|
    requires a[..p] == b[..p] && a[p + k..] == b[p + k..]
    ensures Digest(a) != Digest(b)
  {
    hide Register, MessageBits, Not;
    var u, w := a[p..p + k], b[p..p + k];
    assert a == a[..p] + u + a[p + k..] && b == b[..p] + w + b[p + k..];
    SplitBits(a, p, k);
    SplitBits(b, p, k);
    if MessageBits(u) == MessageBits(w) {
      MessageBitsInjective(u, w);
    }
    BurstChangesRegister(START, MessageBits(a[..p]), MessageBits(u), MessageBits(w), MessageBits(a[p + k..]));
    if Digest(a) == Digest(b) {
      NotInjective(Fold(START, a), Fold(START, b));
    }
  }

  lemma SplitBits(a: seq<byte>, p: nat, k: nat)
    requires p + k <= |a|
    ensures MessageBits(a) == MessageBits(a[..p]) + MessageBits(a[p..p + k]) + MessageBits(a[p + k..])
  {
    hide MessageBits;
    assert a == a[..p] + a[p..p + k] + a[p + k..];
    MessageBitsConcat(a[..p] + a[p..p + k], a[p + k..]);
    MessageBitsConcat(a[..p], a[p..p + k]);
  }
}

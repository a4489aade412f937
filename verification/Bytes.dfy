/** Bytes, fixed-width integers and the small containers the other modules share. */
module Bytes {

  datatype Option<+T> = None | Some(value: T)

  type byte = x: int | 0 <= x < 256

  const TWO32: nat := 0x1_0000_0000
  const TWO64: nat := 0x1_0000_0000_0000_0000

  const MAX_DATA_SEGMENT_SIZE: nat := 256 * 1024 * 1024

  type uint32 = x: int | 0 <= x < 0x1_0000_0000
  type uint64 = x: int | 0 <= x < 0x1_0000_0000_0000_0000

  /** Conversion to `uint32_t`: the low 32 bits. */
  function U32(x: int): (r: uint32)
    ensures 0 <= x < TWO32 ==> r == x
  {
    x % TWO32
  }

  /** Conversion to `uint64_t`: the low 64 bits. */
  function U64(x: int): (r: uint64)
    ensures 0 <= x < TWO64 ==> r == x
  {
    x % TWO64
  }

  function Min(a: int, b: int): (r: int)
    ensures r <= a && r <= b && (r == a || r == b)
  {
    if a < b then a else b
  }

  /** `n` copies of `x`. */
  function Repeat<T>(x: T, n: nat): (r: seq<T>)
    ensures |r| == n
    ensures forall i :: 0 <= i < n ==> r[i] == x
  {
    seq(n, i => x)
  }

  /** `s` with the elements from `at` on overwritten by `t`; a plain `memcpy` into a buffer. */
  function Splice<T>(s: seq<T>, at: nat, t: seq<T>): (r: seq<T>)
    requires at + |t| <= |s|
    ensures |r| == |s|
    ensures forall i {:trigger r[i]} :: 0 <= i < |s| ==> r[i] == if at <= i < at + |t| then t[i - at] else s[i]
  {
    s[..at] + t + s[at + |t|..]
  }

  // --- big-endian numbers

  /** The lowest `n` bytes of `v`, the most significant first. */
  function BigEndian(v: nat, n: nat): (r: seq<byte>)
    ensures |r| == n
    decreases n
  {
    if n == 0 then [] else BigEndian(v / 256, n - 1) + [v % 256]
  }

  /** The number that bytes stand for, the most significant first. */
  function Unsigned(b: seq<byte>): (r: nat) {
    if b == [] then 0 else Unsigned(b[..|b| - 1]) * 256 + b[|b| - 1]
  }

  function Power256(n: nat): (r: nat) {
    if n == 0 then 1 else 256 * Power256(n - 1)
  }

  lemma PowersOf256()
    ensures Power256(1) == 256 && Power256(2) == 0x1_0000 && Power256(3) == 0x100_0000
    ensures Power256(4) == TWO32 && Power256(8) == TWO64
  {
    assert Power256(2) == 65536;
    assert Power256(4) == 65536 * 65536;
    assert Power256(6) == 65536 * Power256(4);
  }

  /** Bytes are the encoding of a number in range exactly when they stand for it. */
  lemma {:induction false} BigEndianIff(b: seq<byte>, v: nat)
    requires v < Power256(|b|)
    ensures b == BigEndian(v, |b|) <==> Unsigned(b) == v
    decreases |b|
  {
    if b != [] {
      var front, last := b[..|b| - 1], b[|b| - 1];
      BigEndianIff(front, v / 256);
      assert b == front + [last];
      var e := BigEndian(v, |b|);
      assert e[..|b| - 1] == BigEndian(v / 256, |b| - 1) && e[|b| - 1] == v % 256;
    }
  }

  /** Each byte by division. */
  lemma {:induction false} ByteOf(v: nat, n: nat, i: nat)
    requires i < n
    ensures Power256(n - 1 - i) > 0
    ensures BigEndian(v, n)[i] == (v / Power256(n - 1 - i)) % 256
    decreases n
  {
    if i == n - 1 {
      assert Power256(0) == 1;
    } else {
      ByteOf(v / 256, n - 1, i);
      DivideTwice(v, Power256(n - 2 - i));
    }
  }

  lemma DivideTwice(v: nat, m: nat)
    requires m > 0
    ensures (v / 256) / m == v / (256 * m)
  {
    var q := (v / 256) / m;
    var r, s := (v / 256) % m, v % 256;
    assert v / 256 == q * m + r && v == (v / 256) * 256 + s;
    assert v == q * (256 * m) + (r * 256 + s);
    QuotientUnique(v, q, r * 256 + s, 256 * m);
  }

  lemma QuotientUnique(n: nat, q: nat, r: nat, m: nat)
    requires r < m && n == q * m + r
    ensures n / m == q
  {
    var d := n / m;
    assert n == d * m + n % m;
    if d < q { Grows(d + 1, q, m); } else if q < d { Grows(q + 1, d, m); }
  }

  lemma Grows(a: nat, b: nat, m: nat)
    requires a <= b
    ensures a * m <= b * m
  {}

  // --- sizes and copies

  lemma {:induction false} SubsetSize<T>(a: set<T>, b: set<T>)
    requires a <= b
    ensures |a| <= |b|
    ensures |a| == |b| <==> a == b
    decreases a
  {
    if a != {} {
      var x :| x in a;
      SubsetSize(a - {x}, b - {x});
      assert a == (a - {x}) + {x} && b == (b - {x}) + {x};
    }
  }

  /** `memcpy` into a buffer. */
  method Memcpy(target: array<byte>, at: nat, source: seq<byte>)
    requires at + |source| <= target.Length
    modifies target
    ensures target[..] == Splice(old(target[..]), at, source)
  {
    for i := 0 to |source|
      invariant target[..] == Splice(old(target[..]), at, source[..i])
    {
      target[at + i] := source[i];
    }
    assert source[..|source|] == source;
  }
}

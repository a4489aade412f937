/**
 The disk behind `scsi.cpp` and the calls that reach it: `scsi::write`, `trim`, `read`, `cmpwrite`,
 `sync` and the reservation, with the trim level and the reservation checks as the code has them.
 The disk is a plain array of bytes; a backend call succeeds or fails as a whole.
 */
module Lun {
  import opened Bytes

  type Session = nat  // the thread that serves a connection

  /** `n` blocks of `bs` bytes, in bytes. */
  function Span(n: nat, bs: nat): (r: nat)
    ensures n == 0 ==> r == 0
    ensures n == 1 ==> r == bs
    ensures n > 0 ==> r >= bs
  {
    n * bs
  }

  lemma SpanAdd(a: nat, b: nat, bs: nat)
    ensures Span(a + b, bs) == Span(a, bs) + Span(b, bs)
  {}

  lemma SpanGrows(a: nat, b: nat, bs: nat)
    requires a <= b
    ensures Span(a, bs) <= Span(b, bs)
  {
    SpanAdd(a, b - a, bs);
  }

  lemma SpanCovers(n: nat, bs: nat)
    requires bs > 0
    ensures n <= Span(n, bs)
  {}

  lemma DivisionBounds(n: nat, bs: nat, k: nat)
    requires bs > 0
    ensures n / bs >= k <==> n >= Span(k, bs)
    ensures Span(n / bs, bs) <= n < Span(n / bs, bs) + bs
  {
    var q := n / bs;
    assert n == Span(q, bs) + n % bs;
    if q >= k { SpanGrows(k, q, bs); }
    else { SpanGrows(q + 1, k, bs); SpanAdd(q, 1, bs); }
  }

  /** The number of whole blocks in `n` bytes. */
  function WholeBlocks(n: nat, bs: nat): (r: nat)
    requires bs > 0
    ensures Span(r, bs) <= n < Span(r, bs) + bs
    ensures r == 0 <==> n < bs
  {
    DivisionBounds(n, bs, 1);
    n / bs
  }

  lemma SpanModulo(k: nat, bs: nat)
    requires bs > 0
    ensures Span(k, bs) % bs == 0 && Span(k, bs) / bs == k
  {
    DivisionBounds(Span(k, bs), bs, k);
    DivisionBounds(Span(k, bs), bs, k + 1);
    SpanAdd(k, 1, bs);
    assert Span(k, bs) == Span(k, bs) / bs * bs + Span(k, bs) % bs;
  }

  datatype Lun = Lun(
    disk: seq<byte>,
    bs: nat,                    // block size
    trimLevel: int,             // 0: never trim, 1: trim on request, 2: also instead of writing zeros
    emptyTrimOk: bool,          // whether the backend accepts a trim of no blocks
    healthy: bool,              // whether reads, writes and trims of the backend succeed
    syncs: bool,                // whether a sync of the backend succeeds
    lockedBy: Option<Session>)
  {
    predicate Valid() {
      bs > 0 && |disk| % bs == 0 && |disk| < TWO64
    }

    function Size(): (r: nat)
      requires bs > 0
    {
      |disk| / bs
    }
  }

  function Zeros(n: nat): (r: seq<byte>)
    ensures |r| == n && AllZero(r)
  {
    Repeat(0, n)
  }

  predicate AllZero(data: seq<byte>) {
    forall i :: 0 <= i < |data| ==> data[i] == 0
  }

  datatype RwResult = RwOk | RwFailRw | RwFailLocked | RwFailGeneral | RwFailMismatch

  /** Only the contents of the disk may differ. */
  predicate SameDevice(l: Lun, l': Lun) {
    l' == l.(disk := l'.disk) && |l'.disk| == |l.disk|
  }

  // --- the backend

  function BackendWrite(l: Lun, blk: nat, data: seq<byte>): (r: (bool, Lun))
    ensures SameDevice(l, r.1)
  {
    if l.healthy && Span(blk, l.bs) + |data| <= |l.disk|
    then (true, l.(disk := Splice(l.disk, Span(blk, l.bs), data)))
    else (false, l)
  }

  function BackendTrim(l: Lun, blk: nat, n: nat): (r: (bool, Lun))
    ensures SameDevice(l, r.1)
  {
    if l.healthy && Span(blk, l.bs) + Span(n, l.bs) <= |l.disk| && (n > 0 || l.emptyTrimOk)
    then (true, l.(disk := Splice(l.disk, Span(blk, l.bs), Zeros(Span(n, l.bs)))))
    else (false, l)
  }

  function BackendRead(l: Lun, blk: nat, n: nat): (r: (bool, seq<byte>))
    ensures r.0 ==> |r.1| == Span(n, l.bs)
  {
    if l.healthy && Span(blk, l.bs) + Span(n, l.bs) <= |l.disk|
    then (true, l.disk[Span(blk, l.bs)..Span(blk, l.bs) + Span(n, l.bs)])
    else (false, [])
  }

  // --- scsi.cpp

  /** `locking_status() == l_locked_other`. */
  predicate LockedOther(l: Lun, who: Session) {
    l.lockedBy.Some? && l.lockedBy.value != who
  }

  function Result(ok: bool): RwResult {
    if ok then RwOk else RwFailGeneral
  }

  function Write(l: Lun, who: Session, blk: nat, n: nat, data: seq<byte>): (r: (RwResult, Lun))
    requires Span(n, l.bs) <= |data|
    ensures SameDevice(l, r.1)
    ensures r.0 != RwOk ==> r.1 == l
  {
    if LockedOther(l, who) then (RwFailLocked, l)
    else if l.trimLevel == 2 && AllZero(data[..Span(n, l.bs)]) then
      var (ok, l') := BackendTrim(l, blk, n);
      (Result(ok), l')
    else
      var (ok, l') := BackendWrite(l, blk, data[..Span(n, l.bs)]);
      (Result(ok), l')
  }

  /** Trim level 0: write blocks of zeros, one by one. */
  function TrimByWriting(l: Lun, who: Session, blk: nat, n: nat): (r: (RwResult, Lun))
    ensures SameDevice(l, r.1)
    decreases n
  {
    if n == 0 then (RwOk, l)
    else
      assert Span(1, l.bs) == l.bs;
      var (rc, l1) := Write(l, who, blk, 1, Zeros(l.bs));
      if rc != RwOk then (rc, l1) else TrimByWriting(l1, who, blk + 1, n - 1)
  }

  function Trim(l: Lun, who: Session, blk: nat, n: nat): (r: (RwResult, Lun))
    ensures SameDevice(l, r.1)
  {
    if LockedOther(l, who) then (RwFailLocked, l)
    else if l.trimLevel == 0 then TrimByWriting(l, who, blk, n)
    else
      var (ok, l') := BackendTrim(l, blk, n);
      (Result(ok), l')
  }

  function Read(l: Lun, who: Session, blk: nat, n: nat): (r: (RwResult, seq<byte>))
    ensures r.0 == RwOk ==> |r.1| == Span(n, l.bs)
  {
    if LockedOther(l, who) then (RwFailLocked, [])
    else
      var (ok, data) := BackendRead(l, blk, n);
      (Result(ok), data)
  }

  function CmpWrite(l: Lun, who: Session, blk: nat, n: nat, data: seq<byte>, expected: seq<byte>): (r: (RwResult, Lun))
    requires Span(n, l.bs) <= |data| && Span(n, l.bs) <= |expected|
    ensures SameDevice(l, r.1)
    ensures r.0 != RwOk ==> r.1 == l
  {
    if LockedOther(l, who) then (RwFailLocked, l)
    else
      var (ok, here) := BackendRead(l, blk, n);
      if !ok then (RwFailRw, l)
      else if here != expected[..Span(n, l.bs)] then (RwFailMismatch, l)
      else
        var (stored, l') := BackendWrite(l, blk, data[..Span(n, l.bs)]);
        (if stored then RwOk else RwFailRw, l')
  }

  function Sync(l: Lun, who: Session): RwResult {
    if LockedOther(l, who) then RwFailLocked else Result(l.syncs)
  }

  /** `reserve_device`: whether the caller holds the reservation afterwards. */
  function Reserve(l: Lun, who: Session): (bool, Lun) {
    if l.lockedBy.Some? then (l.lockedBy.value == who, l) else (true, l.(lockedBy := Some(who)))
  }

  /** `unlock_device`. */
  function Unlock(l: Lun, who: Session): (bool, Lun) {
    if l.lockedBy == Some(who) then (true, l.(lockedBy := None)) else (false, l)
  }

  // --- what these calls mean on the byte array, at every trim level

  /** `s` with `n` bytes from `at` on set to zero. */
  function Zeroed(s: seq<byte>, at: nat, n: nat): (r: seq<byte>)
    requires at + n <= |s|
    ensures |r| == |s|
  {
    Splice(s, at, Zeros(n))
  }

  lemma ZerosAre(data: seq<byte>)
    requires AllZero(data)
    ensures data == Zeros(|data|)
  {}

  /** The device works, the range is on it, and nobody else holds a reservation. */
  predicate Usable(l: Lun, who: Session, blk: nat, n: nat) {
    l.healthy && Span(blk, l.bs) + Span(n, l.bs) <= |l.disk| && !LockedOther(l, who)
  }

  lemma WriteMeans(l: Lun, who: Session, blk: nat, n: nat, data: seq<byte>)
    requires Span(n, l.bs) <= |data| && Usable(l, who, blk, n) && (n > 0 || l.emptyTrimOk)
    ensures Write(l, who, blk, n, data) == (RwOk, l.(disk := Splice(l.disk, Span(blk, l.bs), data[..Span(n, l.bs)])))
  {
    if l.trimLevel == 2 && AllZero(data[..Span(n, l.bs)]) {
      ZerosAre(data[..Span(n, l.bs)]);
    }
  }

  lemma SpliceTwice(s: seq<byte>, at: nat, a: seq<byte>, b: seq<byte>)
    requires at + |a| + |b| <= |s|
    ensures Splice(Splice(s, at, a), at + |a|, b) == Splice(s, at, a + b)
  {}

  lemma ZerosSplit(m: nat, n: nat)
    ensures Zeros(m) + Zeros(n) == Zeros(m + n)
  {}

  lemma {:induction false} TrimByWritingMeans(l: Lun, who: Session, blk: nat, n: nat)
    requires l.bs > 0 && Usable(l, who, blk, n)
    ensures TrimByWriting(l, who, blk, n) == (RwOk, l.(disk := Zeroed(l.disk, Span(blk, l.bs), Span(n, l.bs))))
    decreases n
  {
    hide Write, Splice;
    if n == 0 {
      SpliceNothing(l.disk, Span(blk, l.bs));
    } else {
      var zeros, rest: nat := Zeros(l.bs), Span(n - 1, l.bs);
      SpanAdd(1, n - 1, l.bs);
      SpanAdd(blk, 1, l.bs);
      assert zeros[..Span(1, l.bs)] == zeros;
      WriteMeans(l, who, blk, 1, zeros);
      var l1 := l.(disk := Splice(l.disk, Span(blk, l.bs), zeros));
      assert Span(blk + 1, l.bs) == Span(blk, l.bs) + |zeros| && Span(n, l.bs) == l.bs + rest;
      TrimByWritingMeans(l1, who, blk + 1, n - 1);
      SpliceTwice(l.disk, Span(blk, l.bs), zeros, Zeros(rest));
      ZerosSplit(l.bs, rest);
    }
  }

  lemma SpliceNothing(s: seq<byte>, at: nat)
    requires at <= |s|
    ensures Splice(s, at, Zeros(0)) == s
  {}

  lemma TrimMeans(l: Lun, who: Session, blk: nat, n: nat)
    requires l.bs > 0 && Usable(l, who, blk, n) && (n > 0 || l.emptyTrimOk)
    ensures Trim(l, who, blk, n) == (RwOk, l.(disk := Zeroed(l.disk, Span(blk, l.bs), Span(n, l.bs))))
  {
    if l.trimLevel == 0 {
      TrimByWritingMeans(l, who, blk, n);
    }
  }
}

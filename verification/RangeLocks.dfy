/**
 The block-range locks of `backend.cpp`: a range of blocks is hashed onto 131 mutexes,
 which are then taken in ascending order.
 */
module RangeLocks {
  import opened Bytes

  const N_BACKEND_LOCKS: nat := 131
  const LOCK_SPREADER: nat := 31

  /** The mutex that guards block `i`; the product is a 64-bit one. */
  function LockIndex(i: nat): (r: nat)
    ensures r < N_BACKEND_LOCKS
  {
    U64(i * LOCK_SPREADER) % N_BACKEND_LOCKS
  }

  /** The mutexes that guard the `n` blocks from `lba` on. */
  function LockSet(lba: nat, n: nat): (r: set<nat>)
    ensures forall i :: lba <= i < lba + n ==> LockIndex(i) in r
    ensures forall m :: m in r ==> m < N_BACKEND_LOCKS
  {
    set i | lba <= i < lba + n :: LockIndex(i)
  }

  /**
   The loop of `lock_range` that fills `std::set<size_t> indexes`. Its bound `block_nr + block_n`
   is a 64-bit sum: when that wraps, the loop ends at once and nothing gets locked.
   */
  method CollectIndexes(blockNr: uint64, blockN: uint32) returns (indexes: set<nat>)
    ensures blockNr + blockN < TWO64 ==> indexes == LockSet(blockNr, blockN)
    ensures blockNr + blockN >= TWO64 ==> indexes == {}
  {
    indexes := {};
    var i: nat := blockNr;
    while i < U64(blockNr + blockN)
      invariant blockNr <= i
      invariant blockNr + blockN < TWO64 ==> i <= blockNr + blockN
      invariant blockNr + blockN >= TWO64 ==> i == blockNr
      invariant indexes == LockSet(blockNr, i - blockNr)
    {
      indexes := indexes + {LockIndex(i)};
      i := i + 1;
    }
  }

  /** What `lock_range` locks: nothing when the end of the range does not fit in 64 bits. */
  function Locked(blockNr: nat, blockN: nat): (r: set<nat>)
    ensures forall m :: m in r ==> m < N_BACKEND_LOCKS
  {
    if blockNr + blockN < TWO64 then LockSet(blockNr, blockN) else {}
  }

  /** Every block of the range is guarded exactly when the end of the range does not wrap. */
  lemma GuardedIffNoWrap(blockNr: nat, blockN: nat)
    ensures (forall i :: blockNr <= i < blockNr + blockN ==> LockIndex(i) in Locked(blockNr, blockN))
            <==> (blockN == 0 || blockNr + blockN < TWO64)
  {
    if blockN > 0 && blockNr + blockN >= TWO64 {
      assert LockIndex(blockNr) !in Locked(blockNr, blockN);
    }
  }

  /** Two ranges that have a block in common have a mutex in common. */
  lemma OverlapShares(lba1: nat, n1: nat, lba2: nat, n2: nat)
    requires lba1 < lba2 + n2 && lba2 < lba1 + n1
    requires n1 > 0 && n2 > 0
    ensures LockSet(lba1, n1) * LockSet(lba2, n2) != {}
  {
    var x := if lba1 < lba2 then lba2 else lba1;
    assert LockIndex(x) in LockSet(lba1, n1) * LockSet(lba2, n2);
  }

  lemma ResidueShift(a: int, c: int)
    ensures (a + 131 * c) % 131 == a % 131
  {}

  lemma DifferentResidues(i: nat, j: nat)
    requires i < j < i + 131
    ensures i % 131 != j % 131
  {}

  /** 93 is the inverse of 31 modulo 131, so the index determines the block modulo 131. */
  lemma IndexDeterminesResidue(i: nat)
    requires i * LOCK_SPREADER < TWO64
    ensures i % N_BACKEND_LOCKS == (LockIndex(i) * 93) % N_BACKEND_LOCKS
  {
    var q := i * 31 / 131;
    assert LockIndex(i) == i * 31 - 131 * q;
    ResidueShift(i, 22 * i - 93 * q);
  }

  /** Fewer than 131 blocks apart, different blocks have different mutexes. */
  lemma NearBlocksDiffer(i: nat, j: nat)
    requires i < j < i + N_BACKEND_LOCKS
    requires j * LOCK_SPREADER < TWO64
    ensures LockIndex(i) != LockIndex(j)
  {
    IndexDeterminesResidue(i);
    IndexDeterminesResidue(j);
    DifferentResidues(i, j);
  }

  /** Neighbours have different mutexes, also where the 64-bit product wraps between them. */
  lemma NeighboursDiffer(i: nat)
    ensures LockIndex(i) != LockIndex(i + 1)
  {
    var x := i * LOCK_SPREADER;
    var q := x / TWO64;
    assert x == q * TWO64 + U64(x);
    if U64(x) + LOCK_SPREADER < TWO64 {
      WrapsTo(x + LOCK_SPREADER, q, U64(x) + LOCK_SPREADER);
    } else {
      WrapsTo(x + LOCK_SPREADER, q + 1, U64(x) + LOCK_SPREADER - TWO64);
    }
  }

  lemma WrapsTo(x: nat, q: nat, r: nat)
    requires r < TWO64 && x == q * TWO64 + r
    ensures U64(x) == r
  {}

  lemma OneMoreBlock(lba: nat, n: nat)
    ensures LockSet(lba, n + 1) == LockSet(lba, n) + {LockIndex(lba + n)}
  {}

  lemma NextLockIsNew(lba: nat, n: nat)
    requires n < N_BACKEND_LOCKS && (lba + n) * LOCK_SPREADER < TWO64
    ensures LockIndex(lba + n) !in LockSet(lba, n)
  {
    forall i | lba <= i < lba + n ensures LockIndex(i) != LockIndex(lba + n) {
      NearBlocksDiffer(i, lba + n);
    }
  }

  lemma {:induction false} DistinctUpToAll(lba: nat, n: nat)
    requires n <= N_BACKEND_LOCKS && (lba + n) * LOCK_SPREADER <= TWO64
    ensures |LockSet(lba, n)| == n
  {
    hide LockIndex;
    if n == 0 {
      assert LockSet(lba, 0) == {};
    } else {
      DistinctUpToAll(lba, n - 1);
      OneMoreBlock(lba, n - 1);
      NextLockIsNew(lba, n - 1);
      OneMoreElement(LockSet(lba, n - 1), LockIndex(lba + n - 1));
    }
  }

  lemma LongerRangeLocksMore(lba: nat, k: nat, n: nat)
    requires k <= n
    ensures LockSet(lba, k) <= LockSet(lba, n)
  {}

  /** The `n` blocks from `lba` on take exactly `min(n, 131)` different mutexes. */
  lemma DistinctLocks(lba: nat, n: nat)
    requires (lba + n) * LOCK_SPREADER <= TWO64
    ensures |LockSet(lba, n)| == Min(n, N_BACKEND_LOCKS)
  {
    if n <= N_BACKEND_LOCKS {
      DistinctUpToAll(lba, n);
    } else {
      var some, all := LockSet(lba, N_BACKEND_LOCKS), LockSet(lba, n);
      DistinctUpToAll(lba, N_BACKEND_LOCKS);
      LongerRangeLocksMore(lba, N_BACKEND_LOCKS, n);
      FullBelow(some, N_BACKEND_LOCKS);
      assert all == some;
    }
  }

  lemma OneMoreElement(s: set<nat>, m: nat)
    requires m !in s
    ensures |s + {m}| == |s| + 1
  {}

  /** A set of `k` numbers below `k` holds every number below `k`. */
  lemma {:induction false} FullBelow(s: set<nat>, k: nat)
    requires forall m :: m in s ==> m < k
    ensures |s| <= k
    ensures |s| == k ==> forall m: nat :: m < k ==> m in s
  {
    if k == 0 {
      assert s == {};
    } else {
      FullBelow(s - {k - 1}, k - 1);
      assert forall m: nat :: m < k - 1 && m in s - {k - 1} ==> m in s;
    }
  }

  /** The order in which iterating the `std::set` visits the mutexes from `k` on: ascending. */
  function AscendingFrom(s: set<nat>, k: nat): (r: seq<nat>)
    requires k <= N_BACKEND_LOCKS
    ensures forall m :: m in r <==> m in s && k <= m < N_BACKEND_LOCKS
    ensures StrictlyAscending(r)
    decreases N_BACKEND_LOCKS - k
  {
    if k == N_BACKEND_LOCKS then []
    else if k in s then
      var rest := AscendingFrom(s, k + 1);
      assert forall j :: 0 <= j < |rest| ==> rest[j] in rest;
      [k] + rest
    else AscendingFrom(s, k + 1)
  }

  predicate StrictlyAscending(s: seq<nat>) {
    forall i, j :: 0 <= i < j < |s| ==> s[i] < s[j]
  }

  /** The order in which `lock_range` takes, and `unlock_range` frees, the mutexes of a range. */
  function LockOrder(lba: nat, n: nat): (r: seq<nat>)
    ensures forall m :: m in r <==> m in Locked(lba, n)
    ensures StrictlyAscending(r)
  {
    AscendingFrom(Locked(lba, n), 0)
  }
}

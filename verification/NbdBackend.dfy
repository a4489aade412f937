/**
 `backend_nbd` as one thread runs it: take the range, do the work, free the range. Each method is
 proved to be one of the indivisible operations of `BackendOps`, with all mutexes back as they were.
 */
module NbdBackend {
  import opened Bytes
  import opened RangeLocks
  import opened BackendOps

  /** `held` are the mutexes held before and those in `order`. */
  ghost predicate Taken(held: set<nat>, before: set<nat>, order: seq<nat>) {
    forall m :: m in held <==> m in before || m in order
  }

  lemma NotYetTaken(order: seq<nat>, i: nat)
    requires StrictlyAscending(order) && i < |order|
    ensures order[i] !in order[..i] && order[..i + 1] == order[..i] + [order[i]]
  {}

  lemma LockedIs(blockNr: uint64, blockN: uint32)
    ensures Locked(blockNr, blockN) == if blockNr + blockN < TWO64 then LockSet(blockNr, blockN) else {}
  {}

  class Backend {
    var disk: seq<Block>
    var held: set<nat>   // the mutexes that are taken
    const zero: Block

    constructor (disk: seq<Block>, zero: Block)
      ensures this.disk == disk && this.zero == zero && held == {}
    {
      this.disk, this.zero, this.held := disk, zero, {};
    }

    // --- the device: it may fail at any block

    method DeviceRead(lba: nat) returns (ok: bool, block: Block)
      requires lba < |disk|
      ensures ok ==> block == disk[lba]
    {
      ok := *;
      block := disk[lba];
    }

    /** Stores `blocks`, or the first `stored` of them when the device fails on the way. */
    method DeviceWrite(lba: nat, blocks: seq<Block>) returns (stored: nat)
      requires lba + |blocks| <= |disk|
      modifies this`disk
      ensures stored <= |blocks| && disk == Splice(old(disk), lba, blocks[..stored])
    {
      stored :| stored <= |blocks|;
      disk := Splice(disk, lba, blocks[..stored]);
    }

    // --- backend.cpp

    /** Takes the mutexes of a range in ascending order; none of them may be taken already. */
    method LockRange(blockNr: uint64, blockN: uint32) returns (indexes: set<nat>)
      requires Locked(blockNr, blockN) !! held
      modifies this`held
      ensures indexes == Locked(blockNr, blockN) && held == old(held) + indexes
    {
      indexes := CollectIndexes(blockNr, blockN);
      LockedIs(blockNr, blockN);
      hide Locked, AscendingFrom, StrictlyAscending, LockSet;
      var order := AscendingFrom(indexes, 0);
      ghost var before := held;
      assert order[..0] == [];
      for i := 0 to |order|
        invariant Taken(held, before, order[..i])
      {
        NotYetTaken(order, i);
        assert order[i] in order;
        assert order[i] !in held;  // so the thread does not wait for itself
        held := held + {order[i]};
      }
      assert order[..|order|] == order;
    }

    method UnlockRange(locked: set<nat>)
      requires locked <= held && forall m :: m in locked ==> m < N_BACKEND_LOCKS
      modifies this`held
      ensures held == old(held) - locked
    {
      var order := AscendingFrom(locked, 0);
      for i := 0 to |order|
        invariant held == old(held) - (set j | 0 <= j < i :: order[j])
      {
        held := held - {order[i]};
      }
      assert locked == set j | 0 <= j < |order| :: order[j];
    }

    // --- backend-nbd.cpp

    method Write(blockNr: uint64, data: seq<Block>) returns (r: Outcome)
      requires |data| < TWO32 && blockNr + |data| <= |disk| && Locked(blockNr, |data|) !! held
      modifies this
      ensures var op := Op.Write(blockNr, data);
              Legal(zero, old(disk), op, r) && disk == Effect(zero, old(disk), op, r)
      ensures held == old(held)
    {
      var locks := LockRange(blockNr, |data|);
      var stored := DeviceWrite(blockNr, data);
      UnlockRange(locks);
      assert data[..|data|] == data;
      r := if stored == |data| then Done else WriteError(stored);
    }

    method Trim(blockNr: uint64, n: uint32) returns (r: Outcome)
      requires blockNr + n <= |disk| && Locked(blockNr, n) !! held
      modifies this
      ensures var op := Op.Trim(blockNr, n);
              Legal(zero, old(disk), op, r) && disk == Effect(zero, old(disk), op, r)
      ensures held == old(held)
    {
      var locks := LockRange(blockNr, n);
      var zeros := Repeat(zero, n);
      var stored := DeviceWrite(blockNr, zeros);
      UnlockRange(locks);
      assert zeros[..|zeros|] == zeros;
      r := if stored == n then Done else WriteError(stored);
    }

    method Read(blockNr: uint64, n: uint32) returns (r: Outcome)
      requires blockNr + n <= |disk| && Locked(blockNr, n) !! held
      modifies this
      ensures Legal(zero, old(disk), Op.Read(blockNr, n), r) && disk == old(disk)
      ensures held == old(held)
    {
      var locks := LockRange(blockNr, n);
      var data: seq<Block> := [];
      var ok := true;
      while ok && |data| < n
        invariant disk == old(disk) && held == old(held) + locks
        invariant |data| <= n && data == disk[blockNr..blockNr + |data|]
        invariant ok || |data| < n
        decreases ok, n - |data|
      {
        var block;
        ok, block := DeviceRead(blockNr + |data|);
        if ok {
          data := data + [block];
        }
      }
      UnlockRange(locks);
      r := if ok then OkRead(data) else ReadError;
    }

    /** Compare all blocks in turn, and only when all match write them all. */
    method CmpWrite(blockNr: uint64, dataWrite: seq<Block>, dataCompare: seq<Block>) returns (r: Outcome)
      requires |dataWrite| == |dataCompare| < TWO32 && blockNr + |dataWrite| <= |disk|
      requires Locked(blockNr, |dataWrite|) !! held
      modifies this
      ensures var op := Op.CmpWrite(blockNr, dataWrite, dataCompare);
              Legal(zero, old(disk), op, r) && disk == Effect(zero, old(disk), op, r)
      ensures held == old(held)
    {
      var n := |dataWrite|;
      var locks := LockRange(blockNr, n);
      r := Done;
      var i := 0;
      ghost var here := disk[blockNr..blockNr + n];
      while i < n && r == Done
        invariant i <= n && disk == old(disk) && held == old(held) + locks
        invariant r == Done ==> here[..i] == dataCompare[..i]
        invariant r == Done || r == ReadError || (r == Mismatch && here != dataCompare)
        decreases n - i
      {
        var ok, buffer := DeviceRead(blockNr + i);
        if !ok {
          r := ReadError;
        } else if buffer != dataCompare[i] {
          assert here[i] == buffer;
          r := Mismatch;
        }
        i := i + 1;
      }
      if r == Done {
        assert here[..n] == here && dataCompare[..n] == dataCompare;
        var stored := DeviceWrite(blockNr, dataWrite);
        assert dataWrite[..n] == dataWrite;
        if stored < n {
          r := WriteError(stored);
        }
      }
      UnlockRange(locks);
    }
  }
}

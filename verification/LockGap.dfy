/**
 The converse: an operation that stores a block without holding that block's mutex can break the
 atomicity of a compare-and-write of that block. On the file backend this concerns exactly writes
 of two or more blocks, and trims.
 */
module LockGap {
  import opened Bytes
  import opened RangeLocks
  import opened BackendOps
  import opened LockProtocol
  import opened LockLiveness
  import opened LockAtomicity

  /** `op` stores block `x` but does not hold its mutex. */
  predicate Unguarded(bk: Backend, op: Op, x: nat) {
    (op.Write? || op.Trim?) && op.Touches(x) && LockIndex(x) !in Order(bk, op)
  }

  lemma {:induction false} ScheduleAppend(bk: Backend, zero: Block, s: State, turns: seq<Turn>, more: seq<Turn>)
    requires StateOk(bk, s) && Schedule(bk, zero, s, turns) && Schedule(bk, zero, Run(bk, zero, s, turns), more)
    ensures Schedule(bk, zero, s, turns + more)
    ensures Run(bk, zero, s, turns + more) == Run(bk, zero, Run(bk, zero, s, turns), more)
    decreases |turns|
  {
    hide Next, Enabled, StateOk;
    if turns == [] {
      assert turns + more == more;
    } else {
      assert (turns + more)[1..] == turns[1..] + more;
      ScheduleAppend(bk, zero, Next(bk, zero, s, turns[0]), turns[1..], more);
    }
  }

  // --- thread 1 runs its operation while thread 0 keeps its one mutex

  /** The blocks a writing thread has stored so far, as its program counter says. */
  function StoredCount(op: Op, pc: Pc): nat {
    match pc
    case Storing(i) => i
    case Unlocking(_, _) => op.Count()
    case _ => 0
  }

  /** Thread 1 is busy with `op` on what was `disk`; thread 0 holds nothing `op` needs. */
  ghost predicate Midway(bk: Backend, zero: Block, op: Op, disk: seq<Block>, s: State) {
    && |s.threads| == 2 && LocksOk(bk, s)
    && s.threads[1].todo == [op] && s.threads[1].past == []
    && (op.Write? || op.Trim?) && op.Fits(|disk|)
    && Owned(bk, s.threads[0]) !! Elements(Order(bk, op))
    && !s.threads[1].pc.Checking?
    && (s.threads[1].pc.Unlocking? ==> s.threads[1].pc.outcome == Done)
    && StoredCount(op, s.threads[1].pc) <= op.Count()
    && s.disk == Splice(disk, op.lba, op.Payload(zero)[..StoredCount(op, s.threads[1].pc)])
  }

  /** Thread 1 is never blocked: a mutex it still needs is held by nobody. */
  lemma NotBlocked(bk: Backend, zero: Block, op: Op, disk: seq<Block>, s: State)
    requires StateOk(bk, s) && Midway(bk, zero, op, disk, s)
    ensures Enabled(bk, s, 1)
  {
    assert forall m :: m in s.held ==> m in OwnedByAll(bk, s.threads)[s.held[m]];
    assert Owned(bk, s.threads[1]) == Elements(OwnedInOrder(bk, s.threads[1]));
  }

  lemma StillMidway(bk: Backend, zero: Block, op: Op, disk: seq<Block>, s: State)
    requires StateOk(bk, s) && Midway(bk, zero, op, disk, s) && Enabled(bk, s, 1)
    ensures var s' := Next(bk, zero, s, Turn(1, true));
            && s'.threads[0] == s.threads[0]
            && (s'.threads[1].todo == [op] ==> Midway(bk, zero, op, disk, s'))
            && (s'.threads[1].todo != [op] ==>
                  && s'.threads[1] == Thread([], Locking(0), [Finished(op, Done)])
                  && s'.disk == Splice(disk, op.lba, op.Payload(zero)))
            && LocksOk(bk, s')
  {
    hide Order, LocksOk, Owned, Elements;
    StepKeepsLocks(bk, zero, s, Turn(1, true));
    var i := StoredCount(op, s.threads[1].pc);
    if i < op.Count() {
      SliceSnoc(op.Payload(zero), 0, i);
    } else {
      assert op.Payload(zero)[..i] == op.Payload(zero);
    }
  }

  lemma {:induction false} RunAlone(bk: Backend, zero: Block, op: Op, disk: seq<Block>, s: State) returns (turns: seq<Turn>)
    requires StateOk(bk, s) && Midway(bk, zero, op, disk, s)
    ensures Schedule(bk, zero, s, turns)
    ensures var s' := Run(bk, zero, s, turns);
            && |s'.threads| == 2 && LocksOk(bk, s') && s'.threads[0] == s.threads[0]
            && s'.threads[1] == Thread([], Locking(0), [Finished(op, Done)])
            && s'.disk == Splice(disk, op.lba, op.Payload(zero))
    decreases Rank(bk, |s.disk|, s.threads[1])
  {
    NotBlocked(bk, zero, op, disk, s);
    StillMidway(bk, zero, op, disk, s);
    StepShrinksRank(bk, s.threads[1], s.disk, true);
    var s1 := Next(bk, zero, s, Turn(1, true));
    if s1.threads[1].todo == [op] {
      var rest := RunAlone(bk, zero, op, disk, s1);
      turns := [Turn(1, true)] + rest;
      assert turns[1..] == rest;
    } else {
      turns := [Turn(1, true)];
      assert Run(bk, zero, s1, turns[1..]) == s1;
    }
  }

  // --- the schedule: compare, let the other operation through, store

  /** The compare-and-write of block `x` alone that expects `was` there and stores `z`. */
  function Single(x: nat, was: Block, z: Block): Op {
    CmpWrite(x, [z], [was])
  }

  lemma SingleOrder(bk: Backend, x: nat, was: Block, z: Block)
    requires x + 1 < TWO64
    ensures Order(bk, Single(x, was, z)) == [LockIndex(x)]
  {
    assert Locked(x, 1) == {LockIndex(x)};
    OnlyElement(LockOrder(x, 1), LockIndex(x));
  }

  lemma OnlyElement(r: seq<nat>, m: nat)
    requires StrictlyAscending(r) && forall y :: y in r <==> y == m
    ensures r == [m]
  {
    assert forall i :: 0 <= i < |r| ==> r[i] in r;
    assert m in r;
    if |r| > 1 {
      FirstTwoDiffer(r);
      assert false;
    }
  }

  lemma FirstTwoDiffer(r: seq<nat>)
    requires StrictlyAscending(r) && |r| > 1
    ensures r[0] < r[1]
  {}

  function Start(disk: seq<Block>, cw: Op, op: Op): State {
    State(disk, map[], [Thread([cw], Locking(0), []), Thread([op], Locking(0), [])])
  }

  /** `n` successful turns of thread 0. */
  function Times(n: nat): seq<Turn> {
    if n == 0 then [] else [Turn(0, true)] + Times(n - 1)
  }

  lemma OneMore(bk: Backend, zero: Block, s: State, n: nat)
    requires StateOk(bk, s) && Enabled(bk, s, 0) && Schedule(bk, zero, Next(bk, zero, s, Turn(0, true)), Times(n))
    ensures Schedule(bk, zero, s, Times(n + 1))
    ensures Run(bk, zero, s, Times(n + 1)) == Run(bk, zero, Next(bk, zero, s, Turn(0, true)), Times(n))
  {
    assert Times(n + 1)[1..] == Times(n);
  }

  function AfterStep(disk: seq<Block>, cw: Op, op: Op, x: nat, pc: Pc): State {
    State(disk, map[LockIndex(x) := 0], [Thread([cw], pc, []), Thread([op], Locking(0), [])])
  }

  /** Thread 0 takes its mutex, and reads the block it expects. */
  lemma Compare(bk: Backend, zero: Block, disk: seq<Block>, op: Op, x: nat, z: Block)
    requires op.Fits(|disk|) && Unguarded(bk, op, x) && |disk| < TWO64
    ensures var cw := Single(x, disk[x], z);
            var s := Start(disk, cw, op);
            && StateOk(bk, s) && Schedule(bk, zero, s, Times(3))
            && Run(bk, zero, s, Times(3)) == AfterStep(disk, cw, op, x, Checking([disk[x]]))
  {
    hide Order;
    var cw := Single(x, disk[x], z);
    SingleOrder(bk, x, disk[x], z);
    var s, s1 := Start(disk, cw, op), AfterStep(disk, cw, op, x, Locking(1));
    assert Next(bk, zero, s, Turn(0, true)) == s1;
    ReadExpected(bk, zero, disk, op, x, z);
    OneMore(bk, zero, s, 2);
  }

  lemma ReadExpected(bk: Backend, zero: Block, disk: seq<Block>, op: Op, x: nat, z: Block)
    requires op.Fits(|disk|) && op.Touches(x) && Order(bk, Single(x, disk[x], z)) == [LockIndex(x)]
    ensures var cw := Single(x, disk[x], z);
            var s1 := AfterStep(disk, cw, op, x, Locking(1));
            && StateOk(bk, s1) && Schedule(bk, zero, s1, Times(2))
            && Run(bk, zero, s1, Times(2)) == AfterStep(disk, cw, op, x, Checking([disk[x]]))
  {
    hide Order;
    var cw := Single(x, disk[x], z);
    StartReading(bk, zero, disk, cw, op, x);
    ReadMatches(bk, zero, disk, op, x, z);
    var s3 := AfterStep(disk, cw, op, x, Checking([disk[x]]));
    assert Schedule(bk, zero, s3, Times(0)) && Run(bk, zero, s3, Times(0)) == s3;
    OneMore(bk, zero, AfterStep(disk, cw, op, x, Checking([])), 0);
    OneMore(bk, zero, AfterStep(disk, cw, op, x, Locking(1)), 1);
  }

  lemma StartReading(bk: Backend, zero: Block, disk: seq<Block>, cw: Op, op: Op, x: nat)
    requires cw.CmpWrite? && cw.Fits(|disk|) && op.Fits(|disk|) && Order(bk, cw) == [LockIndex(x)]
    ensures var s := AfterStep(disk, cw, op, x, Locking(1));
            && StateOk(bk, s) && Enabled(bk, s, 0)
            && Next(bk, zero, s, Turn(0, true)) == AfterStep(disk, cw, op, x, Checking([]))
  {}

  lemma ReadMatches(bk: Backend, zero: Block, disk: seq<Block>, op: Op, x: nat, z: Block)
    requires x < |disk| && op.Fits(|disk|)
    ensures var cw := Single(x, disk[x], z);
            var s := AfterStep(disk, cw, op, x, Checking([]));
            && StateOk(bk, s) && Enabled(bk, s, 0)
            && Next(bk, zero, s, Turn(0, true)) == AfterStep(disk, cw, op, x, Checking([disk[x]]))
  {
    hide Order, LockIndex;
    hide Order;
    assert [] + [disk[x]] == [disk[x]];
  }

  /** Thread 0 frees its mutex and finishes. */
  lemma Release(bk: Backend, zero: Block, s: State, x: nat, was: Block, z: Block)
    requires |s.threads| == 2 && x < |s.disk| < TWO64 && StateOk(bk, s)
    requires s.threads[0] == Thread([Single(x, was, z)], Unlocking(0, Done), [])
    ensures Schedule(bk, zero, s, Times(2))
    ensures var s' := Run(bk, zero, s, Times(2));
            && s'.disk == s.disk
            && s'.threads == [Thread([], Locking(0), [Finished(Single(x, was, z), Done)]), s.threads[1]]
  {
    hide Order;
    var cw, t := Single(x, was, z), Turn(0, true);
    SingleOrder(bk, x, was, z);
    var s1 := Next(bk, zero, s, t);
    assert s1.threads[0] == Thread([cw], Unlocking(1, Done), []);
    var s2 := Next(bk, zero, s1, t);
    assert s2.threads[0] == Thread([], Locking(0), [Finished(cw, Done)]);
    assert Schedule(bk, zero, s2, Times(0)) && Run(bk, zero, s2, Times(0)) == s2;
    OneMore(bk, zero, s1, 0);
    OneMore(bk, zero, s, 1);
  }

  /** Thread 0 stores, frees its mutex and finishes, whatever happened to the block meanwhile. */
  lemma Store(bk: Backend, zero: Block, s: State, x: nat, was: Block, z: Block)
    requires |s.threads| == 2 && x < |s.disk| < TWO64 && StateOk(bk, s)
    requires s.threads[0] == Thread([Single(x, was, z)], Checking([was]), [])
    ensures Schedule(bk, zero, s, Times(5))
    ensures var s' := Run(bk, zero, s, Times(5));
            && s'.disk == s.disk[x := z]
            && s'.threads == [Thread([], Locking(0), [Finished(Single(x, was, z), Done)]), s.threads[1]]
  {
    hide Order;
    var cw, t := Single(x, was, z), Turn(0, true);
    var s1 := Next(bk, zero, s, t);
    assert s1.threads[0] == Thread([cw], Storing(0), []);
    var s2 := Next(bk, zero, s1, t);
    assert s2.threads[0] == Thread([cw], Storing(1), []) && s2.disk == s.disk[x := z];
    var s3 := Next(bk, zero, s2, t);
    assert s3.threads[0] == Thread([cw], Unlocking(0, Done), []);
    Release(bk, zero, s3, x, was, z);
    OneMore(bk, zero, s2, 2);
    OneMore(bk, zero, s1, 3);
    OneMore(bk, zero, s, 4);
  }

  // --- no order of the two operations explains the result

  lemma {:induction false} TwoThreadsCount(h: seq<Event>)
    requires forall e :: e in h ==> e.id < 2
    ensures |h| == |EventsOf(h, 0)| + |EventsOf(h, 1)|
  {
    if h != [] {
      TwoThreadsCount(h[..|h| - 1]);
      assert h[|h| - 1] in h;
    }
  }

  lemma EventsOfTwo(e1: Event, e2: Event, id: nat)
    ensures EventsOf([e1] + [e2], id) ==
            (if e1.id == id then [Finished(e1.op, e1.outcome)] else [])
            + (if e2.id == id then [Finished(e2.op, e2.outcome)] else [])
  {
    var h := [e1] + [e2];
    assert h[..|h| - 1] == [e1] && [e1][..|[e1]| - 1] == [];
    assert EventsOf([e1], id) == if e1.id == id then [Finished(e1.op, e1.outcome)] else [];
  }

  lemma ReplayTwo(zero: Block, disk: seq<Block>, e1: Event, e2: Event)
    requires e1.op.Fits(|disk|) && e2.op.Fits(|disk|)
    ensures Replay(zero, disk, [e1] + [e2]) ==
            if Legal(zero, disk, e1.op, e1.outcome)
               && Legal(zero, Effect(zero, disk, e1.op, e1.outcome), e2.op, e2.outcome)
            then Some(Effect(zero, Effect(zero, disk, e1.op, e1.outcome), e2.op, e2.outcome))
            else None
  {
    var h := [e1] + [e2];
    assert h[..|h| - 1] == [e1] && [e1][..|[e1]| - 1] == [];
    assert Replay(zero, disk, []) == Some(disk);
    assert Replay(zero, disk, [e1]) ==
           if Legal(zero, disk, e1.op, e1.outcome) then Some(Effect(zero, disk, e1.op, e1.outcome)) else None;
  }

  lemma EitherOrder(h: seq<Event>, f0: Finished, f1: Finished)
    requires forall e :: e in h ==> e.id < 2
    requires EventsOf(h, 0) == [f0] && EventsOf(h, 1) == [f1]
    ensures var e0, e1 := Event(0, f0.op, f0.outcome), Event(1, f1.op, f1.outcome);
            h == [e0] + [e1] || h == [e1] + [e0]
  {
    TwoThreadsCount(h);
    var a, b := h[0], h[1];
    assert h == [a] + [b] && a in h && b in h;
    EventsOfTwo(a, b, 0);
    EventsOfTwo(a, b, 1);
    assert [f0][0] == f0 && [f1][0] == f1;
  }

  /** Compare-and-write first: then the other operation's block is what remains. */
  lemma StoreFirst(zero: Block, disk: seq<Block>, op: Op, x: nat, z: Block)
    requires (op.Write? || op.Trim?) && op.Touches(x) && op.Fits(|disk|)
    ensures var r := Replay(zero, disk, [Event(0, Single(x, disk[x], z), Done)] + [Event(1, op, Done)]);
            r.Some? ==> r.value[x] == op.Payload(zero)[x - op.lba]
  {
    ReplayTwo(zero, disk, Event(0, Single(x, disk[x], z), Done), Event(1, op, Done));
  }

  /** Compare-and-write last: then it does not find what it expects. */
  lemma StoreLast(zero: Block, disk: seq<Block>, op: Op, x: nat, z: Block)
    requires (op.Write? || op.Trim?) && op.Touches(x) && op.Fits(|disk|)
    requires disk[x] != op.Payload(zero)[x - op.lba]
    ensures Replay(zero, disk, [Event(1, op, Done)] + [Event(0, Single(x, disk[x], z), Done)]).None?
  {
    var cw, d1 := Single(x, disk[x], z), Effect(zero, disk, op, Done);
    ReplayTwo(zero, disk, Event(1, op, Done), Event(0, cw, Done));
    assert d1[x] == op.Payload(zero)[x - op.lba];
    assert cw.expected[0] == disk[x] && d1[x..x + 1][0] == d1[x];
  }

  lemma NoHistory(zero: Block, disk: seq<Block>, op: Op, x: nat, z: Block, h: seq<Event>)
    requires (op.Write? || op.Trim?) && op.Touches(x) && op.Fits(|disk|)
    requires disk[x] != op.Payload(zero)[x - op.lba] && z != op.Payload(zero)[x - op.lba]
    requires forall e :: e in h ==> e.id < 2
    requires EventsOf(h, 0) == [Finished(Single(x, disk[x], z), Done)] && EventsOf(h, 1) == [Finished(op, Done)]
    ensures Replay(zero, disk, h) != Some(Splice(disk, op.lba, op.Payload(zero))[x := z])
  {
    var cw := Single(x, disk[x], z);
    EitherOrder(h, Finished(cw, Done), Finished(op, Done));
    var e0, e1 := Event(0, cw, Done), Event(1, op, Done);
    if h == [e0] + [e1] {
      StoreFirst(zero, disk, op, x, z);
    } else {
      StoreLast(zero, disk, op, x, z);
    }
  }

  lemma BetweenLocks(bk: Backend, cw: Op, op: Op, x: nat, s: State)
    requires Order(bk, cw) == [LockIndex(x)] && Unguarded(bk, op, x)
    requires s.held == map[LockIndex(x) := 0] && |s.threads| == 2
    requires s.threads[0].todo == [cw] && s.threads[0].pc.Checking? && s.threads[1] == Thread([op], Locking(0), [])
    ensures LocksOk(bk, s) && Owned(bk, s.threads[0]) !! Elements(Order(bk, op))
  {
    hide Order, LockIndex;
    assert OwnedInOrder(bk, s.threads[1]) == [];
    assert Owned(bk, s.threads[0]) == {LockIndex(x)} && Owned(bk, s.threads[1]) == {};
  }

  /** Both operations succeed, the compare-and-write storing last. */
  lemma BadSchedule(bk: Backend, zero: Block, disk: seq<Block>, op: Op, x: nat, z: Block) returns (turns: seq<Turn>)
    requires op.Fits(|disk|) && Unguarded(bk, op, x) && |disk| < TWO64
    ensures var cw := Single(x, disk[x], z);
            var s := Start(disk, cw, op);
            && StateOk(bk, s) && Schedule(bk, zero, s, turns)
            && var s' := Run(bk, zero, s, turns);
               && s'.disk == Splice(disk, op.lba, op.Payload(zero))[x := z]
               && s'.threads == [Thread([], Locking(0), [Finished(cw, Done)]), Thread([], Locking(0), [Finished(op, Done)])]
  {
    var cw := Single(x, disk[x], z);
    var s := Start(disk, cw, op);
    SingleOrder(bk, x, disk[x], z);
    Compare(bk, zero, disk, op, x, z);
    var s1 := Run(bk, zero, s, Times(3));
    BetweenLocks(bk, cw, op, x, s1);
    assert Splice(disk, op.lba, op.Payload(zero)[..0]) == disk;
    var middle := RunAlone(bk, zero, op, disk, s1);
    var s2 := Run(bk, zero, s1, middle);
    Store(bk, zero, s2, x, disk[x], z);
    ScheduleAppend(bk, zero, s1, middle, Times(5));
    ScheduleAppend(bk, zero, s, Times(3), middle + Times(5));
    turns := Times(3) + (middle + Times(5));
  }

  /**
   Main result. For every operation that stores some block unguarded, and every disk on which it
   changes that block, there are a single-block compare-and-write and a schedule in which both
   operations succeed and yet no sequential history yields the resulting disk.
   */
  lemma UnguardedBreaksAtomicity(bk: Backend, zero: Block, disk: seq<Block>, op: Op, x: nat, z: Block)
    returns (s: State, turns: seq<Turn>)
    requires op.Fits(|disk|) && Unguarded(bk, op, x) && |disk| < TWO64
    requires disk[x] != op.Payload(zero)[x - op.lba] && z != op.Payload(zero)[x - op.lba]
    ensures var cw := Single(x, disk[x], z);
            && Covers(bk, cw) && Initial(s, disk, [[cw], [op]])
            && StateOk(bk, s) && Schedule(bk, zero, s, turns)
            && AllFinished(Run(bk, zero, s, turns))
            && Run(bk, zero, s, turns).threads[0].past == [Finished(cw, Done)]
            && Run(bk, zero, s, turns).threads[1].past == [Finished(op, Done)]
            && forall h: seq<Event> ::
                 (forall e :: e in h ==> e.id < 2)
                 && EventsOf(h, 0) == [Finished(cw, Done)] && EventsOf(h, 1) == [Finished(op, Done)]
                 ==> Replay(zero, disk, h) != Some(Run(bk, zero, s, turns).disk)
  {
    hide Replay, EventsOf, Splice, Run, Schedule, StateOk;
    var cw := Single(x, disk[x], z);
    SingleOrder(bk, x, disk[x], z);
    s := Start(disk, cw, op);
    turns := BadSchedule(bk, zero, disk, op, x, z);
    forall h: seq<Event> | (forall e :: e in h ==> e.id < 2)
                           && EventsOf(h, 0) == [Finished(cw, Done)] && EventsOf(h, 1) == [Finished(op, Done)]
      ensures Replay(zero, disk, h) != Some(Splice(disk, op.lba, op.Payload(zero))[x := z])
    {
      NoHistory(zero, disk, op, x, z, h);
    }
  }

  /** On the file backend every write of two or more blocks, and every non-empty trim, has such a block. */
  lemma FileGap(op: Op) returns (x: nat)
    requires (op.Write? && op.Count() >= 2) || (op.Trim? && op.Count() >= 1)
    ensures Unguarded(File, op, x)
  {
    FileCoversIff(op);
    x :| op.Touches(x) && LockIndex(x) !in Order(File, op);
  }
}

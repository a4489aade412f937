/**
 When every operation locks its full range, every schedule has the same results and the same
 disk as performing the operations one after the other, each as one indivisible step.
 */
module LockAtomicity {
  import opened Bytes
  import opened RangeLocks
  import opened BackendOps
  import opened LockProtocol
  import opened LockLiveness

  // --- sequential histories: the specification

  datatype Event = Event(id: nat, op: Op, outcome: Outcome)

  /**
   The disk after performing the operations of `h` one after the other, each as one indivisible
   step; `None` when some operation could not have returned the outcome that `h` records.
   */
  function Replay(zero: Block, disk: seq<Block>, h: seq<Event>): (r: Option<seq<Block>>)
    ensures r.Some? ==> |r.value| == |disk|
  {
    if h == [] then Some(disk)
    else
      var before, e := Replay(zero, disk, h[..|h| - 1]), h[|h| - 1];
      if before.Some? && e.op.Fits(|disk|) && Legal(zero, before.value, e.op, e.outcome)
      then Some(Effect(zero, before.value, e.op, e.outcome))
      else None
  }

  /** The operations of thread `id` in `h`, with their outcomes. */
  function EventsOf(h: seq<Event>, id: nat): seq<Finished> {
    if h == [] then []
    else
      var e := h[|h| - 1];
      EventsOf(h[..|h| - 1], id) + if e.id == id then [Finished(e.op, e.outcome)] else []
  }

  // --- the history of a schedule: an operation takes effect when its outcome is decided

  /** What a step of thread `id` adds to the history. */
  function Commit(bk: Backend, id: nat, t: Thread, disk: seq<Block>, works: bool): seq<Event>
    requires WellFormed(bk, |disk|, t) && t.todo != []
  {
    var t' := Moved(bk, t, disk, works);
    if !t.pc.Unlocking? && t'.pc.Unlocking? then [Event(id, t.todo[0], t'.pc.outcome)] else []
  }

  function History(bk: Backend, zero: Block, s: State, turns: seq<Turn>): seq<Event>
    requires StateOk(bk, s) && Schedule(bk, zero, s, turns)
    decreases |turns|
  {
    if turns == [] then []
    else Commit(bk, turns[0].id, s.threads[turns[0].id], s.disk, turns[0].works)
         + History(bk, zero, Next(bk, zero, s, turns[0]), turns[1..])
  }

  /** The operations of a thread whose outcome is decided: the finished ones and the one being unlocked. */
  function Decided(t: Thread): seq<Finished> {
    t.past + if t.todo != [] && t.pc.Unlocking? then [Finished(t.todo[0], t.pc.outcome)] else []
  }

  // --- full-range locking

  /** `op` holds the mutex of every block it touches. */
  ghost predicate Covers(bk: Backend, op: Op) {
    forall x :: op.Touches(x) ==> LockIndex(x) in Order(bk, op)
  }

  ghost predicate AllCovered(bk: Backend, s: State) {
    forall id, i :: 0 <= id < |s.threads| && 0 <= i < |s.threads[id].todo| ==> Covers(bk, s.threads[id].todo[i])
  }

  /** The thread holds all its mutexes and its outcome is still open. */
  predicate Working(t: Thread) {
    t.todo != [] && (t.pc.Checking? || t.pc.Storing?)
  }

  lemma WorkingOwns(bk: Backend, t: Thread, x: nat)
    requires Working(t) && t.todo[0].Touches(x) && Covers(bk, t.todo[0])
    ensures LockIndex(x) in Owned(bk, t)
  {
    assert OwnedInOrder(bk, t) == Order(bk, t.todo[0]);
  }

  lemma OneOwner(held: map<nat, nat>, owned: seq<set<nat>>, id1: nat, id2: nat, m: nat)
    requires Consistent(held, owned) && id1 < |owned| && id2 < |owned|
    requires m in owned[id1] && m in owned[id2]
    ensures id1 == id2
  {
    assert Recorded(held, owned[id1], id1) && Recorded(held, owned[id2], id2);
  }

  /** No two working threads touch the same block. */
  lemma Exclusive(bk: Backend, s: State, id1: nat, id2: nat, x: nat)
    requires LocksOk(bk, s) && AllCovered(bk, s)
    requires id1 < |s.threads| && id2 < |s.threads|
    requires Working(s.threads[id1]) && s.threads[id1].todo[0].Touches(x)
    requires Working(s.threads[id2]) && s.threads[id2].todo[0].Touches(x)
    ensures id1 == id2
  {
    WorkingOwns(bk, s.threads[id1], x);
    WorkingOwns(bk, s.threads[id2], x);
    OneOwner(s.held, OwnedByAll(bk, s.threads), id1, id2, LockIndex(x));
  }

  // --- the invariant: how the real disk relates to the disk of the history

  /** Block `x` has been overwritten by the operation thread `t` is still busy with. */
  predicate Overwritten(t: Thread, x: nat) {
    t.todo != [] && t.pc.Storing? && t.todo[0].lba <= x < t.todo[0].lba + t.pc.i
  }

  /** What thread `t` has seen and stored so far, relative to the history's disk `a`. */
  predicate Knows(zero: Block, t: Thread, disk: seq<Block>, a: seq<Block>) {
    |a| == |disk| &&
    (t.todo != [] && t.todo[0].Fits(|disk|) ==>
       var op := t.todo[0];
       match t.pc
       case Checking(seen) =>
         && |seen| <= op.Count()
         && seen == a[op.lba..op.lba + |seen|]
         && (op.CmpWrite? ==> seen == op.expected[..|seen|])
       case Storing(i) =>
         && !op.Read? && i <= op.Count()
         && disk[op.lba..op.lba + i] == op.Payload(zero)[..i]
         && (op.CmpWrite? ==> a[op.lba..op.lba + op.Count()] == op.expected)
       case _ => true)
  }

  ghost predicate Matches(zero: Block, s: State, a: seq<Block>) {
    && |a| == |s.disk|
    && (forall id :: 0 <= id < |s.threads| ==> Knows(zero, s.threads[id], s.disk, a))
    && (forall x {:trigger a[x]} :: 0 <= x < |a| ==>
          a[x] == s.disk[x] || exists id :: 0 <= id < |s.threads| && Overwritten(s.threads[id], x))
  }

  /** A block a working thread touches, and has not itself overwritten, is as the history has it. */
  lemma SeesHistory(bk: Backend, zero: Block, s: State, a: seq<Block>, id: nat, x: nat)
    requires StateOk(bk, s) && LocksOk(bk, s) && AllCovered(bk, s) && Matches(zero, s, a)
    requires id < |s.threads| && Working(s.threads[id]) && s.threads[id].todo[0].Touches(x)
    requires !Overwritten(s.threads[id], x)
    ensures x < |a| && a[x] == s.disk[x]
  {
    assert s.threads[id].todo[0].Fits(|s.disk|);
    if other :| 0 <= other < |s.threads| && Overwritten(s.threads[other], x) {
      Exclusive(bk, s, id, other, x);
    }
  }

  // --- one step, seen from the thread that moves

  lemma SliceSnoc<T>(s: seq<T>, lo: nat, hi: nat)
    requires lo <= hi < |s|
    ensures s[lo..hi + 1] == s[lo..hi] + [s[hi]]
  {}

  predicate Stores(t: Thread, works: bool) {
    t.todo != [] && t.pc.Storing? && t.pc.i < t.todo[0].Count() && works
  }

  /** A step that neither stores nor decides an outcome. */
  lemma QuietMover(bk: Backend, zero: Block, id: nat, t: Thread, disk: seq<Block>, a: seq<Block>, works: bool)
    requires WellFormed(bk, |disk|, t) && t.todo != [] && Knows(zero, t, disk, a)
    requires Commit(bk, id, t, disk, works) == [] && !Stores(t, works)
    requires t.pc.Checking? && |t.pc.seen| < t.todo[0].Count() ==>
               a[t.todo[0].lba + |t.pc.seen|] == disk[t.todo[0].lba + |t.pc.seen|]
    ensures Knows(zero, Moved(bk, t, disk, works), disk, a)
    ensures forall x :: !Overwritten(t, x) && !Overwritten(Moved(bk, t, disk, works), x)
  {
    var op := t.todo[0];
    if t.pc.Checking? {
      var k := |t.pc.seen|;
      if k < op.Count() {
        SliceSnoc(a, op.lba, op.lba + k);
        if op.CmpWrite? {
          SliceSnoc(op.expected, 0, k);
        }
      }
    }
  }

  /** A step that stores a block. */
  lemma StoringMover(bk: Backend, zero: Block, t: Thread, disk: seq<Block>, a: seq<Block>)
    requires WellFormed(bk, |disk|, t) && Stores(t, true) && Knows(zero, t, disk, a)
    ensures Knows(zero, Moved(bk, t, disk, true), DiskAfter(bk, zero, t, disk, true), a)
  {
    var op, i := t.todo[0], t.pc.i;
    var disk' := DiskAfter(bk, zero, t, disk, true);
    SliceSnoc(disk', op.lba, op.lba + i);
    SliceSnoc(op.Payload(zero), 0, i);
    assert disk'[op.lba..op.lba + i] == disk[op.lba..op.lba + i];
  }

  lemma StoredPrefix(zero: Block, op: Op, disk: seq<Block>, i: nat)
    requires op.Fits(|disk|) && !op.Read? && i <= op.Count()
    requires disk[op.lba..op.lba + i] == op.Payload(zero)[..i]
    ensures forall x :: op.lba <= x < op.lba + i ==> disk[x] == op.Payload(zero)[x - op.lba]
  {
    forall x | op.lba <= x < op.lba + i ensures disk[x] == op.Payload(zero)[x - op.lba] {
      assert disk[x] == disk[op.lba..op.lba + i][x - op.lba];
    }
  }

  /** A step that decides the outcome: legal for the history's disk, which then agrees with the real one. */
  lemma CommittingMover(bk: Backend, zero: Block, id: nat, t: Thread, disk: seq<Block>, a: seq<Block>, works: bool)
    requires WellFormed(bk, |disk|, t) && t.todo != [] && Knows(zero, t, disk, a)
    requires Commit(bk, id, t, disk, works) != []
    requires forall x: nat :: t.todo[0].Touches(x) && !Overwritten(t, x) ==> a[x] == disk[x]
    ensures var e := Commit(bk, id, t, disk, works)[0];
            && Legal(zero, a, e.op, e.outcome)
            && forall x: nat :: e.op.Touches(x) ==> Effect(zero, a, e.op, e.outcome)[x] == disk[x]
  {
    if t.pc.Storing? {
      StoredPrefix(zero, t.todo[0], disk, t.pc.i);
    } else if t.pc.Checking? && |t.pc.seen| < t.todo[0].Count() {
      var op := t.todo[0];
      assert a[op.lba..op.lba + op.Count()][|t.pc.seen|] == disk[op.lba + |t.pc.seen|];
    }
  }

  /** What a thread knows depends only on the blocks it touches while it works. */
  lemma KnowsKept(zero: Block, t: Thread, disk: seq<Block>, disk': seq<Block>, a: seq<Block>, a': seq<Block>)
    requires Knows(zero, t, disk, a) && |disk'| == |disk| && |a'| == |a|
    requires forall x :: 0 <= x < |disk| && Working(t) && t.todo[0].Touches(x) ==> disk'[x] == disk[x] && a'[x] == a[x]
    ensures Knows(zero, t, disk', a')
  {
    if Working(t) && t.todo[0].Fits(|disk|) {
      var op := t.todo[0];
      var hi := if t.pc.Checking? then op.lba + |t.pc.seen| else op.lba + op.Count();
      assert a'[op.lba..hi] == a[op.lba..hi];
      if t.pc.Storing? {
        assert disk'[op.lba..op.lba + t.pc.i] == disk[op.lba..op.lba + t.pc.i];
      }
    }
  }

  // --- one step, seen from the whole state

  /** The history's disk after a step: the committed operation, if there is one, takes effect. */
  function HistoryDisk(zero: Block, a: seq<Block>, c: seq<Event>): Option<seq<Block>> {
    if c == [] then Some(a)
    else if c[0].op.Fits(|a|) && Legal(zero, a, c[0].op, c[0].outcome)
    then Some(Effect(zero, a, c[0].op, c[0].outcome))
    else None
  }

  /** The other threads do not notice a step that changes only blocks its own thread may work on. */
  lemma OthersKnow(bk: Backend, zero: Block, s: State, a: seq<Block>, id: nat, disk': seq<Block>, a': seq<Block>)
    requires StateOk(bk, s) && LocksOk(bk, s) && AllCovered(bk, s) && Matches(zero, s, a)
    requires id < |s.threads| && |disk'| == |s.disk| && |a'| == |a|
    requires forall x :: 0 <= x < |a| && (disk'[x] != s.disk[x] || a'[x] != a[x]) ==>
               Working(s.threads[id]) && s.threads[id].todo[0].Touches(x)
    ensures forall other :: 0 <= other < |s.threads| && other != id ==> Knows(zero, s.threads[other], disk', a')
  {
    forall other | 0 <= other < |s.threads| && other != id
      ensures Knows(zero, s.threads[other], disk', a')
    {
      var u := s.threads[other];
      forall x | 0 <= x < |s.disk| && Working(u) && u.todo[0].Touches(x)
        ensures disk'[x] == s.disk[x] && a'[x] == a[x]
      {
        if disk'[x] != s.disk[x] || a'[x] != a[x] {
          Exclusive(bk, s, id, other, x);
        }
      }
      KnowsKept(zero, u, s.disk, disk', a, a');
    }
  }

  /** The blocks that differ between the two disks stay accounted for. */
  lemma DifferencesKept(s: State, s': State, id: nat, a: seq<Block>, a': seq<Block>)
    requires id < |s.threads| == |s'.threads| && |a| == |a'| == |s.disk| == |s'.disk|
    requires forall i :: 0 <= i < |s.threads| && i != id ==> s'.threads[i] == s.threads[i]
    requires forall x :: 0 <= x < |a| ==>
               a[x] == s.disk[x] || exists i :: 0 <= i < |s.threads| && Overwritten(s.threads[i], x)
    requires forall x :: 0 <= x < |a| && (Overwritten(s.threads[id], x) || a'[x] != a[x] || s'.disk[x] != s.disk[x])
               ==> a'[x] == s'.disk[x] || Overwritten(s'.threads[id], x)
    ensures forall x :: 0 <= x < |a| ==>
              a'[x] == s'.disk[x] || exists i :: 0 <= i < |s'.threads| && Overwritten(s'.threads[i], x)
  {
    forall x | 0 <= x < |a| && a'[x] != s'.disk[x]
      ensures exists i :: 0 <= i < |s'.threads| && Overwritten(s'.threads[i], x)
    {
      if a[x] == s.disk[x] {
        assert Overwritten(s'.threads[id], x);
      } else {
        var i :| 0 <= i < |s.threads| && Overwritten(s.threads[i], x);
        if i == id {
          assert Overwritten(s'.threads[id], x);
        } else {
          assert Overwritten(s'.threads[i], x);
        }
      }
    }
  }

  lemma StoreMatches(bk: Backend, zero: Block, s: State, a: seq<Block>, turn: Turn)
    requires StateOk(bk, s) && LocksOk(bk, s) && AllCovered(bk, s) && Matches(zero, s, a)
    requires Enabled(bk, s, turn.id)
    requires Stores(s.threads[turn.id], turn.works)
    ensures Matches(zero, Next(bk, zero, s, turn), a)
  {
    hide Order;
    var s' := Next(bk, zero, s, turn);
    StoringMover(bk, zero, s.threads[turn.id], s.disk, a);
    OthersKnow(bk, zero, s, a, turn.id, s'.disk, a);
    DifferencesKept(s, s', turn.id, a, a);
  }

  lemma QuietMatches(bk: Backend, zero: Block, s: State, a: seq<Block>, turn: Turn)
    requires StateOk(bk, s) && LocksOk(bk, s) && AllCovered(bk, s) && Matches(zero, s, a)
    requires Enabled(bk, s, turn.id)
    requires !Stores(s.threads[turn.id], turn.works)
    requires Commit(bk, turn.id, s.threads[turn.id], s.disk, turn.works) == []
    ensures Matches(zero, Next(bk, zero, s, turn), a)
  {
    hide Order;
    var id, t := turn.id, s.threads[turn.id];
    var s' := Next(bk, zero, s, turn);
    if t.pc.Checking? && |t.pc.seen| < t.todo[0].Count() {
      SeesHistory(bk, zero, s, a, id, t.todo[0].lba + |t.pc.seen|);
    }
    QuietMover(bk, zero, id, t, s.disk, a, turn.works);
    OthersKnow(bk, zero, s, a, id, s'.disk, a);
    DifferencesKept(s, s', id, a, a);
  }

  lemma CommitMatches(bk: Backend, zero: Block, s: State, a: seq<Block>, turn: Turn)
    requires StateOk(bk, s) && LocksOk(bk, s) && AllCovered(bk, s) && Matches(zero, s, a)
    requires Enabled(bk, s, turn.id)
    requires Commit(bk, turn.id, s.threads[turn.id], s.disk, turn.works) != []
    ensures var e := Commit(bk, turn.id, s.threads[turn.id], s.disk, turn.works)[0];
            && e.op.Fits(|a|) && Legal(zero, a, e.op, e.outcome)
            && Matches(zero, Next(bk, zero, s, turn), Effect(zero, a, e.op, e.outcome))
  {
    hide Order;
    var id, t := turn.id, s.threads[turn.id];
    var e := Commit(bk, id, t, s.disk, turn.works)[0];
    var s' := Next(bk, zero, s, turn);
    forall x: nat | t.todo[0].Touches(x) && !Overwritten(t, x) ensures a[x] == s.disk[x] {
      SeesHistory(bk, zero, s, a, id, x);
    }
    CommittingMover(bk, zero, id, t, s.disk, a, turn.works);
    var a' := Effect(zero, a, e.op, e.outcome);
    OthersKnow(bk, zero, s, a, id, s'.disk, a');
    DifferencesKept(s, s', id, a, a');
  }

  lemma StepMatches(bk: Backend, zero: Block, s: State, a: seq<Block>, turn: Turn)
    requires StateOk(bk, s) && LocksOk(bk, s) && AllCovered(bk, s) && Matches(zero, s, a)
    requires Enabled(bk, s, turn.id)
    ensures var a' := HistoryDisk(zero, a, Commit(bk, turn.id, s.threads[turn.id], s.disk, turn.works));
            a'.Some? && Matches(zero, Next(bk, zero, s, turn), a'.value)
  {
    if Commit(bk, turn.id, s.threads[turn.id], s.disk, turn.works) != [] {
      CommitMatches(bk, zero, s, a, turn);
    } else if Stores(s.threads[turn.id], turn.works) {
      StoreMatches(bk, zero, s, a, turn);
    } else {
      QuietMatches(bk, zero, s, a, turn);
    }
  }

  // --- whole schedules

  /** The history so far is legal, gives every thread its decided outcomes, and matches the disk. */
  ghost predicate Explains(zero: Block, disk: seq<Block>, h: seq<Event>, s: State) {
    && Replay(zero, disk, h).Some?
    && Matches(zero, s, Replay(zero, disk, h).value)
    && forall id :: 0 <= id < |s.threads| ==> EventsOf(h, id) == Decided(s.threads[id])
  }

  lemma StepDecides(bk: Backend, id: nat, t: Thread, disk: seq<Block>, works: bool, h: seq<Event>)
    requires WellFormed(bk, |disk|, t) && t.todo != []
    ensures var c := Commit(bk, id, t, disk, works);
            && EventsOf(h + c, id) == EventsOf(h, id) + Decided(Moved(bk, t, disk, works))[|Decided(t)|..]
            && Decided(t) <= Decided(Moved(bk, t, disk, works))
            && forall other: nat :: other != id ==> EventsOf(h + c, other) == EventsOf(h, other)
  {
    var c := Commit(bk, id, t, disk, works);
    if c == [] {
      assert h + c == h;
    } else {
      assert (h + c)[..|h|] == h;
    }
  }

  lemma ReplayCommit(zero: Block, disk: seq<Block>, h: seq<Event>, c: seq<Event>)
    requires Replay(zero, disk, h).Some? && |c| <= 1
    ensures Replay(zero, disk, h + c) == HistoryDisk(zero, Replay(zero, disk, h).value, c)
  {
    if c == [] {
      assert h + c == h;
    } else {
      assert (h + c)[..|h|] == h;
    }
  }

  lemma EventsFollow(bk: Backend, zero: Block, h: seq<Event>, s: State, turn: Turn, id: nat)
    requires StateOk(bk, s) && Enabled(bk, s, turn.id) && id < |s.threads|
    requires EventsOf(h, id) == Decided(s.threads[id])
    ensures EventsOf(h + Commit(bk, turn.id, s.threads[turn.id], s.disk, turn.works), id)
            == Decided(Next(bk, zero, s, turn).threads[id])
  {
    StepDecides(bk, turn.id, s.threads[turn.id], s.disk, turn.works, h);
  }

  lemma StepKeepsCover(bk: Backend, zero: Block, s: State, turn: Turn)
    requires StateOk(bk, s) && AllCovered(bk, s) && Enabled(bk, s, turn.id)
    ensures AllCovered(bk, Next(bk, zero, s, turn))
  {
    var s' := Next(bk, zero, s, turn);
    forall id, i | 0 <= id < |s'.threads| && 0 <= i < |s'.threads[id].todo|
      ensures Covers(bk, s'.threads[id].todo[i])
    {
      var j := i + |s.threads[id].todo| - |s'.threads[id].todo|;
      assert s'.threads[id].todo[i] == s.threads[id].todo[j];
    }
  }

  // (`Invariant(...) == true` below keeps the verifier from proving the parts of the invariant separately.)
  ghost predicate Invariant(bk: Backend, zero: Block, disk: seq<Block>, h: seq<Event>, s: State) {
    LocksOk(bk, s) && AllCovered(bk, s) && Explains(zero, disk, h, s)
  }

  lemma StepInvariant(bk: Backend, zero: Block, disk: seq<Block>, h: seq<Event>, s: State, turn: Turn)
    returns (c: seq<Event>, s1: State)
    requires StateOk(bk, s) && Invariant(bk, zero, disk, h, s) == true && Enabled(bk, s, turn.id)
    ensures c == Commit(bk, turn.id, s.threads[turn.id], s.disk, turn.works) && s1 == Next(bk, zero, s, turn)
    ensures Invariant(bk, zero, disk, h + c, s1) == true
  {
    c, s1 := Commit(bk, turn.id, s.threads[turn.id], s.disk, turn.works), Next(bk, zero, s, turn);
    StepKeepsLocks(bk, zero, s, turn);
    StepKeepsCover(bk, zero, s, turn);
    StepMatches(bk, zero, s, Replay(zero, disk, h).value, turn);
    ReplayCommit(zero, disk, h, c);
    forall id | 0 <= id < |s.threads| ensures EventsOf(h + c, id) == Decided(s1.threads[id]) {
      EventsFollow(bk, zero, h, s, turn, id);
    }
  }

  /** `Run` and `History` in one pass, extending the history `h`. */
  function Execute(bk: Backend, zero: Block, h: seq<Event>, s: State, turns: seq<Turn>): (seq<Event>, State)
    requires StateOk(bk, s) && Schedule(bk, zero, s, turns)
    decreases |turns|
  {
    if turns == [] then (h, s)
    else
      var c := Commit(bk, turns[0].id, s.threads[turns[0].id], s.disk, turns[0].works);
      Execute(bk, zero, h + c, Next(bk, zero, s, turns[0]), turns[1..])
  }

  lemma {:induction false} ExecuteSplits(bk: Backend, zero: Block, h: seq<Event>, s: State, turns: seq<Turn>)
    requires StateOk(bk, s) && Schedule(bk, zero, s, turns)
    ensures Execute(bk, zero, h, s, turns) == (h + History(bk, zero, s, turns), Run(bk, zero, s, turns))
    decreases |turns|
  {
    if turns == [] {
      assert h + [] == h;
    } else {
      var c := Commit(bk, turns[0].id, s.threads[turns[0].id], s.disk, turns[0].works);
      var s1 := Next(bk, zero, s, turns[0]);
      ExecuteSplits(bk, zero, h + c, s1, turns[1..]);
      assert (h + c) + History(bk, zero, s1, turns[1..]) == h + (c + History(bk, zero, s1, turns[1..]));
    }
  }

  lemma {:induction false} RunInvariant(bk: Backend, zero: Block, disk: seq<Block>, h: seq<Event>, s: State, turns: seq<Turn>)
    requires StateOk(bk, s) && Invariant(bk, zero, disk, h, s) == true && Schedule(bk, zero, s, turns)
    ensures var (h', s') := Execute(bk, zero, h, s, turns);
            Invariant(bk, zero, disk, h', s') == true
    decreases |turns|
  {
    if turns != [] {
      var c, s1 := StepInvariant(bk, zero, disk, h, s, turns[0]);
      RunInvariant(bk, zero, disk, h + c, s1, turns[1..]);
    }
  }

  lemma InitialInvariant(bk: Backend, zero: Block, s: State, disk: seq<Block>, programs: seq<seq<Op>>)
    requires Initial(s, disk, programs) && StateOk(bk, s)
    requires forall id, i :: 0 <= id < |programs| && 0 <= i < |programs[id]| ==> Covers(bk, programs[id][i])
    ensures Invariant(bk, zero, disk, [], s)
  {
    InitialLocksOk(bk, s, disk, programs);
  }

  lemma RunExplained(bk: Backend, zero: Block, s: State, disk: seq<Block>, programs: seq<seq<Op>>, turns: seq<Turn>)
    requires Initial(s, disk, programs) && StateOk(bk, s) && Schedule(bk, zero, s, turns)
    requires forall id, i :: 0 <= id < |programs| && 0 <= i < |programs[id]| ==> Covers(bk, programs[id][i])
    ensures Explains(zero, disk, History(bk, zero, s, turns), Run(bk, zero, s, turns)) == true
  {
    InitialInvariant(bk, zero, s, disk, programs);
    RunInvariant(bk, zero, disk, [], s, turns);
    ExecuteSplits(bk, zero, [], s, turns);
    assert [] + History(bk, zero, s, turns) == History(bk, zero, s, turns);
  }

  /** With no thread left at work, the two disks agree everywhere. */
  lemma FinishedMatches(zero: Block, s: State, a: seq<Block>)
    requires Matches(zero, s, a) && AllFinished(s)
    ensures a == s.disk
  {
    forall x | 0 <= x < |a| ensures a[x] == s.disk[x] {
      if id :| 0 <= id < |s.threads| && Overwritten(s.threads[id], x) {
        assert false;
      }
    }
  }

  /** A thread's finished operations followed by those it still has to do. */
  function Program(t: Thread): seq<Op> {
    seq(|t.past|, i requires 0 <= i < |t.past| => t.past[i].op) + t.todo
  }

  lemma {:induction false} RunKeepsPrograms(bk: Backend, zero: Block, s: State, turns: seq<Turn>, id: nat)
    requires StateOk(bk, s) && Schedule(bk, zero, s, turns) && id < |s.threads|
    ensures Program(Run(bk, zero, s, turns).threads[id]) == Program(s.threads[id])
    decreases |turns|
  {
    if turns != [] {
      var s1 := Next(bk, zero, s, turns[0]);
      assert Program(s1.threads[id]) == Program(s.threads[id]);
      RunKeepsPrograms(bk, zero, s1, turns[1..], id);
    }
  }

  lemma ProgramsKept(bk: Backend, zero: Block, s: State, disk: seq<Block>, programs: seq<seq<Op>>, turns: seq<Turn>)
    requires Initial(s, disk, programs) && StateOk(bk, s) && Schedule(bk, zero, s, turns)
    ensures forall id :: 0 <= id < |programs| ==> Program(Run(bk, zero, s, turns).threads[id]) == programs[id]
  {
    forall id | 0 <= id < |programs| ensures Program(Run(bk, zero, s, turns).threads[id]) == programs[id] {
      RunKeepsPrograms(bk, zero, s, turns, id);
      assert Program(s.threads[id]) == programs[id];
    }
  }

  /**
   Main result. For every schedule of full-range-locked programs there is a sequential history of
   indivisible operations that gives every thread the outcomes it got, in its program order, and
   that leaves the disk as it is, except for blocks that an operation is still storing.
   */
  lemma Linearizable(bk: Backend, zero: Block, s: State, disk: seq<Block>, programs: seq<seq<Op>>, turns: seq<Turn>)
    requires Initial(s, disk, programs) && StateOk(bk, s) && Schedule(bk, zero, s, turns)
    requires forall id, i :: 0 <= id < |programs| && 0 <= i < |programs[id]| ==> Covers(bk, programs[id][i])
    ensures var s', h := Run(bk, zero, s, turns), History(bk, zero, s, turns);
            && Replay(zero, disk, h).Some?
            && (forall id :: 0 <= id < |programs| ==>
                  EventsOf(h, id) == Decided(s'.threads[id]) && Program(s'.threads[id]) == programs[id])
            && (forall x :: 0 <= x < |disk| ==>
                  || Replay(zero, disk, h).value[x] == s'.disk[x]
                  || exists id :: 0 <= id < |s'.threads| && Overwritten(s'.threads[id], x))
            && (AllFinished(s') ==> Replay(zero, disk, h).value == s'.disk)
  {
    RunExplained(bk, zero, s, disk, programs, turns);
    ProgramsKept(bk, zero, s, disk, programs, turns);
    var s' := Run(bk, zero, s, turns);
    if AllFinished(s') {
      FinishedMatches(zero, s', Replay(zero, disk, History(bk, zero, s, turns)).value);
    }
  }

  /** Continuing a run only appends to its history. */
  lemma {:induction false} HistoryGrows(bk: Backend, zero: Block, s: State, turns: seq<Turn>, more: seq<Turn>)
    requires StateOk(bk, s) && Schedule(bk, zero, s, turns + more)
    ensures Schedule(bk, zero, s, turns)
    ensures Schedule(bk, zero, Run(bk, zero, s, turns), more)
    ensures Run(bk, zero, s, turns + more) == Run(bk, zero, Run(bk, zero, s, turns), more)
    ensures History(bk, zero, s, turns + more)
            == History(bk, zero, s, turns) + History(bk, zero, Run(bk, zero, s, turns), more)
    decreases |turns|
  {
    hide Commit, StateOk, Enabled, Next;
    if turns == [] {
      assert turns + more == more;
    } else {
      assert (turns + more)[1..] == turns[1..] + more;
      HistoryGrows(bk, zero, Next(bk, zero, s, turns[0]), turns[1..], more);
    }
  }

  lemma {:induction false} EventsOfConcat(a: seq<Event>, b: seq<Event>, id: nat)
    ensures EventsOf(a + b, id) == EventsOf(a, id) + EventsOf(b, id)
    decreases |b|
  {
    if b == [] {
      assert a + b == a;
    } else {
      var init := b[..|b| - 1];
      EventsOfConcat(a, init, id);
      assert (a + b)[..|a + b| - 1] == a + init;
    }
  }

  /** How many operations of its thread come before the event at position `i`. */
  function RankAt(h: seq<Event>, i: nat): (r: nat)
    requires i < |h|
  {
    |EventsOf(h[..i], h[i].id)|
  }

  /** How many operations a thread has begun. */
  function Begun(t: Thread): (r: nat) {
    |t.past| + if t.pc == Locking(0) then 0 else 1
  }

  /**
   Real-time order: after `turns` the operation at position `i` of the final history has finished and the one at
   position `j` has not begun. Then `i` comes before `j`.
   */
  lemma RealTimeOrder(bk: Backend, zero: Block, s: State, disk: seq<Block>, programs: seq<seq<Op>>,
                      turns: seq<Turn>, more: seq<Turn>, i: nat, j: nat)
    requires Initial(s, disk, programs) && StateOk(bk, s) && Schedule(bk, zero, s, turns + more) && Schedule(bk, zero, s, turns)
    requires forall id, k :: 0 <= id < |programs| && 0 <= k < |programs[id]| ==> Covers(bk, programs[id][k])
    requires var h, s1 := History(bk, zero, s, turns + more), Run(bk, zero, s, turns);
             i < |h| && j < |h| && h[i].id < |s1.threads| && h[j].id < |s1.threads| &&
             RankAt(h, i) < |s1.threads[h[i].id].past| && RankAt(h, j) >= Begun(s1.threads[h[j].id])
    ensures i < j
  {
    hide EventsOf, Run, History, Schedule, StateOk, Replay, Covers, Decided;
    HistoryGrows(bk, zero, s, turns, more);
    var h1, s1 := History(bk, zero, s, turns), Run(bk, zero, s, turns);
    var h, h2 := History(bk, zero, s, turns + more), History(bk, zero, s1, more);
    assert h == h1 + h2;
    Linearizable(bk, zero, s, disk, programs, turns);
    assert EventsOf(h1, h[i].id) == Decided(s1.threads[h[i].id]);
    assert EventsOf(h1, h[j].id) == Decided(s1.threads[h[j].id]);
    DecidedBetween(s1.threads[h[i].id]);
    DecidedBetween(s1.threads[h[j].id]);
    if i >= |h1| {
      assert h[..i] == h1 + h2[..i - |h1|];
      EventsOfConcat(h1, h2[..i - |h1|], h[i].id);
    }
    if j < |h1| {
      assert h1 == (h[..j] + [h[j]]) + h1[j + 1..];
      EventsOfConcat(h[..j] + [h[j]], h1[j + 1..], h[j].id);
      EventsOfConcat(h[..j], [h[j]], h[j].id);
      OwnEvent(h[j]);
    }
  }

  lemma DecidedBetween(t: Thread)
    ensures |t.past| <= |Decided(t)| <= Begun(t)
  {}

  lemma OwnEvent(e: Event)
    ensures |EventsOf([e], e.id)| == 1
  {
    assert [e][..0] == [];
    assert EventsOf([], e.id) == [];
  }

  /**
   What the history says about a compare-and-write: success means that all its blocks matched at one
   instant and all were replaced at that instant; a mismatch means they differed and nothing changed.
   */
  lemma {:induction false} CompareAndWriteIsAtomic(zero: Block, disk: seq<Block>, h: seq<Event>, k: nat)
    requires Replay(zero, disk, h).Some? && k < |h| && h[k].op.CmpWrite?
    ensures Replay(zero, disk, h[..k]).Some? && Replay(zero, disk, h[..k + 1]).Some? && h[k].op.Fits(|disk|)
    ensures var op := h[k].op;
            var before, after := Replay(zero, disk, h[..k]).value, Replay(zero, disk, h[..k + 1]).value;
            && (h[k].outcome.Done? ==>
                  before[op.lba..op.lba + |op.data|] == op.expected && after == Splice(before, op.lba, op.data))
            && (h[k].outcome.Mismatch? ==>
                  before[op.lba..op.lba + |op.data|] != op.expected && after == before)
            && (h[k].outcome.ReadError? ==> after == before)
  {
    if k == |h| - 1 {
      assert h[..k + 1] == h;
    } else {
      var init := h[..|h| - 1];
      CompareAndWriteIsAtomic(zero, disk, init, k);
      assert init[..k] == h[..k] && init[..k + 1] == h[..k + 1];
    }
  }

  // --- which operations lock their full range

  /** The NBD backend locks the full range exactly when its end fits in 64 bits. */
  lemma NbdCoversIff(op: Op)
    ensures Covers(Nbd, op) <==> op.Count() == 0 || op.lba + op.Count() < TWO64
  {
    GuardedIffNoWrap(op.lba, op.Count());
    if op.Count() > 0 && op.lba + op.Count() >= TWO64 {
      assert op.Touches(op.lba);
    }
  }

  /**
   The file backend locks the full range exactly for reads, compare-and-writes and writes of one block, as long as the
   end fits in 64 bits, and for operations on no block.
   */
  lemma FileCoversIff(op: Op)
    ensures Covers(File, op) <==>
            op.Count() == 0 || (op.lba + op.Count() < TWO64 && !op.Trim? && (op.Write? ==> op.Count() == 1))
  {
    hide LockIndex, Locked;
    if op.Read? || op.CmpWrite? {
      assert Order(File, op) == Order(Nbd, op);
      NbdCoversIff(op);
    } else if op.Write? && op.Count() > 0 {
      WriteCoversIff(op);
    } else if op.Count() > 0 {
      assert op.Touches(op.lba) && Order(File, op) == [];
    }
  }

  /** A write locks the mutex of its first block only. */
  lemma WriteCoversIff(op: Op)
    requires op.Write? && op.Count() > 0
    ensures Covers(File, op) <==> op.lba + op.Count() < TWO64 && op.Count() == 1
  {
    hide LockIndex, Order;
    FirstLock(op);
    GuardedIffNoWrap(op.lba, 1);
    assert op.Touches(op.lba);
    if op.Count() >= 2 {
      NeighboursDiffer(op.lba);
      assert op.Touches(op.lba + 1);
    }
  }

  lemma FirstLock(op: Op)
    requires op.Write?
    ensures forall m :: m in Order(File, op) <==> m in Locked(op.lba, 1)
    ensures forall m :: m in Locked(op.lba, 1) ==> m == LockIndex(op.lba)
  {}
}

/**
 Because every operation takes its mutexes in ascending order and never nests operations, no
 schedule gets stuck, every schedule is finite, and at its end all mutexes are free.
 */
module LockLiveness {
  import opened Bytes
  import opened RangeLocks
  import opened BackendOps
  import opened LockProtocol

  /** The mutexes thread `t` holds according to its program counter, in locking order. */
  function OwnedInOrder(bk: Backend, t: Thread): seq<nat> {
    if t.todo == [] then []
    else
      var order := Order(bk, t.todo[0]);
      match t.pc
      case Locking(k) => order[..Min(k, |order|)]
      case Unlocking(k, _) => order[Min(k, |order|)..]
      case _ => order
  }

  lemma OwnedAscending(bk: Backend, t: Thread)
    ensures StrictlyAscending(OwnedInOrder(bk, t))
  {}

  function Elements(s: seq<nat>): set<nat> {
    set m | m in s
  }

  lemma ElementsGrow(s: seq<nat>, m: nat)
    ensures Elements(s + [m]) == Elements(s) + {m}
  {}

  lemma ElementsShrink(s: seq<nat>, m: nat)
    requires StrictlyAscending([m] + s)
    ensures Elements(s) == Elements([m] + s) - {m}
  {
    forall j | 0 <= j < |s| ensures s[j] != m {
      assert ([m] + s)[0] < ([m] + s)[j + 1];
    }
  }

  function Owned(bk: Backend, t: Thread): set<nat> {
    Elements(OwnedInOrder(bk, t))
  }

  function OwnedByAll(bk: Backend, ts: seq<Thread>): (r: seq<set<nat>>)
    ensures |r| == |ts| && forall id :: 0 <= id < |ts| ==> r[id] == Owned(bk, ts[id])
  {
    seq(|ts|, id requires 0 <= id < |ts| => Owned(bk, ts[id]))
  }

  /** `held` says of each of the mutexes `mine` that thread `id` holds it. */
  predicate Recorded(held: map<nat, nat>, mine: set<nat>, id: nat) {
    forall m :: m in mine ==> m in held && held[m] == id
  }

  /** `held` records exactly the mutexes that the threads own, each with its owner. */
  ghost predicate Consistent(held: map<nat, nat>, owned: seq<set<nat>>) {
    && (forall m :: m in held ==> held[m] < |owned| && m in owned[held[m]])
    && (forall id :: 0 <= id < |owned| ==> Recorded(held, owned[id], id))
  }

  ghost predicate LocksOk(bk: Backend, s: State) {
    Consistent(s.held, OwnedByAll(bk, s.threads))
  }

  lemma TakeKeepsConsistent(held: map<nat, nat>, owned: seq<set<nat>>, id: nat, m: nat)
    requires Consistent(held, owned) && id < |owned| && m !in held
    ensures Consistent(held[m := id], owned[id := owned[id] + {m}])
  {}

  lemma FreeKeepsConsistent(held: map<nat, nat>, owned: seq<set<nat>>, id: nat, m: nat)
    requires Consistent(held, owned) && id < |owned| && m in owned[id]
    ensures Consistent(held - {m}, owned[id := owned[id] - {m}])
  {
    assert Recorded(held, owned[id], id);
    forall i | 0 <= i < |owned| && i != id
      ensures Recorded(held - {m}, owned[i], i)
    {
      assert Recorded(held, owned[i], i);
    }
  }

  /** How the mutexes of a thread change in its next step. */
  lemma OwnedInOrderAfter(bk: Backend, t: Thread, disk: seq<Block>, works: bool)
    requires WellFormed(bk, |disk|, t) && t.todo != []
    ensures var was, now := OwnedInOrder(bk, t), OwnedInOrder(bk, Moved(bk, t, disk, works));
            && (Takes(bk, t).Some? ==> now == was + [Takes(bk, t).value])
            && (Frees(bk, t).Some? ==> was == [Frees(bk, t).value] + now)
            && (Takes(bk, t).None? && Frees(bk, t).None? ==> now == was)
  {
    var order := Order(bk, t.todo[0]);
    assert order[0..] == order == order[..|order|];
    if Frees(bk, t).Some? {
      assert order[t.pc.k..] == [order[t.pc.k]] + order[t.pc.k + 1..];
    }
  }

  lemma OwnedAfter(bk: Backend, t: Thread, disk: seq<Block>, works: bool)
    requires WellFormed(bk, |disk|, t) && t.todo != []
    ensures var was, now := Owned(bk, t), Owned(bk, Moved(bk, t, disk, works));
            && (Takes(bk, t).Some? ==> now == was + {Takes(bk, t).value})
            && (Frees(bk, t).Some? ==> Frees(bk, t).value in was && now == was - {Frees(bk, t).value})
            && (Takes(bk, t).None? && Frees(bk, t).None? ==> now == was)
  {
    OwnedInOrderAfter(bk, t, disk, works);
    OwnedAscending(bk, t);
    if Takes(bk, t).Some? {
      ElementsGrow(OwnedInOrder(bk, t), Takes(bk, t).value);
    } else if Frees(bk, t).Some? {
      ElementsShrink(OwnedInOrder(bk, Moved(bk, t, disk, works)), Frees(bk, t).value);
      assert Frees(bk, t).value == OwnedInOrder(bk, t)[0];
    }
  }

  lemma StepKeepsLocks(bk: Backend, zero: Block, s: State, turn: Turn)
    requires StateOk(bk, s) && LocksOk(bk, s) && Enabled(bk, s, turn.id)
    ensures LocksOk(bk, Next(bk, zero, s, turn))
  {
    var id, t := turn.id, s.threads[turn.id];
    var owned := OwnedByAll(bk, s.threads);
    OwnedAfter(bk, t, s.disk, turn.works);
    assert OwnedByAll(bk, Next(bk, zero, s, turn).threads) == owned[id := Owned(bk, Moved(bk, t, s.disk, turn.works))];
    if Takes(bk, t).Some? {
      TakeKeepsConsistent(s.held, owned, id, Takes(bk, t).value);
    } else if Frees(bk, t).Some? {
      FreeKeepsConsistent(s.held, owned, id, Frees(bk, t).value);
    } else {
      assert owned[id := owned[id]] == owned;
    }
  }

  lemma {:induction false} RunKeepsLocks(bk: Backend, zero: Block, s: State, turns: seq<Turn>)
    requires StateOk(bk, s) && LocksOk(bk, s) && Schedule(bk, zero, s, turns)
    ensures LocksOk(bk, Run(bk, zero, s, turns))
    decreases |turns|
  {
    if turns != [] {
      StepKeepsLocks(bk, zero, s, turns[0]);
      RunKeepsLocks(bk, zero, Next(bk, zero, s, turns[0]), turns[1..]);
    }
  }

  /** The mutex a blocked thread waits for; for any other thread, one past the last mutex. */
  function Awaited(bk: Backend, t: Thread): (m: nat)
    ensures m <= N_BACKEND_LOCKS
  {
    if t.todo != [] && t.pc.Locking? && t.pc.k < |Order(bk, t.todo[0])|
    then
      assert Order(bk, t.todo[0])[t.pc.k] in Order(bk, t.todo[0]);
      Order(bk, t.todo[0])[t.pc.k]
    else N_BACKEND_LOCKS
  }

  /** Follow the chain of holders: each one waits for a larger mutex, so the chain ends at a free thread. */
  lemma {:induction false} SomeoneCanMove(bk: Backend, s: State, id: nat) returns (mover: nat)
    requires StateOk(bk, s) && LocksOk(bk, s)
    requires id < |s.threads| && s.threads[id].todo != []
    ensures Enabled(bk, s, mover)
    decreases N_BACKEND_LOCKS - Awaited(bk, s.threads[id])
  {
    if Enabled(bk, s, id) {
      mover := id;
    } else {
      var m := Awaited(bk, s.threads[id]);
      var holder := s.held[m];
      var t := s.threads[holder];
      assert m in OwnedByAll(bk, s.threads)[holder];
      if Enabled(bk, s, holder) {
        mover := holder;
      } else {
        var order := Order(bk, t.todo[0]);
        assert m in order[..t.pc.k];
        assert m < order[t.pc.k];
        mover := SomeoneCanMove(bk, s, holder);
      }
    }
  }

  // --- how much work is left

  function Cost(bk: Backend, op: Op): nat {
    2 * |Order(bk, op)| + 2 * op.Count() + 4
  }

  function TotalCost(bk: Backend, ops: seq<Op>): nat {
    if ops == [] then 0 else Cost(bk, ops[0]) + TotalCost(bk, ops[1..])
  }

  /** The steps the current operation has behind it, counting a skipped phase as done. */
  function Progress(bk: Backend, op: Op, pc: Pc): nat {
    var l := |Order(bk, op)|;
    match pc
    case Locking(k) => k
    case Checking(seen) => l + 1 + |seen|
    case Storing(i) => l + 2 + op.Count() + i
    case Unlocking(k, _) => l + 3 + 2 * op.Count() + k
  }

  function Rank(bk: Backend, size: nat, t: Thread): (r: nat)
    requires WellFormed(bk, size, t)
    ensures r == 0 <==> t.todo == []
  {
    if t.todo == [] then 0 else TotalCost(bk, t.todo) - Progress(bk, t.todo[0], t.pc)
  }

  function WorkLeft(bk: Backend, size: nat, ts: seq<Thread>): nat
    requires forall id :: 0 <= id < |ts| ==> WellFormed(bk, size, ts[id])
  {
    if ts == [] then 0 else Rank(bk, size, ts[0]) + WorkLeft(bk, size, ts[1..])
  }

  lemma {:induction false} OneRankShrinks(bk: Backend, size: nat, ts: seq<Thread>, ts': seq<Thread>, id: nat)
    requires |ts| == |ts'| && id < |ts|
    requires forall i :: 0 <= i < |ts| ==> WellFormed(bk, size, ts[i]) && WellFormed(bk, size, ts'[i])
    requires forall i :: 0 <= i < |ts| && i != id ==> ts[i] == ts'[i]
    requires Rank(bk, size, ts'[id]) < Rank(bk, size, ts[id])
    ensures WorkLeft(bk, size, ts') < WorkLeft(bk, size, ts)
  {
    if id == 0 {
      assert ts[1..] == ts'[1..];
    } else {
      OneRankShrinks(bk, size, ts[1..], ts'[1..], id - 1);
    }
  }

  lemma StepShrinksRank(bk: Backend, t: Thread, disk: seq<Block>, works: bool)
    requires WellFormed(bk, |disk|, t) && t.todo != []
    ensures Rank(bk, |disk|, Moved(bk, t, disk, works)) < Rank(bk, |disk|, t)
  {}

  lemma StepShrinksWork(bk: Backend, zero: Block, s: State, turn: Turn)
    requires StateOk(bk, s) && Enabled(bk, s, turn.id)
    ensures WorkLeft(bk, |s.disk|, Next(bk, zero, s, turn).threads) < WorkLeft(bk, |s.disk|, s.threads)
  {
    StepShrinksRank(bk, s.threads[turn.id], s.disk, turn.works);
    OneRankShrinks(bk, |s.disk|, s.threads, Next(bk, zero, s, turn).threads, turn.id);
  }

  /** No schedule is longer than the work there was at its start. */
  lemma {:induction false} SchedulesAreFinite(bk: Backend, zero: Block, s: State, turns: seq<Turn>)
    requires StateOk(bk, s) && Schedule(bk, zero, s, turns)
    ensures |turns| + WorkLeft(bk, |s.disk|, Run(bk, zero, s, turns).threads) <= WorkLeft(bk, |s.disk|, s.threads)
    decreases |turns|
  {
    if turns != [] {
      StepShrinksWork(bk, zero, s, turns[0]);
      SchedulesAreFinite(bk, zero, Next(bk, zero, s, turns[0]), turns[1..]);
    }
  }

  // --- the two main results

  predicate AllFinished(s: State) {
    forall id :: 0 <= id < |s.threads| ==> s.threads[id].todo == []
  }

  lemma InitialLocksOk(bk: Backend, s: State, disk: seq<Block>, programs: seq<seq<Op>>)
    requires Initial(s, disk, programs) && StateOk(bk, s)
    ensures LocksOk(bk, s)
  {}

  /**
   In every state that any schedule reaches: while a thread is unfinished some thread can move,
   and once all are finished every mutex is free.
   */
  lemma DeadlockFree(bk: Backend, zero: Block, s: State, disk: seq<Block>, programs: seq<seq<Op>>, turns: seq<Turn>)
    requires Initial(s, disk, programs) && StateOk(bk, s) && Schedule(bk, zero, s, turns)
    ensures var s' := Run(bk, zero, s, turns);
            && (!AllFinished(s') ==> exists id :: Enabled(bk, s', id))
            && (AllFinished(s') ==> s'.held == map[])
  {
    InitialLocksOk(bk, s, disk, programs);
    RunKeepsLocks(bk, zero, s, turns);
    var s' := Run(bk, zero, s, turns);
    if !AllFinished(s') {
      var id :| 0 <= id < |s'.threads| && s'.threads[id].todo != [];
      var mover := SomeoneCanMove(bk, s', id);
    } else {
      assert forall id :: 0 <= id < |s'.threads| ==> OwnedByAll(bk, s'.threads)[id] == {};
    }
  }

  /** Every schedule can be continued until all threads have finished. */
  lemma {:induction false} CanFinish(bk: Backend, zero: Block, s: State) returns (turns: seq<Turn>)
    requires StateOk(bk, s) && LocksOk(bk, s)
    ensures Schedule(bk, zero, s, turns) && AllFinished(Run(bk, zero, s, turns))
    decreases WorkLeft(bk, |s.disk|, s.threads)
  {
    if AllFinished(s) {
      turns := [];
    } else {
      var id :| 0 <= id < |s.threads| && s.threads[id].todo != [];
      var mover := SomeoneCanMove(bk, s, id);
      var turn := Turn(mover, true);
      StepShrinksWork(bk, zero, s, turn);
      StepKeepsLocks(bk, zero, s, turn);
      var rest := CanFinish(bk, zero, Next(bk, zero, s, turn));
      turns := [turn] + rest;
      assert turns[1..] == rest;
    }
  }
}

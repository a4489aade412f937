/**
 Threads that use one backend at the same time. Every thread runs its own list of operations;
 an operation takes its mutexes one by one, works block by block, and frees its mutexes one by one.
 A schedule picks, for each step, the thread that moves and whether the device works.
 */
module LockProtocol {
  import opened Bytes
  import opened RangeLocks
  import opened BackendOps

  /** Which mutexes an operation takes differs between the two backends. */
  datatype Backend = Nbd | File

  /**
   The mutexes `op` holds while it works, in the order it takes them. The file backend locks only
   the first block of a write, and none for a trim (which is a bare `fallocate` on Linux).
   */
  function Order(bk: Backend, op: Op): (r: seq<nat>)
    ensures StrictlyAscending(r)
    ensures forall m :: m in r ==> m < N_BACKEND_LOCKS
  {
    if bk.File? && op.Trim? then []
    else if bk.File? && op.Write? then LockOrder(op.lba, 1)
    else LockOrder(op.lba, op.Count())
  }

  /** Where a thread is in the first operation of its list. */
  datatype Pc =
    | Locking(k: nat)                    // has taken the first k mutexes
    | Checking(seen: seq<Block>)         // read, or compare, loop: the blocks read so far
    | Storing(i: nat)                    // has stored the first i blocks
    | Unlocking(k: nat, outcome: Outcome) // result known, has freed the first k mutexes

  datatype Finished = Finished(op: Op, outcome: Outcome)

  datatype Thread = Thread(todo: seq<Op>, pc: Pc, past: seq<Finished>)

  datatype State = State(disk: seq<Block>, held: map<nat, nat>, threads: seq<Thread>)

  /** One step of a schedule: thread `id` moves; `works` is whether the device succeeds, if asked. */
  datatype Turn = Turn(id: nat, works: bool)

  predicate Initial(s: State, disk: seq<Block>, programs: seq<seq<Op>>) {
    && s.disk == disk
    && s.held == map[]
    && |s.threads| == |programs|
    && forall id :: 0 <= id < |programs| ==> s.threads[id] == Thread(programs[id], Locking(0), [])
  }

  /** The program counter and the indices it holds are sensible. */
  predicate WellFormed(bk: Backend, size: nat, t: Thread) {
    && (forall i :: 0 <= i < |t.todo| ==> t.todo[i].Fits(size))
    && (t.todo == [] ==> t.pc == Locking(0))
    && (t.todo != [] ==>
          var op := t.todo[0];
          match t.pc
          case Locking(k) => k <= |Order(bk, op)|
          case Checking(seen) => |seen| <= op.Count() && (op.Read? || op.CmpWrite?)
          case Storing(i) => i <= op.Count() && !op.Read?
          case Unlocking(k, _) => k <= |Order(bk, op)|)
  }

  predicate StateOk(bk: Backend, s: State) {
    forall id :: 0 <= id < |s.threads| ==> WellFormed(bk, |s.disk|, s.threads[id])
  }

  /** The program counter after a step that reads a block (or notices there are none left). */
  function CheckStep(op: Op, seen: seq<Block>, disk: seq<Block>, works: bool): Pc
    requires op.Fits(|disk|) && |seen| <= op.Count() && (op.Read? || op.CmpWrite?)
  {
    if |seen| == op.Count() then
      if op.Read? then Unlocking(0, OkRead(seen)) else Storing(0)
    else if !works then Unlocking(0, ReadError)
    else if op.CmpWrite? && disk[op.lba + |seen|] != op.expected[|seen|] then Unlocking(0, Mismatch)
    else Checking(seen + [disk[op.lba + |seen|]])
  }

  /** A thread after its next step. */
  function Moved(bk: Backend, t: Thread, disk: seq<Block>, works: bool): (t': Thread)
    requires WellFormed(bk, |disk|, t) && t.todo != []
    ensures WellFormed(bk, |disk|, t')
  {
    var op := t.todo[0];
    match t.pc
    case Locking(k) =>
      t.(pc := if k < |Order(bk, op)| then Locking(k + 1)
               else if op.Read? || op.CmpWrite? then Checking([]) else Storing(0))
    case Checking(seen) =>
      t.(pc := CheckStep(op, seen, disk, works))
    case Storing(i) =>
      t.(pc := if i == op.Count() then Unlocking(0, Done)
               else if works then Storing(i + 1) else Unlocking(0, WriteError(i)))
    case Unlocking(k, outcome) =>
      if k < |Order(bk, op)| then t.(pc := Unlocking(k + 1, outcome))
      else Thread(t.todo[1..], Locking(0), t.past + [Finished(op, outcome)])
  }

  /** The mutex a thread takes in its next step, if any. */
  function Takes(bk: Backend, t: Thread): Option<nat>
    requires t.todo != []
  {
    if t.pc.Locking? && t.pc.k < |Order(bk, t.todo[0])| then Some(Order(bk, t.todo[0])[t.pc.k]) else None
  }

  /** The mutex a thread frees in its next step, if any. */
  function Frees(bk: Backend, t: Thread): Option<nat>
    requires t.todo != []
  {
    if t.pc.Unlocking? && t.pc.k < |Order(bk, t.todo[0])| then Some(Order(bk, t.todo[0])[t.pc.k]) else None
  }

  function HeldAfter(bk: Backend, t: Thread, id: nat, held: map<nat, nat>): map<nat, nat>
    requires t.todo != []
  {
    if Takes(bk, t).Some? then held[Takes(bk, t).value := id]
    else if Frees(bk, t).Some? then held - {Frees(bk, t).value}
    else held
  }

  function DiskAfter(bk: Backend, zero: Block, t: Thread, disk: seq<Block>, works: bool): (disk': seq<Block>)
    requires WellFormed(bk, |disk|, t) && t.todo != []
    ensures |disk'| == |disk|
  {
    var op := t.todo[0];
    if t.pc.Storing? && t.pc.i < op.Count() && works
    then disk[op.lba + t.pc.i := op.Payload(zero)[t.pc.i]]
    else disk
  }

  /** Thread `id` is unfinished and not blocked on a mutex. */
  predicate Enabled(bk: Backend, s: State, id: nat) {
    && id < |s.threads|
    && var t := s.threads[id];
       && t.todo != []
       && (Takes(bk, t).Some? ==> Takes(bk, t).value !in s.held)
  }

  /** The state after one step of thread `turn.id`. */
  function Next(bk: Backend, zero: Block, s: State, turn: Turn): (s': State)
    requires StateOk(bk, s) && Enabled(bk, s, turn.id)
    ensures StateOk(bk, s') && |s'.threads| == |s.threads| && |s'.disk| == |s.disk|
  {
    var t := s.threads[turn.id];
    State(DiskAfter(bk, zero, t, s.disk, turn.works),
          HeldAfter(bk, t, turn.id, s.held),
          s.threads[turn.id := Moved(bk, t, s.disk, turn.works)])
  }

  /** `turns` is a schedule the threads can follow from `s`. */
  predicate Schedule(bk: Backend, zero: Block, s: State, turns: seq<Turn>)
    requires StateOk(bk, s)
    decreases |turns|
  {
    turns == [] ||
    (Enabled(bk, s, turns[0].id) && Schedule(bk, zero, Next(bk, zero, s, turns[0]), turns[1..]))
  }

  /** The state a schedule leads to. */
  function Run(bk: Backend, zero: Block, s: State, turns: seq<Turn>): (s': State)
    requires StateOk(bk, s) && Schedule(bk, zero, s, turns)
    ensures StateOk(bk, s') && |s'.threads| == |s.threads| && |s'.disk| == |s.disk|
    decreases |turns|
  {
    if turns == [] then s else Run(bk, zero, Next(bk, zero, s, turns[0]), turns[1..])
  }
}

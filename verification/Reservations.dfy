/**
 Reservations over whole runs: sessions come and go, reserve, release, and read, write, trim, compare and sync.
 Each call into `scsi.cpp` is one step; the end of a session is the tail of `server::handler`.
 */
module Reservations {
  import opened Bytes
  import opened Lun

  datatype Call =
    | WriteCall(blk: nat, n: nat, data: seq<byte>)
    | TrimCall(blk: nat, n: nat)
    | ReadCall(blk: nat, n: nat)
    | CompareCall(blk: nat, n: nat, data: seq<byte>, expected: seq<byte>)
    | SyncCall
    | ReserveCall
    | UnlockCall
    | StartSession
    | EndSession

  datatype Answer =
    | Status(rc: RwResult)
    | Contents(rc: RwResult, bytes: seq<byte>)
    | Flag(ok: bool)

  datatype Event = Event(who: Session, call: Call)

  datatype World = World(lun: Lun, live: set<Session>)

  predicate IsIo(c: Call) {
    !(c.ReserveCall? || c.UnlockCall? || c.StartSession? || c.EndSession?)
  }

  /** Buffers are as long as the calls say; a thread serves one session at a time. */
  predicate Possible(w: World, e: Event) {
    match e.call
    case WriteCall(_, n, data) => e.who in w.live && Span(n, w.lun.bs) <= |data|
    case CompareCall(_, n, data, expected) => e.who in w.live && Span(n, w.lun.bs) <= |data| && Span(n, w.lun.bs) <= |expected|
    case StartSession => e.who !in w.live
    case _ => e.who in w.live
  }

  function Step(w: World, e: Event): (r: (Answer, World))
    requires Possible(w, e)
    ensures r.1.lun == w.lun.(disk := r.1.lun.disk, lockedBy := r.1.lun.lockedBy)
  {
    match e.call
    case WriteCall(blk, n, data) =>
      var (rc, l) := Write(w.lun, e.who, blk, n, data);
      (Status(rc), w.(lun := l))
    case TrimCall(blk, n) =>
      var (rc, l) := Trim(w.lun, e.who, blk, n);
      (Status(rc), w.(lun := l))
    case ReadCall(blk, n) =>
      var (rc, bytes) := Read(w.lun, e.who, blk, n);
      (Contents(rc, bytes), w)
    case CompareCall(blk, n, data, expected) =>
      var (rc, l) := CmpWrite(w.lun, e.who, blk, n, data, expected);
      (Status(rc), w.(lun := l))
    case SyncCall => (Status(Sync(w.lun, e.who)), w)
    case ReserveCall =>
      var (ok, l) := Reserve(w.lun, e.who);
      (Flag(ok), w.(lun := l))
    case UnlockCall =>
      var (ok, l) := Unlock(w.lun, e.who);
      (Flag(ok), w.(lun := l))
    case StartSession => (Flag(true), w.(live := w.live + {e.who}))
    case EndSession =>
      // the final sync, then the unlock when the device is locked by this thread
      var l := if w.lun.lockedBy == Some(e.who) then Unlock(w.lun, e.who).1 else w.lun;
      (Status(Sync(w.lun, e.who)), World(l, w.live - {e.who}))
  }

  predicate PossibleRun(w: World, es: seq<Event>)
    decreases |es|
  {
    es != [] ==> Possible(w, es[0]) && PossibleRun(Step(w, es[0]).1, es[1..])
  }

  function Run(w: World, es: seq<Event>): (r: World)
    requires PossibleRun(w, es)
    decreases |es|
  {
    if es == [] then w else Run(Step(w, es[0]).1, es[1..])
  }

  function Answers(w: World, es: seq<Event>): (r: seq<Answer>)
    requires PossibleRun(w, es)
    ensures |r| == |es|
    decreases |es|
  {
    if es == [] then [] else [Step(w, es[0]).0] + Answers(Step(w, es[0]).1, es[1..])
  }

  // --- one step

  predicate HolderIsLive(w: World) {
    w.lun.lockedBy.Some? ==> w.lun.lockedBy.value in w.live
  }

  /** `e` gives up a reservation of its own session. */
  predicate GivesUp(e: Event) {
    e.call.UnlockCall? || e.call.EndSession?
  }

  /**
   What one step does to the reservation: the holder stays the holder unless it gives up itself, and the
   device becomes reserved only for the session that asks.
   */
  lemma StepAndHolder(w: World, e: Event)
    requires Possible(w, e)
    ensures HolderIsLive(w) ==> HolderIsLive(Step(w, e).1)
    ensures w.lun.lockedBy.Some? ==>
              Step(w, e).1.lun.lockedBy == if GivesUp(e) && w.lun.lockedBy == Some(e.who) then None else w.lun.lockedBy
    ensures w.lun.lockedBy.None? ==>
              Step(w, e).1.lun.lockedBy == if e.call.ReserveCall? then Some(e.who) else None
  {
    hide Write, Trim, Read, CmpWrite;
  }

  /** While another session holds the reservation every access is refused and the disk stays as it is. */
  lemma OthersAreRefused(w: World, e: Event)
    requires Possible(w, e) && LockedOther(w.lun, e.who)
    ensures Step(w, e).1.lun == w.lun
    ensures IsIo(e.call) ==> Step(w, e).0.rc == RwFailLocked
    ensures e.call.ReadCall? ==> Step(w, e).0.bytes == []
    ensures e.call.ReserveCall? || e.call.UnlockCall? ==> Step(w, e).0 == Flag(false)
  {
    hide Span, TrimByWriting;
  }

  // --- whole runs

  lemma {:induction false} HolderAlwaysLive(w: World, es: seq<Event>)
    requires HolderIsLive(w) && PossibleRun(w, es)
    ensures HolderIsLive(Run(w, es))
    decreases |es|
  {
    hide Step;
    if es != [] {
      StepAndHolder(w, es[0]);
      HolderAlwaysLive(Step(w, es[0]).1, es[1..]);
    }
  }

  /** `h` does not give the reservation up in the run. */
  predicate Keeps(h: Session, es: seq<Event>) {
    forall i :: 0 <= i < |es| ==> !(es[i].who == h && GivesUp(es[i]))
  }

  /** The events of session `h`. */
  function Own(h: Session, es: seq<Event>): (r: seq<Event>)
    decreases |es|
  {
    if es == [] then [] else (if es[0].who == h then [es[0]] else []) + Own(h, es[1..])
  }

  /** The answers given to session `h`. */
  function OwnAnswers(h: Session, es: seq<Event>, answers: seq<Answer>): (r: seq<Answer>)
    requires |answers| == |es|
    decreases |es|
  {
    if es == [] then [] else (if es[0].who == h then [answers[0]] else []) + OwnAnswers(h, es[1..], answers[1..])
  }

  /** Two worlds that look the same to the session that holds the reservation. */
  predicate SameFor(h: Session, a: World, b: World) {
    a.lun == b.lun && a.lun.lockedBy == Some(h) && h in a.live && h in b.live
  }

  lemma OwnStepAgrees(h: Session, a: World, b: World, e: Event)
    requires SameFor(h, a, b) && e.who == h && !GivesUp(e) && Possible(a, e)
    ensures Possible(b, e) && Step(a, e).0 == Step(b, e).0 && SameFor(h, Step(a, e).1, Step(b, e).1)
  {
    hide Write, Trim, Read, CmpWrite, Span;
  }

  lemma OtherStepIsUnseen(h: Session, a: World, b: World, e: Event)
    requires SameFor(h, a, b) && e.who != h && Possible(a, e)
    ensures SameFor(h, Step(a, e).1, b)
  {
    hide Step;
    OthersAreRefused(a, e);
    LiveAfter(a, e);
  }

  lemma LiveAfter(w: World, e: Event)
    requires Possible(w, e)
    ensures w.live - {e.who} <= Step(w, e).1.live <= w.live + {e.who}
  {
    hide Write, Trim, Read, CmpWrite, Span;
  }

  /**
   Non-interference: as long as the holder does not give up, it keeps the reservation, and the disk and every
   answer it gets are those of the run in which the other sessions did not exist.
   */
  lemma {:induction false} HolderIsAlone(h: Session, a: World, b: World, es: seq<Event>)
    requires SameFor(h, a, b) && PossibleRun(a, es) && Keeps(h, es)
    ensures PossibleRun(b, Own(h, es))
    ensures SameFor(h, Run(a, es), Run(b, Own(h, es)))
    ensures OwnAnswers(h, es, Answers(a, es)) == Answers(b, Own(h, es))
    decreases |es|
  {
    hide Step, Possible, SameFor;
    if es != [] {
      var e, rest, a1 := es[0], es[1..], Step(a, es[0]).1;
      assert !(e.who == h && GivesUp(e));
      assert Keeps(h, rest);
      var answers := Answers(a, es);
      assert answers[0] == Step(a, e).0 && answers[1..] == Answers(a1, rest);
      if e.who == h {
        OwnStepAgrees(h, a, b, e);
        var b1 := Step(b, e).1;
        HolderIsAlone(h, a1, b1, rest);
        assert Own(h, es) == [e] + Own(h, rest);
        assert Own(h, es)[0] == e && Own(h, es)[1..] == Own(h, rest);
      } else {
        OtherStepIsUnseen(h, a, b, e);
        HolderIsAlone(h, a1, b, rest);
        assert Own(h, es) == Own(h, rest);
      }
    }
  }

  /** The reservation passes from `h` to another session only through a step of `h` that gives it up. */
  lemma HandoverNeedsRelease(h: Session, w: World, es: seq<Event>)
    requires HolderIsLive(w) && w.lun.lockedBy == Some(h) && PossibleRun(w, es)
    ensures Run(w, es).lun.lockedBy != Some(h) ==> exists i :: 0 <= i < |es| && es[i].who == h && GivesUp(es[i])
  {
    if Keeps(h, es) {
      HolderIsAlone(h, w, w, es);
    }
  }
}

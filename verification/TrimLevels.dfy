/**
 The trim level is a tuning knob: 0 writes zeros instead of trimming, 2 trims instead of writing zeros. Over
 any run of commands by any sessions it shows neither in the disk nor in the responses.
 */
module TrimLevels {
  import opened Bytes
  import opened Lun
  import opened ScsiCommands
  import opened ScsiWrite
  import opened CommandLayout

  datatype Command =
    | WriteCmd(cdb: seq<byte>, immediate: Option<seq<byte>>)
    | SameCmd(cdb: seq<byte>, immediate: Option<seq<byte>>)
    | UnmapCmd(data: seq<byte>)
    | CompareCmd(cdb: seq<byte>, data: seq<byte>)

  datatype Request = Request(who: Session, command: Command)

  /** The command brings the bytes that the code reads from it. */
  predicate Complete(l: Lun, c: Command)
    requires l.Valid()
  {
    match c
    case WriteCmd(cdb, _) => |cdb| == 16
    case SameCmd(cdb, _) => |cdb| == 16
    case UnmapCmd(data) => DescriptorsComplete(data, 8)
    case CompareCmd(cdb, data) => |cdb| == 16 && CompareDataPresent(l, cdb, data)
  }

  function Execute(l: Lun, r: Request): (result: (Response, Lun))
    requires l.Valid() && Complete(l, r.command)
    ensures SameDevice(l, result.1)
  {
    match r.command
    case WriteCmd(cdb, data) => WriteVerify(l, r.who, cdb, data)
    case SameCmd(cdb, data) => WriteSame(l, r.who, cdb, data)
    case UnmapCmd(data) => Unmap(l, r.who, data)
    case CompareCmd(cdb, data) => CompareAndWrite(l, r.who, cdb, data)
  }

  predicate AllComplete(l: Lun, rs: seq<Request>)
    requires l.Valid()
  {
    forall i :: 0 <= i < |rs| ==> Complete(l, rs[i].command)
  }

  lemma CompleteIgnoresContents(l: Lun, l': Lun, c: Command)
    requires l.Valid() && l'.Valid() && l'.bs == l.bs && |l'.disk| == |l.disk|
    ensures Complete(l, c) == Complete(l', c)
  {
    assert l.Size() == l'.Size();
  }

  /** All responses of a run, and the device after it. */
  function Run(l: Lun, rs: seq<Request>): (result: (seq<Response>, Lun))
    requires l.Valid() && AllComplete(l, rs)
    decreases |rs|
  {
    if rs == [] then ([], l)
    else
      var (response, l1) := Execute(l, rs[0]);
      assert AllComplete(l1, rs[1..]) by {
        forall i | 0 <= i < |rs[1..]| ensures Complete(l1, rs[1..][i].command) {
          CompleteIgnoresContents(l, l1, rs[i + 1].command);
        }
      }
      var (responses, l2) := Run(l1, rs[1..]);
      ([response] + responses, l2)
  }

  /** The same device at another trim level. */
  function AtLevel(l: Lun, t: int): (r: Lun)
    ensures l.Valid() ==> r.Valid() && r.Size() == l.Size()
  {
    l.(trimLevel := t)
  }

  /** What the theorem asks of a command; `WriteLevelsIff` and `UnmapLevelsIff` say what happens otherwise. */
  predicate LevelBlind(l: Lun, c: Command)
    requires l.Valid() && Complete(l, c)
  {
    match c
    case WriteCmd(cdb, Some(data)) => NoEmptyTrim(l, LbaLen(cdb).1, |data|)
    case UnmapCmd(data) => FirstPast(l, Descriptors(data, 8)) == |Descriptors(data, 8)|
    case _ => true
  }

  // --- the calls

  lemma WriteAtLevel(l: Lun, t: int, who: Session, blk: nat, n: nat, data: seq<byte>)
    requires Span(n, l.bs) <= |data| && (n > 0 || l.emptyTrimOk)
    ensures Write(AtLevel(l, t), who, blk, n, data) == (Write(l, who, blk, n, data).0, AtLevel(Write(l, who, blk, n, data).1, t))
  {
    hide Span;
    if l.healthy && !LockedOther(l, who) && Span(blk, l.bs) + Span(n, l.bs) <= |l.disk| {
      WriteMeans(l, who, blk, n, data);
      WriteMeans(AtLevel(l, t), who, blk, n, data);
    }
  }

  /** A trim of blocks on the device, or of a single block anywhere, or one that must fail at once. */
  lemma TrimAtLevel(l: Lun, t: int, who: Session, blk: nat, n: nat)
    requires l.bs > 0 && n > 0
    requires n == 1 || Span(blk, l.bs) + Span(n, l.bs) <= |l.disk| || !l.healthy || LockedOther(l, who)
    ensures Trim(AtLevel(l, t), who, blk, n) == (Trim(l, who, blk, n).0, AtLevel(Trim(l, who, blk, n).1, t))
  {
    hide Span;
    if l.healthy && !LockedOther(l, who) && Span(blk, l.bs) + Span(n, l.bs) <= |l.disk| {
      TrimMeans(l, who, blk, n);
      TrimMeans(AtLevel(l, t), who, blk, n);
    } else {
      TrimFails(l, who, blk, n);
      TrimFails(AtLevel(l, t), who, blk, n);
    }
  }

  lemma TrimFails(l: Lun, who: Session, blk: nat, n: nat)
    requires n > 0 && (LockedOther(l, who) || !l.healthy || (n == 1 && Span(blk, l.bs) + Span(n, l.bs) > |l.disk|))
    ensures Trim(l, who, blk, n) == (if LockedOther(l, who) then RwFailLocked else RwFailGeneral, l)
  {
    hide Span;
    if !LockedOther(l, who) && l.trimLevel == 0 {
      assert Write(l, who, blk, 1, Zeros(l.bs)) == (RwFailGeneral, l);
    }
  }

  // --- the commands

  lemma FragmentAtLevel(l: Lun, t: int, who: Session, r: nat, w: nat, fragment: seq<byte>)
    requires l.bs > 0 && |fragment| < l.bs
    ensures var result := WriteFragment(l, who, r, w, fragment);
            WriteFragment(AtLevel(l, t), who, r, w, fragment) == (result.0, AtLevel(result.1, t))
  {
    hide Write, Span;
    var (rc, block) := Read(l, who, r, 1);
    assert Read(AtLevel(l, t), who, r, 1) == (rc, block);
    if rc == RwOk {
      WriteAtLevel(l, t, who, w, 1, Splice(block, 0, fragment));
    }
  }

  lemma PartsAtLevel(l: Lun, t: int, who: Session, lba: nat, work: nat, received: nat, data: seq<byte>)
    requires l.bs > 0 && Span(work, l.bs) <= |data| && (work == 0 && received > 0 ==> l.emptyTrimOk)
    ensures var result := WriteParts(l, who, lba, work, received, data);
            WriteParts(AtLevel(l, t), who, lba, work, received, data) == (result.0, AtLevel(result.1, t))
  {
    hide Write, WriteFragment, Span;
    if received > 0 {
      WriteAtLevel(l, t, who, lba, work, data);
    }
    var (rc, l1) := if received > 0 then Write(l, who, lba, work, data) else (RwOk, l);
    var fragment := data[Span(work, l.bs)..];
    if 0 < |fragment| < l.bs {
      FragmentAtLevel(l1, t, who, lba + work, lba + received, fragment);
    }
  }

  lemma ImmediateAtLevel(l: Lun, t: int, who: Session, lba: nat, len: nat, data: seq<byte>)
    requires l.bs > 0 && NoEmptyTrim(l, len, |data|)
    ensures var result := WriteImmediate(l, who, lba, len, data);
            WriteImmediate(AtLevel(l, t), who, lba, len, data) == (result.0, AtLevel(result.1, t))
  {
    hide WriteParts, Span;
    WorkSplit(|data|, len, l.bs);
    PartsAtLevel(l, t, who, lba, Min(len, |data| / l.bs), |data| / l.bs, data);
  }

  lemma ValidateAtLevel(l: Lun, t: int, lba: uint64, n: uint32, cdb: seq<byte>)
    requires l.Valid() && |cdb| == 16
    ensures ValidateRange(AtLevel(l, t), lba, n) == ValidateRange(l, lba, n)
    ensures ValidateRequest(AtLevel(l, t), lba, n, cdb) == ValidateRequest(l, lba, n, cdb)
  {}

  lemma WriteVerifyAtLevel(l: Lun, t: int, who: Session, cdb: seq<byte>, data: Option<seq<byte>>)
    requires l.Valid() && Complete(l, WriteCmd(cdb, data)) && LevelBlind(l, WriteCmd(cdb, data))
    ensures var result := WriteVerify(l, who, cdb, data);
            WriteVerify(AtLevel(l, t), who, cdb, data) == (result.0, AtLevel(result.1, t))
  {
    hide WriteImmediate, ValidateRequest, LbaLen, Span;
    var (lba, len) := LbaLen(cdb);
    ValidateAtLevel(l, t, lba, len, cdb);
    if data.Some? {
      ImmediateAtLevel(l, t, who, lba, len, data.value);
    }
  }

  lemma {:induction false} SameLoopAtLevel(l: Lun, t: int, who: Session, lba: nat, n: nat, unmap: bool, data: seq<byte>)
    requires l.bs > 0 && |data| >= l.bs
    ensures var result := SameLoop(l, who, lba, n, unmap, data);
            SameLoop(AtLevel(l, t), who, lba, n, unmap, data) == (result.0, AtLevel(result.1, t))
    decreases n
  {
    hide Write, Trim, Span;
    if n > 0 {
      if unmap { TrimAtLevel(l, t, who, lba, 1); } else { WriteAtLevel(l, t, who, lba, 1, data); }
      var (rc, l1) := if unmap then Trim(l, who, lba, 1) else Write(l, who, lba, 1, data);
      if rc == RwOk {
        SameLoopAtLevel(l1, t, who, lba + 1, n - 1, unmap, data);
      }
    }
  }

  lemma WriteSameAtLevel(l: Lun, t: int, who: Session, cdb: seq<byte>, data: Option<seq<byte>>)
    requires l.Valid() && |cdb| == 16
    ensures var result := WriteSame(l, who, cdb, data);
            WriteSame(AtLevel(l, t), who, cdb, data) == (result.0, AtLevel(result.1, t))
  {
    hide SameLoop, ValidateRequest, LbaLen, Span, OneBlock, BitSet;
    var (lba, len) := LbaLen(cdb);
    ValidateAtLevel(l, t, lba, len, cdb);
    if data.Some? && OneBlock(|data.value|, l.bs) {
      SameLoopAtLevel(l, t, who, lba, SameCount(l.Size(), lba, len), BitSet(cdb[1], 3), data.value);
    }
  }

  function StateAtLevel(s: UnmapState, t: int): UnmapState {
    s.(lun := AtLevel(s.lun, t))
  }

  lemma {:induction false} UnmapLoopAtLevel(s: UnmapState, t: int, who: Session, es: seq<Extent>)
    requires s.lun.Valid() && (FirstPast(s.lun, es) == |es| || !s.lun.healthy || LockedOther(s.lun, who))
    ensures UnmapLoop(StateAtLevel(s, t), who, es) == StateAtLevel(UnmapLoop(s, who, es), t)
    decreases |es|
  {
    hide Trim, Rejected, Span;
    if es != [] {
      var l, e := s.lun, es[0];
      RejectedAtLevel(l, t, e);
      if Rejected(l, e).Some? {
        UnmapLoopAtLevel(UnmapState(RwFailGeneral, Rejected(l, e), l), t, who, es[1..]);
      } else if e.len == 0 {
        UnmapLoopAtLevel(s, t, who, es[1..]);
      } else {
        InsideIff(l, e.lba, e.len);
        TrimAtLevel(l, t, who, e.lba, e.len);
        var (rc, l') := Trim(l, who, e.lba, e.len);
        if rc == RwOk {
          FirstPastIgnoresContents(l, l', es[1..]);
          UnmapLoopAtLevel(UnmapState(RwOk, s.sense, l'), t, who, es[1..]);
        }
      }
    }
  }

  lemma RejectedAtLevel(l: Lun, t: int, e: Extent)
    requires l.Valid()
    ensures Rejected(AtLevel(l, t), e) == Rejected(l, e)
  {}

  lemma CmpWriteAtLevel(l: Lun, t: int, who: Session, blk: nat, n: nat, data: seq<byte>, expected: seq<byte>)
    requires Span(n, l.bs) <= |data| && Span(n, l.bs) <= |expected|
    ensures var result := CmpWrite(l, who, blk, n, data, expected);
            CmpWrite(AtLevel(l, t), who, blk, n, data, expected) == (result.0, AtLevel(result.1, t))
  {
    hide Span, Splice;
  }

  lemma CompareAtLevel(l: Lun, t: int, who: Session, cdb: seq<byte>, data: seq<byte>)
    requires l.Valid() && Complete(l, CompareCmd(cdb, data))
    ensures Complete(AtLevel(l, t), CompareCmd(cdb, data))
    ensures var result := CompareAndWrite(l, who, cdb, data);
            CompareAndWrite(AtLevel(l, t), who, cdb, data) == (result.0, AtLevel(result.1, t))
  {
    hide Span, ValidateRequest, CmpWrite, Be64;
    var lba, count := Be64(cdb, 2), cdb[13];
    ValidateAtLevel(l, t, lba, count, cdb);
    if ValidateRequest(l, lba, count, cdb).None? && count <= MAX_CAW_BLOCKS {
      CmpWriteAtLevel(l, t, who, lba, count, data[Span(count, l.bs)..], data);
    }
  }

  lemma ExecuteAtLevel(l: Lun, t: int, r: Request)
    requires l.Valid() && Complete(l, r.command) && LevelBlind(l, r.command)
    ensures Complete(AtLevel(l, t), r.command)
    ensures Execute(AtLevel(l, t), r) == (Execute(l, r).0, AtLevel(Execute(l, r).1, t))
  {
    hide WriteVerify, WriteSame, UnmapLoop, CompareAndWrite, CompareDataPresent;
    match r.command
    case WriteCmd(cdb, data) => WriteVerifyAtLevel(l, t, r.who, cdb, data);
    case SameCmd(cdb, data) => WriteSameAtLevel(l, t, r.who, cdb, data);
    case UnmapCmd(data) => UnmapLoopAtLevel(UnmapState(RwOk, None, l), t, r.who, Descriptors(data, 8));
    case CompareCmd(cdb, data) => CompareAtLevel(l, t, r.who, cdb, data);
  }

  // --- runs

  predicate AllBlind(l: Lun, rs: seq<Request>)
    requires l.Valid() && AllComplete(l, rs)
  {
    forall i :: 0 <= i < |rs| ==> LevelBlind(l, rs[i].command)
  }

  lemma TailHolds(l: Lun, l1: Lun, rs: seq<Request>)
    requires l.Valid() && SameDevice(l, l1) && AllComplete(l, rs) && rs != []
    ensures AllComplete(l1, rs[1..])
    ensures AllBlind(l, rs) ==> AllBlind(l1, rs[1..])
  {
    forall i | 0 <= i < |rs[1..]| ensures Complete(l1, rs[1..][i].command) {
      CompleteIgnoresContents(l, l1, rs[i + 1].command);
    }
    if AllBlind(l, rs) {
      forall i | 0 <= i < |rs[1..]| ensures LevelBlind(l1, rs[1..][i].command) {
        assert LevelBlind(l, rs[i + 1].command);
      }
    }
  }

  /** Whatever the trim level, a run gives the same responses and leaves the same bytes. */
  lemma {:induction false} TrimLevelIsInvisible(l: Lun, t: int, rs: seq<Request>)
    requires l.Valid() && AllComplete(l, rs) && AllBlind(l, rs)
    ensures AllComplete(AtLevel(l, t), rs)
    ensures Run(AtLevel(l, t), rs).0 == Run(l, rs).0
    ensures Run(AtLevel(l, t), rs).1 == AtLevel(Run(l, rs).1, t)
    decreases |rs|
  {
    hide Execute, Complete, LevelBlind;
    forall i | 0 <= i < |rs| ensures Complete(AtLevel(l, t), rs[i].command) {
      CompleteIgnoresContents(l, AtLevel(l, t), rs[i].command);
    }
    if rs != [] {
      ExecuteAtLevel(l, t, rs[0]);
      var l1 := Execute(l, rs[0]).1;
      TailHolds(l, l1, rs);
      TrimLevelIsInvisible(l1, t, rs[1..]);
    }
  }

  // --- where it does show

  /** A WRITE of no blocks that brings a block or more, to a backend that works but refuses to trim nothing. */
  predicate TrimsNothing(l: Lun, who: Session, cdb: seq<byte>, data: seq<byte>)
    requires l.Valid() && |cdb| == 16
  {
    var (lba, len) := LbaLen(cdb);
    ValidateRequest(l, lba, len, cdb).None? && len == 0 && |data| >= l.bs && !l.emptyTrimOk && Usable(l, who, lba, 0)
  }

  /** Levels 1 and 2 answer a WRITE with immediate data alike unless the WRITE makes level 2 trim nothing. */
  lemma WriteLevelsIff(l: Lun, who: Session, cdb: seq<byte>, data: seq<byte>)
    requires l.Valid() && |cdb| == 16
    ensures WriteVerify(AtLevel(l, 1), who, cdb, Some(data)).0 == WriteVerify(AtLevel(l, 2), who, cdb, Some(data)).0
            <==> !TrimsNothing(l, who, cdb, data)
  {
    hide WriteImmediate, ValidateRequest, LbaLen, Span;
    var (lba, len) := LbaLen(cdb);
    ValidateAtLevel(l, 1, lba, len, cdb);
    ValidateAtLevel(l, 2, lba, len, cdb);
    if NoEmptyTrim(l, len, |data|) {
      ImmediateAtLevel(l, 1, who, lba, len, data);
      ImmediateAtLevel(l, 2, who, lba, len, data);
    } else {
      EmptyWrite(l, who, lba, data);
    }
  }

  lemma EmptyWrite(l: Lun, who: Session, lba: nat, data: seq<byte>)
    requires l.bs > 0 && |data| >= l.bs && !l.emptyTrimOk
    ensures var rc1, rc2 := WriteImmediate(AtLevel(l, 1), who, lba, 0, data).0, WriteImmediate(AtLevel(l, 2), who, lba, 0, data).0;
            if Usable(l, who, lba, 0) then rc1 == RwOk && rc2 == RwFailGeneral else rc1 == rc2 != RwOk
  {
    hide Span;
    DivisionBounds(|data|, l.bs, 1);
  }

  /** The trim starts on the device and ends beyond it, over bytes that are not all zero. */
  predicate RunsOff(l: Lun, who: Session, blk: nat, n: nat)
    requires l.Valid()
  {
    l.healthy && !LockedOther(l, who) && blk < l.Size() < blk + n && Span(blk, l.bs) <= |l.disk| && !AllZero(l.disk[Span(blk, l.bs)..])
  }

  /**
   A trim returns the same at levels 0 and 1; it leaves the same bytes exactly when it does not run off the
   device. The range check of UNMAP lets such a trim through when it is larger than the device (`RangeCheckIff`).
   */
  lemma TrimLevelsIff(l: Lun, who: Session, blk: nat, n: nat)
    requires l.Valid() && n > 0
    ensures Trim(AtLevel(l, 0), who, blk, n).0 == Trim(AtLevel(l, 1), who, blk, n).0
    ensures Trim(AtLevel(l, 0), who, blk, n).1.disk == Trim(AtLevel(l, 1), who, blk, n).1.disk <==> !RunsOff(l, who, blk, n)
  {
    hide Span, Splice;
    InsideIff(l, blk, n);
    if l.healthy && !LockedOther(l, who) {
      if blk + n <= l.Size() {
        TrimMeans(AtLevel(l, 0), who, blk, n);
        TrimMeans(AtLevel(l, 1), who, blk, n);
      } else if blk >= l.Size() {
        WriteRunsOff(AtLevel(l, 0), who, blk, Zeros(l.bs));
      } else {
        TailSpan(l, blk);
        TrimByWritingRunsOff(AtLevel(l, 0), who, blk, l.Size() - blk, n);
        TailZeroed(l.disk, Span(blk, l.bs));
      }
    } else {
      TrimFails(AtLevel(l, 0), who, blk, n);
      TrimFails(AtLevel(l, 1), who, blk, n);
    }
  }

  /** UNMAP lets a trim through that runs off the device over bytes that are not zero. */
  predicate UnmapRunsOff(l: Lun, who: Session, es: seq<Extent>)
    requires l.Valid()
  {
    var k := FirstPast(l, es);
    k < |es| && RunsOff(l.(disk := Unmapped(l, es[..k])), who, es[k].lba, es[k].len)
  }

  /**
   UNMAP answers alike at levels 0 and 1; it leaves the same bytes exactly when the first descriptor that runs past the
   end, if there is one, meets only zeros on the device after what the descriptors before it have zeroed.
   */
  lemma UnmapLevelsIff(l: Lun, who: Session, data: seq<byte>, es: seq<Extent>)
    requires l.Valid() && Lists(data, es)
    ensures DescriptorsComplete(data, 8)
    ensures Unmap(AtLevel(l, 0), who, data).0 == Unmap(AtLevel(l, 1), who, data).0
    ensures Unmap(AtLevel(l, 0), who, data).1.disk == Unmap(AtLevel(l, 1), who, data).1.disk
            <==> !UnmapRunsOff(l, who, es)
  {
    hide UnmapLoop, Unmapped, FirstPast, Span, Lists;
    ListsIff(data, es);
    var s := UnmapState(RwOk, None, l);
    if !l.healthy || LockedOther(l, who) {
      UnmapLoopAtLevel(s, 0, who, es);
      UnmapLoopAtLevel(s, 1, who, es);
    } else {
      UnmapLoopMeans(StateAtLevel(s, 0), who, es);
      UnmapLoopMeans(StateAtLevel(s, 1), who, es);
      UnmapAnswersAlike(l, who, es);
      PastAtLevels(l, who, es);
    }
  }

  /** Which descriptors are rejected or run past the end does not depend on the level, nor does the loop's answer. */
  lemma {:induction false} AnswersAlike(a: UnmapState, b: UnmapState, who: Session, es: seq<Extent>)
    requires a.lun.Valid() && a.lun.healthy && !LockedOther(a.lun, who) && a.rc == b.rc && a.sense == b.sense
    requires b.lun.(trimLevel := a.lun.trimLevel, disk := a.lun.disk) == a.lun && |b.lun.disk| == |a.lun.disk|
    ensures UnmapLoop(a, who, es).rc == UnmapLoop(b, who, es).rc && UnmapLoop(a, who, es).sense == UnmapLoop(b, who, es).sense
    decreases |es|
  {
    hide Trim, Rejected, Span;
    if es != [] {
      var e := es[0];
      RejectedAlike(a.lun, b.lun, e);
      if Rejected(a.lun, e).Some? {
        var sense := Rejected(a.lun, e);
        AnswersAlike(UnmapState(RwFailGeneral, sense, a.lun), UnmapState(RwFailGeneral, sense, b.lun), who, es[1..]);
      } else if e.len == 0 {
        AnswersAlike(a, b, who, es[1..]);
      } else {
        TrimAnswers(a.lun, who, e.lba, e.len);
        TrimAnswers(b.lun, who, e.lba, e.len);
        var (rc, la) := Trim(a.lun, who, e.lba, e.len);
        var lb := Trim(b.lun, who, e.lba, e.len).1;
        if rc == RwOk {
          AnswersAlike(UnmapState(RwOk, a.sense, la), UnmapState(RwOk, b.sense, lb), who, es[1..]);
        }
      }
    }
  }

  lemma RejectedAlike(a: Lun, b: Lun, e: Extent)
    requires a.Valid() && b.Valid() && a.bs == b.bs && |a.disk| == |b.disk|
    ensures Rejected(a, e) == Rejected(b, e)
  {
    assert a.Size() == b.Size();
  }

  lemma TrimAnswers(l: Lun, who: Session, blk: nat, n: nat)
    requires l.Valid() && l.healthy && !LockedOther(l, who) && n > 0
    ensures Trim(l, who, blk, n).0 == if blk + n <= l.Size() then RwOk else RwFailGeneral
  {
    hide Span, Trim;
    InsideIff(l, blk, n);
    if blk + n <= l.Size() { TrimMeans(l, who, blk, n); } else { TrimPastEnd(l, who, blk, n); }
  }

  lemma UnmapAnswersAlike(l: Lun, who: Session, es: seq<Extent>)
    requires l.Valid() && l.healthy && !LockedOther(l, who)
    ensures var a, b := UnmapState(RwOk, None, AtLevel(l, 0)), UnmapState(RwOk, None, AtLevel(l, 1));
            UnmapLoop(a, who, es).rc == UnmapLoop(b, who, es).rc && UnmapLoop(a, who, es).sense == UnmapLoop(b, who, es).sense
  {
    hide UnmapLoop;
    AnswersAlike(UnmapState(RwOk, None, AtLevel(l, 0)), UnmapState(RwOk, None, AtLevel(l, 1)), who, es);
  }

  lemma PastAtLevels(l: Lun, who: Session, es: seq<Extent>)
    requires l.Valid() && l.healthy && !LockedOther(l, who)
    ensures UnmapDisk(AtLevel(l, 0), es) == UnmapDisk(AtLevel(l, 1), es) <==> !UnmapRunsOff(l, who, es)
  {
    hide Span, Unmapped, UnmapDisk, TrimmedPast, RunsOff;
    UnmapDiskAtLevel(l, 0, es);
    UnmapDiskAtLevel(l, 1, es);
    var k := FirstPast(l, es);
    if k < |es| {
      RunsOffTells(l.(disk := Unmapped(l, es[..k])), who, es[k]);
    }
  }

  lemma UnmapDiskAtLevel(l: Lun, t: int, es: seq<Extent>)
    requires l.Valid()
    ensures var k := FirstPast(l, es);
            var disk := Unmapped(l, es[..k]);
            UnmapDisk(AtLevel(l, t), es) == if k < |es| then TrimmedPast(AtLevel(l.(disk := disk), t), es[k].lba) else disk
  {
    hide Span, Unmapped, TrimmedPast;
    PastAtLevel(l, t, es);
    UnmappedAtLevel(l, t, es[..FirstPast(l, es)]);
  }

  lemma RunsOffTells(l: Lun, who: Session, e: Extent)
    requires l.Valid() && l.healthy && !LockedOther(l, who) && e.len > 0 && e.lba + e.len > l.Size()
    ensures TrimmedPast(AtLevel(l, 0), e.lba) == TrimmedPast(AtLevel(l, 1), e.lba) <==> !RunsOff(l, who, e.lba, e.len)
  {
    hide Span, Splice;
    if e.lba < l.Size() {
      TailSpan(l, e.lba);
      TailZeroed(l.disk, Span(e.lba, l.bs));
    }
  }

  lemma {:induction false} PastAtLevel(l: Lun, t: int, es: seq<Extent>)
    requires l.Valid()
    ensures FirstPast(AtLevel(l, t), es) == FirstPast(l, es)
    decreases |es|
  {
    if es != [] {
      RejectedAtLevel(l, t, es[0]);
      PastAtLevel(l, t, es[1..]);
    }
  }

  lemma UnmappedAtLevel(l: Lun, t: int, es: seq<Extent>)
    requires l.Valid()
    ensures Unmapped(AtLevel(l, t), es) == Unmapped(l, es)
  {
    hide Rejected;
    forall k | 0 <= k < |es| ensures Rejected(AtLevel(l, t), es[k]) == Rejected(l, es[k]) {
      RejectedAtLevel(l, t, es[k]);
    }
  }

  lemma TailZeroed(s: seq<byte>, at: nat)
    requires at <= |s|
    ensures Zeroed(s, at, |s| - at) == s <==> AllZero(s[at..])
  {
    var z := Zeroed(s, at, |s| - at);
    if z == s {
      assert forall i :: 0 <= i < |s| - at ==> s[at..][i] == z[at + i] == 0;
    }
    if AllZero(s[at..]) {
      assert forall i :: at <= i < |s| ==> s[i] == s[at..][i - at];
    }
  }

  /** One descriptor larger than the device, over bytes that are not zero: the levels leave different disks. */
  lemma LargeUnmapTells(l: Lun, who: Session, data: seq<byte>, e: Extent)
    requires l.Valid() && Lists(data, [e])
    requires l.Size() < e.len <= MAX_UNMAP_BLOCKS && RunsOff(l, who, e.lba, e.len)
    ensures DescriptorsComplete(data, 8)
    ensures Unmap(AtLevel(l, 0), who, data).1.disk != Unmap(AtLevel(l, 1), who, data).1.disk
  {
    hide Unmap, Unmapped, Span, Lists;
    UnmapLevelsIff(l, who, data, [e]);
    RangeCheckIff(l.Size(), e.lba, e.len);
    assert RunsPast(l, e);
    assert [e][..0] == [];
    NothingUnmapped(l);
  }
}

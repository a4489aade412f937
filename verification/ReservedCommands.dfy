/**
 Commands on a device that another session has reserved, up to the status that the initiator is sent: those that would
 reach the backend are answered with RESERVATION CONFLICT, and no command changes anything. And what the same commands
 are answered when the backend fails.
 */
module ReservedCommands {
  import opened Bytes
  import opened Lun
  import opened ScsiCommands
  import opened ScsiWrite
  import opened CommandLayout
  import opened TrimLevels
  import O = DataOut
  import W = WriteTransfer

  /** `validate_request` lets the CDB pass. */
  predicate Passes(l: Lun, cdb: seq<byte>)
    requires l.Valid() && |cdb| == 16
  {
    ValidateRequest(l, LbaLen(cdb).0, LbaLen(cdb).1, cdb).None?
  }

  /** An accepted descriptor that is not empty comes before any that is rejected. */
  predicate TrimsFirst(l: Lun, es: seq<Extent>)
    requires l.Valid()
  {
    exists k :: 0 <= k < |es| && es[k].len > 0 && NoneRejectedUpTo(l, es, k)
  }

  predicate NoneRejectedUpTo(l: Lun, es: seq<Extent>, k: nat)
    requires l.Valid() && k < |es|
  {
    forall j :: 0 <= j <= k ==> Rejected(l, es[j]).None?
  }

  /** The command gets as far as the backend: it is valid and has something to store, to trim or to compare. */
  predicate Reaches(l: Lun, c: Command)
    requires l.Valid() && Complete(l, c)
  {
    match c
    case WriteCmd(cdb, data) => Passes(l, cdb) && data.Some? && data.value != []
    case SameCmd(cdb, data) =>
      var (lba, len) := LbaLen(cdb);
      Passes(l, cdb) && data.Some? && l.bs <= |data.value| < 2 * l.bs &&
      (len == 0 ==> lba < l.Size() && l.Size() - lba <= MAX_WS_LEN)
    case UnmapCmd(data) => TrimsFirst(l, Descriptors(data, 8))
    case CompareCmd(cdb, data) => ValidateRequest(l, Be64(cdb, 2), cdb[13], cdb).None? && cdb[13] <= MAX_CAW_BLOCKS
  }

  lemma WriteReserved(l: Lun, who: Session, cdb: seq<byte>, data: Option<seq<byte>>)
    requires l.Valid() && |cdb| == 16 && LockedOther(l, who)
    ensures var (response, l') := WriteVerify(l, who, cdb, data);
            l' == l && (response.sense == Some(ReservationConflict) <==> Passes(l, cdb) && data.Some? && data.value != []) &&
            (response.sense == Some(ReservationConflict) ==> response.reaction == AsIs)
  {
    hide WriteImmediate, LbaLen, Span, RangeOk, WriteResponse;
    var (lba, len) := LbaLen(cdb);
    if data.Some? {
      if data.value == [] { EmptyImmediate(l, who, lba, len); } else { ImmediateRefused(l, who, lba, len, data.value); }
    }
    NoSense(l, lba, len, if data.Some? then |data.value| else 0, BitSet(cdb[1], 3));
  }

  lemma NoSense(l: Lun, lba: uint64, len: uint32, n: nat, fua: bool)
    requires l.bs > 0
    ensures WriteResponse(l, lba, len, n, fua).sense == None
  {
    hide Span;
  }

  lemma EmptyImmediate(l: Lun, who: Session, lba: nat, len: nat)
    requires l.bs > 0
    ensures WriteImmediate(l, who, lba, len, []) == (RwOk, l)
  {}

  lemma ImmediateRefused(l: Lun, who: Session, lba: nat, len: nat, data: seq<byte>)
    requires l.bs > 0 && data != [] && LockedOther(l, who)
    ensures WriteImmediate(l, who, lba, len, data) == (RwFailLocked, l)
  {
    hide Splice;
  }

  lemma SameReserved(l: Lun, who: Session, cdb: seq<byte>, data: Option<seq<byte>>)
    requires l.Valid() && |cdb| == 16 && LockedOther(l, who)
    ensures var (response, l') := WriteSame(l, who, cdb, data);
            l' == l && (response.sense == Some(ReservationConflict) <==> Reaches(l, SameCmd(cdb, data))) &&
            (response.sense == Some(ReservationConflict) ==> response.reaction == AsIs)
  {
    hide SameLoop, LbaLen, Span, OneBlock, BitSet, Lun.Size;
    var (lba, len) := LbaLen(cdb);
    SizeBound(l);
    PassesInside(l, lba, len, cdb);
    if data.Some? && OneBlock(|data.value|, l.bs) {
      LoopRefused(l, who, lba, SameCount(l.Size(), lba, len), BitSet(cdb[1], 3), data.value);
    }
  }

  /** A request for no blocks that passes the check starts at most at the end of the device. */
  lemma PassesInside(l: Lun, lba: uint64, len: uint32, cdb: seq<byte>)
    requires l.Valid() && |cdb| == 16
    ensures ValidateRequest(l, lba, len, cdb).None? && len == 0 ==> lba <= l.Size()
  {}

  lemma LoopRefused(l: Lun, who: Session, lba: nat, n: nat, unmap: bool, data: seq<byte>)
    requires |data| >= l.bs && LockedOther(l, who)
    ensures SameLoop(l, who, lba, n, unmap, data) == (if n > 0 then RwFailLocked else RwOk, l)
  {}

  lemma TrimsFirstStep(l: Lun, es: seq<Extent>)
    requires l.Valid() && es != []
    ensures TrimsFirst(l, es) <==> Rejected(l, es[0]).None? && (es[0].len > 0 || TrimsFirst(l, es[1..]))
  {
    hide Rejected;
    var rest := es[1..];
    if Rejected(l, es[0]).None? && es[0].len > 0 {
      assert NoneRejectedUpTo(l, es, 0);
    }
    if Rejected(l, es[0]).None? && TrimsFirst(l, rest) {
      var k :| 0 <= k < |rest| && rest[k].len > 0 && NoneRejectedUpTo(l, rest, k);
      assert es[k + 1].len > 0;
      forall j | 0 <= j <= k + 1 ensures Rejected(l, es[j]).None? {
        if j > 0 { assert Rejected(l, rest[j - 1]).None?; }
      }
      assert NoneRejectedUpTo(l, es, k + 1);
    }
    if TrimsFirst(l, es) {
      var k :| 0 <= k < |es| && es[k].len > 0 && NoneRejectedUpTo(l, es, k);
      if k > 0 {
        forall j | 0 <= j <= k - 1 ensures Rejected(l, rest[j]).None? { assert Rejected(l, es[j + 1]).None?; }
        assert rest[k - 1].len > 0 && NoneRejectedUpTo(l, rest, k - 1);
      }
    }
  }

  /** Every call of the backend is refused, because of the reservation or because the backend fails. */
  predicate Refuses(l: Lun, who: Session) {
    LockedOther(l, who) || !l.healthy
  }

  function Refusal(l: Lun, who: Session): (r: RwResult) {
    if LockedOther(l, who) then RwFailLocked else RwFailGeneral
  }

  lemma {:induction false} UnmapLoopRefused(s: UnmapState, who: Session, es: seq<Extent>)
    requires s.lun.Valid() && Refuses(s.lun, who)
    requires s.sense == Some(OutOfRange) || (s.sense == None && s.rc == RwOk)
    ensures var r := UnmapLoop(s, who, es);
            r.lun == s.lun &&
            if s.sense == None && TrimsFirst(s.lun, es) then r.rc == Refusal(s.lun, who) && r.sense == None
            else r.sense == Some(OutOfRange) || (r.sense == None && r.rc == RwOk)
    decreases |es|
  {
    hide Trim, Rejected, TrimsFirst;
    if es != [] {
      var l, e := s.lun, es[0];
      TrimsFirstStep(l, es);
      RejectedSense(l, e);
      if Rejected(l, e).Some? {
        UnmapLoopRefused(UnmapState(RwFailGeneral, Rejected(l, e), l), who, es[1..]);
      } else if e.len == 0 {
        UnmapLoopRefused(s, who, es[1..]);
      } else {
        TrimFails(l, who, e.lba, e.len);
      }
    } else {
      NothingToTrim(s.lun);
    }
  }

  lemma NothingToTrim(l: Lun)
    requires l.Valid()
    ensures !TrimsFirst(l, [])
  {}

  /**
   On a device that another session has reserved no command changes anything, and exactly those that get as far as the
   backend are answered with a reservation conflict.
   */
  lemma ReservedIff(l: Lun, r: Request)
    requires l.Valid() && Complete(l, r.command) && LockedOther(l, r.who)
    ensures Execute(l, r).1 == l
    ensures Execute(l, r).0.sense == Some(ReservationConflict) <==> Reaches(l, r.command)
    ensures Reaches(l, r.command) ==> Execute(l, r).0.reaction == AsIs
  {
    hide WriteVerify, WriteSame, UnmapLoop, CompareAndWrite, Span, ValidateRequest, LbaLen, TrimsFirst, Be64;
    match r.command
    case WriteCmd(cdb, data) => WriteReserved(l, r.who, cdb, data);
    case SameCmd(cdb, data) => SameReserved(l, r.who, cdb, data);
    case UnmapCmd(data) => UnmapLoopRefused(UnmapState(RwOk, None, l), r.who, Descriptors(data, 8));
    case CompareCmd(cdb, data) => CompareReserved(l, r.who, cdb, data);
  }

  lemma CompareReserved(l: Lun, who: Session, cdb: seq<byte>, data: seq<byte>)
    requires l.Valid() && |cdb| == 16 && CompareDataPresent(l, cdb, data) && LockedOther(l, who)
    ensures var (response, l') := CompareAndWrite(l, who, cdb, data);
            l' == l && (response.sense == Some(ReservationConflict) <==>
                        ValidateRequest(l, Be64(cdb, 2), cdb[13], cdb).None? && cdb[13] <= MAX_CAW_BLOCKS) &&
            (response.sense == Some(ReservationConflict) ==> response.reaction == AsIs)
  {
    hide RangeOk, Span, Be64;
  }

  /** What the initiator is sent: a response with status RESERVATION CONFLICT (18h), and no R2T. */
  lemma ReservedIsAnswered(t: O.Target, r: Request, itt: uint32, announced: uint32, random: uint32)
    requires t.lun.Valid() && Complete(t.lun, r.command) && LockedOther(t.lun, r.who) && Reaches(t.lun, r.command)
    ensures var (response, l) := Execute(t.lun, r);
            O.Respond(t.(lun := l), itt, announced, random, response) ==
            ([O.ScsiResponse(Some(ReservationConflict), 0x18, None)], t)
  {
    hide Execute, Complete, Reaches;
    ReservedIff(t.lun, r);
  }

  // --- on a device that fails

  /** How a command is answered that gets as far as a backend that fails. */
  predicate AnswersFailure(c: Command, r: Response) {
    match c
    case WriteCmd(_, _) => !Answered(r)
    case SameCmd(_, _) => Success(r)
    case UnmapCmd(_) => r.reaction == AsIs && r.sense == Some(WriteError)
    case CompareCmd(_, _) => r.reaction == AsIs && r.sense == Some(WriteError)
  }

  /**
   On a device whose backend fails no command changes anything. Of those that get as far as the backend an UNMAP and a COMPARE
   AND WRITE are answered with a write error, a WRITE is not answered, and a WRITE SAME is answered with success.
   */
  lemma FailureIsAnswered(l: Lun, r: Request)
    requires l.Valid() && Complete(l, r.command) && !l.healthy && !LockedOther(l, r.who)
    ensures Execute(l, r).1 == l
    ensures Reaches(l, r.command) ==> AnswersFailure(r.command, Execute(l, r).0)
  {
    hide WriteVerify, WriteSame, UnmapLoop, CompareAndWrite, Span, ValidateRequest, LbaLen, TrimsFirst, Be64;
    match r.command
    case WriteCmd(cdb, data) => WriteFails(l, r.who, cdb, data);
    case SameCmd(cdb, data) => SameFails(l, r.who, cdb, data);
    case UnmapCmd(data) => UnmapLoopRefused(UnmapState(RwOk, None, l), r.who, Descriptors(data, 8));
    case CompareCmd(cdb, data) => CompareFails(l, r.who, cdb, data);
  }

  lemma WriteFails(l: Lun, who: Session, cdb: seq<byte>, data: Option<seq<byte>>)
    requires l.Valid() && |cdb| == 16 && !l.healthy && !LockedOther(l, who)
    ensures var (response, l') := WriteVerify(l, who, cdb, data);
            l' == l && (Passes(l, cdb) && data.Some? && data.value != [] ==> !Answered(response))
  {
    hide WriteImmediate, LbaLen, Span, RangeOk, WriteResponse;
    if data.Some? {
      if data.value == [] { EmptyImmediate(l, who, LbaLen(cdb).0, LbaLen(cdb).1); }
      else { W.ImmediateFails(l, who, LbaLen(cdb).0, LbaLen(cdb).1, data.value); }
    }
  }

  lemma SameFails(l: Lun, who: Session, cdb: seq<byte>, data: Option<seq<byte>>)
    requires l.Valid() && |cdb| == 16 && !l.healthy && !LockedOther(l, who)
    ensures var (response, l') := WriteSame(l, who, cdb, data);
            l' == l && (Reaches(l, SameCmd(cdb, data)) ==> Success(response))
  {
    hide SameLoop, LbaLen, Span, OneBlock, BitSet, Lun.Size;
    var (lba, len) := LbaLen(cdb);
    SizeBound(l);
    PassesInside(l, lba, len, cdb);
    if data.Some? && OneBlock(|data.value|, l.bs) {
      LoopFails(l, who, lba, SameCount(l.Size(), lba, len), BitSet(cdb[1], 3), data.value);
    }
  }

  lemma LoopFails(l: Lun, who: Session, lba: nat, n: nat, unmap: bool, data: seq<byte>)
    requires |data| >= l.bs && !l.healthy && !LockedOther(l, who)
    ensures SameLoop(l, who, lba, n, unmap, data) == (if n > 0 then RwFailGeneral else RwOk, l)
  {
    if n > 0 { TrimFails(l, who, lba, 1); }
  }

  lemma CompareFails(l: Lun, who: Session, cdb: seq<byte>, data: seq<byte>)
    requires l.Valid() && |cdb| == 16 && CompareDataPresent(l, cdb, data) && !l.healthy && !LockedOther(l, who)
    ensures var (response, l') := CompareAndWrite(l, who, cdb, data);
            l' == l && (ValidateRequest(l, Be64(cdb, 2), cdb[13], cdb).None? && cdb[13] <= MAX_CAW_BLOCKS ==>
                        response.reaction == AsIs && response.sense == Some(WriteError))
  {
    hide RangeOk, Span, Be64;
  }

  // --- without a reservation

  lemma PartsFree(l: Lun, who: Session, lba: nat, work: nat, received: nat, data: seq<byte>)
    requires l.bs > 0 && Span(work, l.bs) <= |data| && !LockedOther(l, who)
    ensures WriteParts(l, who, lba, work, received, data).0 != RwFailLocked
  {
    hide Splice, Span;
  }

  lemma {:induction false} SameLoopFree(l: Lun, who: Session, lba: nat, n: nat, unmap: bool, data: seq<byte>)
    requires |data| >= l.bs && !LockedOther(l, who)
    ensures SameLoop(l, who, lba, n, unmap, data).0 != RwFailLocked
    decreases n
  {
    hide Trim, Write, Span;
    if n > 0 {
      assert Span(1, l.bs) == l.bs;
      OneCallFree(l, who, lba, data);
      var (rc, l1) := if unmap then Trim(l, who, lba, 1) else Write(l, who, lba, 1, data);
      if rc == RwOk { SameLoopFree(l1, who, lba + 1, n - 1, unmap, data); }
    }
  }

  lemma OneCallFree(l: Lun, who: Session, lba: nat, data: seq<byte>)
    requires |data| >= l.bs && !LockedOther(l, who)
    ensures Span(1, l.bs) <= |data| && Write(l, who, lba, 1, data).0 != RwFailLocked
    ensures Trim(l, who, lba, 1).0 != RwFailLocked
  {
    hide Span;
    TrimFree(l, who, lba, 1);
  }

  lemma {:induction false} TrimByWritingFree(l: Lun, who: Session, blk: nat, n: nat)
    requires !LockedOther(l, who)
    ensures TrimByWriting(l, who, blk, n).0 != RwFailLocked
    decreases n
  {
    hide Span;
    if n > 0 {
      assert Span(1, l.bs) == l.bs;
      TrimByWritingFree(Write(l, who, blk, 1, Zeros(l.bs)).1, who, blk + 1, n - 1);
    }
  }

  lemma TrimFree(l: Lun, who: Session, blk: nat, n: nat)
    requires !LockedOther(l, who)
    ensures Trim(l, who, blk, n).0 != RwFailLocked
  {
    hide Span;
    TrimByWritingFree(l, who, blk, n);
  }

  lemma {:induction false} UnmapLoopFree(s: UnmapState, who: Session, es: seq<Extent>)
    requires s.lun.Valid() && !LockedOther(s.lun, who) && s.rc != RwFailLocked && s.sense != Some(ReservationConflict)
    ensures var r := UnmapLoop(s, who, es); r.rc != RwFailLocked && r.sense != Some(ReservationConflict)
    decreases |es|
  {
    hide Trim, Rejected;
    if es != [] {
      var l, e := s.lun, es[0];
      RejectedSense(l, e);
      if Rejected(l, e).Some? {
        UnmapLoopFree(UnmapState(RwFailGeneral, Rejected(l, e), l), who, es[1..]);
      } else if e.len == 0 {
        UnmapLoopFree(s, who, es[1..]);
      } else {
        TrimFree(l, who, e.lba, e.len);
        var (rc, l') := Trim(l, who, e.lba, e.len);
        if rc == RwOk { UnmapLoopFree(UnmapState(RwOk, s.sense, l'), who, es[1..]); }
      }
    }
  }

  /** No other command is told of a reservation conflict. */
  lemma FreeIsNoConflict(l: Lun, r: Request)
    requires l.Valid() && Complete(l, r.command) && !LockedOther(l, r.who)
    ensures Execute(l, r).0.sense != Some(ReservationConflict)
  {
    hide UnmapLoop, Span, RangeOk, LbaLen, Be64, WriteParts, SameLoop, Splice, BitSet, WriteResponse;
    match r.command
    case WriteCmd(cdb, data) =>
      NoSense(l, LbaLen(cdb).0, LbaLen(cdb).1, if data.Some? then |data.value| else 0, BitSet(cdb[1], 3));
      if data.Some? {
        var received := WholeBlocks(|data.value|, l.bs);
        BlocksFit(|data.value|, l.bs, Min(LbaLen(cdb).1, received));
        PartsFree(l, r.who, LbaLen(cdb).0, Min(LbaLen(cdb).1, received), received, data.value);
      }
    case SameCmd(cdb, data) =>
      if data.Some? && OneBlock(|data.value|, l.bs) {
        SameLoopFree(l, r.who, LbaLen(cdb).0, SameCount(l.Size(), LbaLen(cdb).0, LbaLen(cdb).1), BitSet(cdb[1], 3), data.value);
      }
    case UnmapCmd(data) => UnmapLoopFree(UnmapState(RwOk, None, l), r.who, Descriptors(data, 8));
    case CompareCmd(cdb, data) =>
  }

  /** The status RESERVATION CONFLICT is sent exactly for a command that meets the reservation of another session. */
  lemma ConflictIff(t: O.Target, r: Request, itt: uint32, announced: uint32, random: uint32)
    requires t.lun.Valid() && Complete(t.lun, r.command)
    ensures var (response, l) := Execute(t.lun, r); var out := O.Respond(t.(lun := l), itt, announced, random, response).0;
            (exists k :: 0 <= k < |out| && out[k].ScsiResponse? && out[k].status == 0x18) <==>
            LockedOther(t.lun, r.who) && Reaches(t.lun, r.command)
  {
    hide Complete, Execute, Reaches;
    if LockedOther(t.lun, r.who) {
      ReservedIff(t.lun, r);
      if Reaches(t.lun, r.command) {
        ReservedIsAnswered(t, r, itt, announced, random);
        var (response, l) := Execute(t.lun, r);
        assert O.Respond(t.(lun := l), itt, announced, random, response).0[0].status == 0x18;
      }
    } else {
      FreeIsNoConflict(t.lun, r);
    }
  }
}

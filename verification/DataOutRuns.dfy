/**
 Runs of Data-Out PDUs: what the counters mean, when a transfer is complete, and what is then on the disk.
 */
module DataOutRuns {
  import opened Bytes
  import opened Lun
  import opened ScsiCommands
  import opened DataOut

  // --- streams of PDUs

  function Sum(ps: seq<Pdu>): (r: nat) {
    if ps == [] then 0 else |ps[0].data| + Sum(ps[1..])
  }

  /** A plain piece of the initiator's buffer, made of whole blocks, at or after `from`. */
  predicate Piece(p: Pdu, tag: uint32, buffer: seq<byte>, from: nat, bs: nat)
    requires bs > 0
  {
    Names(p, tag) && |p.data| > 0 && p.offset % bs == 0 && |p.data| % bs == 0 &&
    from <= p.offset && p.offset + |p.data| <= |buffer| && p.data == buffer[p.offset..p.offset + |p.data|]
  }

  predicate Pieces(ps: seq<Pdu>, tag: uint32, buffer: seq<byte>, from: nat, bs: nat)
    requires bs > 0
  {
    forall k :: 0 <= k < |ps| ==> Piece(ps[k], tag, buffer, from, bs)
  }

  predicate Hits(p: Pdu, i: int) {
    p.offset <= i < p.offset + |p.data|
  }

  /** Some PDU of the stream carries byte `i` of the buffer. */
  predicate Covered(ps: seq<Pdu>, i: int) {
    exists k :: 0 <= k < |ps| && Hits(ps[k], i)
  }

  predicate Apart(p: Pdu, q: Pdu) {
    p.offset + |p.data| <= q.offset || q.offset + |q.data| <= p.offset
  }

  predicate PairwiseApart(ps: seq<Pdu>) {
    forall j, k :: 0 <= j < k < |ps| ==> Apart(ps[j], ps[k])
  }

  /** The disk after the pieces have been stored one after the other. */
  function Stored(s: seq<byte>, base: nat, ps: seq<Pdu>): (r: seq<byte>)
    requires forall k :: 0 <= k < |ps| ==> base + ps[k].offset + |ps[k].data| <= |s|
    ensures |r| == |s|
    decreases |ps|
  {
    if ps == [] then s else Stored(Splice(s, base + ps[0].offset, ps[0].data), base, ps[1..])
  }

  lemma CoveredTail(ps: seq<Pdu>, i: int)
    requires ps != []
    ensures Covered(ps, i) <==> Hits(ps[0], i) || Covered(ps[1..], i)
  {
    if Covered(ps[1..], i) {
      var k :| 0 <= k < |ps[1..]| && Hits(ps[1..][k], i);
      assert ps[k + 1] == ps[1..][k];
    }
    if Covered(ps, i) {
      var k :| 0 <= k < |ps| && Hits(ps[k], i);
      assert k > 0 ==> ps[1..][k - 1] == ps[k];
    }
  }

  /** Order and overlap of the pieces do not matter: covered bytes come from the buffer, all others stay. */
  lemma {:induction false} StoredMeans(s: seq<byte>, base: nat, ps: seq<Pdu>, tag: uint32, buffer: seq<byte>, from: nat, bs: nat, x: nat)
    requires bs > 0 && base + |buffer| <= |s| && Pieces(ps, tag, buffer, from, bs) && x < |s|
    ensures Covered(ps, x - base) ==> base <= x < base + |buffer|
    ensures Stored(s, base, ps)[x] == if Covered(ps, x - base) then buffer[x - base] else s[x]
    decreases |ps|
  {
    if ps != [] {
      CoveredTail(ps, x - base);
      assert Piece(ps[0], tag, buffer, from, bs);
      var s1 := Splice(s, base + ps[0].offset, ps[0].data);
      StoredMeans(s1, base, ps[1..], tag, buffer, from, bs, x);
    }
  }

  // --- counting

  function Interval(a: nat, b: nat): (r: set<int>)
    requires a <= b
    ensures forall i :: i in r <==> a <= i < b
    ensures |r| == b - a
    decreases b
  {
    if a == b then {} else Interval(a, b - 1) + {b - 1}
  }

  function Range(p: Pdu): (r: set<int>)
    ensures |r| == |p.data|
  {
    Interval(p.offset, p.offset + |p.data|)
  }

  function BytesOf(ps: seq<Pdu>): (r: set<int>)
    ensures forall i :: i in r <==> Covered(ps, i)
    decreases |ps|
  {
    if ps == [] then {} else
      assert forall i :: Covered(ps, i) <==> Hits(ps[0], i) || Covered(ps[1..], i) by {
        forall i ensures Covered(ps, i) <==> Hits(ps[0], i) || Covered(ps[1..], i) { CoveredTail(ps, i); }
      }
      Range(ps[0]) + BytesOf(ps[1..])
  }

  lemma UnionSize(a: set<int>, b: set<int>)
    ensures |a + b| + |a * b| == |a| + |b|
  {
    assert a + b == a + (b - a) && b == (b - a) + a * b;
  }

  /** The first PDU is apart from all others. */
  predicate HeadApart(ps: seq<Pdu>)
    requires ps != []
  {
    forall k :: 1 <= k < |ps| ==> Apart(ps[0], ps[k])
  }

  lemma ApartTail(ps: seq<Pdu>)
    requires ps != []
    ensures PairwiseApart(ps) <==> HeadApart(ps) && PairwiseApart(ps[1..])
  {
    if PairwiseApart(ps[1..]) && HeadApart(ps) {
      forall j, k | 0 <= j < k < |ps| ensures Apart(ps[j], ps[k]) {
        if j > 0 { assert Apart(ps[1..][j - 1], ps[1..][k - 1]); }
      }
    }
  }

  lemma OverlapShows(ps: seq<Pdu>)
    requires ps != [] && forall k :: 0 <= k < |ps| ==> |ps[k].data| > 0
    ensures HeadApart(ps) <==> Range(ps[0]) * BytesOf(ps[1..]) == {}
  {
    hide Covered, Range;
    if HeadApart(ps) { ApartIsDisjoint(ps); } else { OverlapIsShared(ps); }
  }

  lemma ApartIsDisjoint(ps: seq<Pdu>)
    requires ps != [] && HeadApart(ps)
    ensures Range(ps[0]) * BytesOf(ps[1..]) == {}
  {
    forall i | i in Range(ps[0]) ensures !Covered(ps[1..], i) {
      forall k | 0 <= k < |ps[1..]| ensures !Hits(ps[1..][k], i) { assert Apart(ps[0], ps[k + 1]); }
    }
  }

  lemma OverlapIsShared(ps: seq<Pdu>)
    requires ps != [] && !HeadApart(ps) && forall k :: 0 <= k < |ps| ==> |ps[k].data| > 0
    ensures Range(ps[0]) * BytesOf(ps[1..]) != {}
  {
    var p := ps[0];
    var k :| 1 <= k < |ps| && !Apart(p, ps[k]);
    var i := if p.offset < ps[k].offset then ps[k].offset else p.offset;
    assert Hits(ps[1..][k - 1], i);
    assert i in Range(p) * BytesOf(ps[1..]);
  }

  /** Overlapping PDUs carry more bytes than they cover, and only those. */
  lemma {:induction false} CoverageCount(ps: seq<Pdu>)
    requires forall k :: 0 <= k < |ps| ==> |ps[k].data| > 0
    ensures |BytesOf(ps)| <= Sum(ps)
    ensures |BytesOf(ps)| == Sum(ps) <==> PairwiseApart(ps)
    decreases |ps|
  {
    hide Covered, PairwiseApart, HeadApart, Range;
    if ps == [] {
      NoPairs(ps);
    } else {
      CoverageCount(ps[1..]);
      UnionSize(Range(ps[0]), BytesOf(ps[1..]));
      ApartTail(ps);
      OverlapShows(ps);
    }
  }

  lemma NoPairs(ps: seq<Pdu>)
    requires ps == []
    ensures PairwiseApart(ps)
  {}

  lemma BytesInRange(ps: seq<Pdu>, tag: uint32, buffer: seq<byte>, from: nat, bs: nat)
    requires bs > 0 && Pieces(ps, tag, buffer, from, bs) && from <= |buffer|
    ensures BytesOf(ps) <= Interval(from, |buffer|)
    ensures forall k :: 0 <= k < |ps| ==> |ps[k].data| > 0
  {
    assert forall k :: 0 <= k < |ps| ==> Piece(ps[k], tag, buffer, from, bs);
    forall i | i in BytesOf(ps) ensures i in Interval(from, |buffer|) {
      var k :| 0 <= k < |ps| && Hits(ps[k], i);
      assert Piece(ps[k], tag, buffer, from, bs);
    }
  }

  lemma CoversAllAsSets(ps: seq<Pdu>, from: nat, total: nat)
    requires from <= total && BytesOf(ps) <= Interval(from, total)
    ensures BytesOf(ps) == Interval(from, total) <==> CoversAll(ps, from, total)
  {
    hide Covered;
    var all, got := Interval(from, total), BytesOf(ps);
    if got == all {
      forall i | from <= i < total ensures Covered(ps, i) { assert i in all; }
    }
    if CoversAll(ps, from, total) {
      assert forall i :: i in all ==> i in got;
    }
  }

  /** All bytes of the buffer from `from` on are carried. */
  predicate CoversAll(ps: seq<Pdu>, from: nat, total: nat) {
    forall i :: from <= i < total ==> Covered(ps, i)
  }

  /** A stream that carries as many bytes as are missing covers them all exactly when its PDUs are apart. */
  lemma CompleteIffApart(ps: seq<Pdu>, tag: uint32, buffer: seq<byte>, from: nat, bs: nat)
    requires bs > 0 && Pieces(ps, tag, buffer, from, bs) && from <= |buffer| && Sum(ps) == |buffer| - from
    ensures CoversAll(ps, from, |buffer|) <==> PairwiseApart(ps)
  {
    hide Pieces, CoversAll, PairwiseApart, Covered;
    BytesInRange(ps, tag, buffer, from, bs);
    CoversAllAsSets(ps, from, |buffer|);
    CoverageCount(ps);
    SubsetSize(BytesOf(ps), Interval(from, |buffer|));
  }

  /** PDUs that are apart never carry more than is missing, and carry that much exactly when all of it is covered. */
  lemma ApartIsCompleteIffCovering(ps: seq<Pdu>, tag: uint32, buffer: seq<byte>, from: nat, bs: nat)
    requires bs > 0 && Pieces(ps, tag, buffer, from, bs) && from <= |buffer| && PairwiseApart(ps)
    ensures Sum(ps) <= |buffer| - from
    ensures Sum(ps) == |buffer| - from <==> CoversAll(ps, from, |buffer|)
  {
    hide Pieces, CoversAll, PairwiseApart, Covered;
    BytesInRange(ps, tag, buffer, from, bs);
    CoversAllAsSets(ps, from, |buffer|);
    CoverageCount(ps);
    SubsetSize(BytesOf(ps), Interval(from, |buffer|));
  }

  // --- runs

  /** The device works and holds the whole transfer at the session's LBA. */
  predicate Ready(l: Lun, who: Session, s: R2tSession, total: nat) {
    l.Valid() && l.healthy && !LockedOther(l, who) && Span(s.bufferLba, l.bs) + total <= |l.disk| && total < TWO32
  }

  /** The counters of a plain WRITE in progress. */
  predicate InProgress(l: Lun, who: Session, s: R2tSession, total: nat) {
    !s.isWriteSame && !SyncTrips(l, who, s) && s.bytesLeft > 0 && s.bytesDone + s.bytesLeft == total
  }

  function Advance(s: R2tSession, n: nat): (r: R2tSession)
    requires n <= s.bytesLeft && s.bytesDone + n < TWO32
  {
    s.(bytesDone := s.bytesDone + n, bytesLeft := s.bytesLeft - n)
  }

  lemma PieceFits(l: Lun, who: Session, s: R2tSession, p: Pdu, total: nat)
    requires Ready(l, who, s, total) && p.offset % l.bs == 0 && |p.data| % l.bs == 0 && |p.data| > 0
    requires p.offset + |p.data| <= total
    ensures |p.data| >= l.bs
    ensures var blk: nat, n := s.bufferLba + p.offset / l.bs, |p.data| / l.bs;
            blk < TWO64 && n > 0 && Span(n, l.bs) == |p.data| && Span(blk, l.bs) == Span(s.bufferLba, l.bs) + p.offset
  {
    hide Span;
    var k, n := p.offset / l.bs, |p.data| / l.bs;
    WholeSpan(p.offset, l.bs);
    WholeSpan(|p.data|, l.bs);
    SpanAdd(s.bufferLba, k, l.bs);
    SpanCovers(s.bufferLba + k, l.bs);
  }

  lemma WholeSpan(n: nat, bs: nat)
    requires bs > 0 && n % bs == 0
    ensures Span(n / bs, bs) == n && (n > 0 ==> n / bs > 0 && n >= bs)
  {
    DivisionBounds(n, bs, 1);
    assert n == n / bs * bs + n % bs;
  }

  /** One piece: its bytes are stored at their place, and move from `bytesLeft` to `bytesDone`. */
  lemma StoreMeans(l: Lun, who: Session, s: R2tSession, p: Pdu, total: nat)
    requires Ready(l, who, s, total) && !s.isWriteSame && p.offset % l.bs == 0 && |p.data| % l.bs == 0 && |p.data| > 0
    requires p.offset + |p.data| <= total
    ensures |p.data| >= l.bs
    ensures Store(l, who, s, p) == (RwOk, l.(disk := Splice(l.disk, Span(s.bufferLba, l.bs) + p.offset, p.data)))
  {
    hide Span, Write, Splice;
    PieceFits(l, who, s, p, total);
    var blk, n := s.bufferLba + p.offset / l.bs, |p.data| / l.bs;
    WriteMeans(l, who, blk, n, p.data);
    assert p.data[..Span(n, l.bs)] == p.data;
  }

  /** A piece for `tag` that can be stored. */
  predicate Storable(t: Target, who: Session, tag: uint32, p: Pdu, total: nat) {
    Names(p, tag) && tag in t.tasks && Ready(t.lun, who, t.tasks[tag], total) && !t.tasks[tag].isWriteSame &&
    p.offset % t.lun.bs == 0 && |p.data| % t.lun.bs == 0 && |p.data| > 0 && p.offset + |p.data| <= total
  }

  /** The session of `tag` after the piece: gone when the F bit comes with the last missing byte. */
  function TasksAfter(tasks: map<uint32, R2tSession>, tag: uint32, s: R2tSession, final: bool): (r: map<uint32, R2tSession>) {
    if final && s.bytesLeft == 0 then tasks - {tag} else tasks[tag := s]
  }

  /** Every storable piece is stored at its place and, unless FUA trips over its sync, counted, also one that was sent before. */
  lemma PushMeans(t: Target, who: Session, tag: uint32, p: Pdu, total: nat)
    requires Storable(t, who, tag, p, total)
    ensures var s' := Count(t.tasks[tag], |p.data|); var (reply, t') := Push(t, who, p);
            t'.lun == t.lun.(disk := Splice(t.lun.disk, Span(t.tasks[tag].bufferLba, t.lun.bs) + p.offset, p.data)) &&
            if SyncTrips(t.lun, who, t.tasks[tag]) then reply == Reply(IoError, []) && t'.tasks == t.tasks
            else t'.tasks == TasksAfter(t.tasks, tag, s', p.final) && reply == Finish(t, tag, s', p.final).0
  {
    hide Span, Store, Splice, U32, Names;
    FiledUnderName(p, tag);
    var s := t.tasks[tag];
    StoreMeans(t.lun, who, s, p, total);
    var s' := Count(s, |p.data|);
    var l := t.lun.(disk := Splice(t.lun.disk, Span(s.bufferLba, t.lun.bs) + p.offset, p.data));
    if !SyncTrips(t.lun, who, s) {
      assert Push(t, who, p) == Finish(Target(l, t.tasks[tag := s']), tag, s', p.final);
      assert t.tasks[tag := s'] - {tag} == t.tasks - {tag};
    }
  }

  /** `bytesDone + bytesLeft` never changes modulo 2^32, whatever is sent. */
  lemma CountersConserved(s: R2tSession, n: nat)
    ensures U32(Count(s, n).bytesDone + Count(s, n).bytesLeft) == U32(s.bytesDone + s.bytesLeft)
  {
    var q1, q2 := (s.bytesDone + n) / TWO32, (s.bytesLeft - n) / TWO32;
    var m := Count(s, n).bytesDone + Count(s, n).bytesLeft;
    assert s.bytesDone + s.bytesLeft == m + (q1 + q2) * TWO32;
    WrapsAround(m, q1 + q2);
  }

  lemma WrapsAround(m: int, q: int)
    ensures U32(m + q * TWO32) == U32(m)
  {}

  function Finals(ps: seq<Pdu>): (r: nat) {
    if ps == [] then 0 else (if ps[0].final then 1 else 0) + Finals(ps[1..])
  }

  /** The number of SCSI responses in the replies. */
  function Responses(replies: seq<Reply>): (r: nat) {
    if replies == [] then 0 else (if GOOD in replies[0].out then 1 else 0) + Responses(replies[1..])
  }

  predicate AllFine(replies: seq<Reply>) {
    forall k :: 0 <= k < |replies| ==> replies[k].fail == Fine
  }

  /** The stream carries all that is missing and ends with the F bit. */
  predicate Completes(ps: seq<Pdu>, s: R2tSession) {
    ps != [] && Sum(ps) == s.bytesLeft && ps[|ps| - 1].final
  }

  /** What is on the way for `tag`: a plain WRITE of `buffer`, and pieces of it that carry no more than is missing. */
  predicate Transfer(t: Target, who: Session, tag: uint32, ps: seq<Pdu>, buffer: seq<byte>, from: nat) {
    tag in t.tasks && InProgress(t.lun, who, t.tasks[tag], |buffer|) && Ready(t.lun, who, t.tasks[tag], |buffer|) &&
    Pieces(ps, tag, buffer, from, t.lun.bs) && Sum(ps) <= t.tasks[tag].bytesLeft
  }

  /** `bytesDone` and `bytesLeft` after any pieces, in any order; the session goes exactly when the stream completes. */
  lemma {:induction false} RunMeans(t: Target, who: Session, tag: uint32, ps: seq<Pdu>, buffer: seq<byte>, from: nat)
    requires Transfer(t, who, tag, ps, buffer, from)
    ensures forall k :: 0 <= k < |ps| ==> Span(t.tasks[tag].bufferLba, t.lun.bs) + ps[k].offset + |ps[k].data| <= |t.lun.disk|
    ensures var s := t.tasks[tag]; var (replies, t') := PushAll(t, who, ps);
            t'.lun == t.lun.(disk := Stored(t.lun.disk, Span(s.bufferLba, t.lun.bs), ps)) &&
            t'.tasks == (if Completes(ps, s) then t.tasks - {tag} else t.tasks[tag := Advance(s, Sum(ps))]) &&
            AllFine(replies) && Responses(replies) == Finals(ps) &&
            (Completes(ps, s) ==> replies[|ps| - 1] == Reply(Fine, [GOOD]))
    decreases |ps|
  {
    hide Push, Splice, Span, Finals, Responses, Pieces, U32;
    PiecesFit(t, who, tag, ps, buffer, from);
    var s := t.tasks[tag];
    if ps == [] {
      NothingCounted();
      assert t.tasks[tag := Advance(s, 0)] == t.tasks;
    } else {
      var p, rest := ps[0], ps[1..];
      FirstPiece(t, who, tag, ps, buffer, from);
      var (reply, t1) := Push(t, who, p);
      var (replies, t2) := PushAll(t1, who, rest);
      CountTail(ps, [reply] + replies);
      assert ([reply] + replies)[1..] == replies;
      if rest == [] {
        NothingCounted();
      } else {
        RunMeans(t1, who, tag, rest, buffer, from);
        assert t1.tasks[tag] == Advance(s, |p.data|);
        assert Completes(rest, t1.tasks[tag]) == Completes(ps, s);
        assert t.tasks[tag := Advance(s, |p.data|)] - {tag} == t.tasks - {tag};
      }
    }
  }

  lemma NothingCounted()
    ensures Finals([]) == 0 && Responses([]) == 0 && Sum([]) == 0
  {}

  lemma CountTail(ps: seq<Pdu>, replies: seq<Reply>)
    requires ps != [] && replies != []
    ensures Finals(ps) == (if ps[0].final then 1 else 0) + Finals(ps[1..])
    ensures Responses(replies) == (if GOOD in replies[0].out then 1 else 0) + Responses(replies[1..])
  {}

  lemma PiecesFit(t: Target, who: Session, tag: uint32, ps: seq<Pdu>, buffer: seq<byte>, from: nat)
    requires Transfer(t, who, tag, ps, buffer, from)
    ensures forall k :: 0 <= k < |ps| ==> Span(t.tasks[tag].bufferLba, t.lun.bs) + ps[k].offset + |ps[k].data| <= |t.lun.disk|
  {
    hide Span;
    assert forall k :: 0 <= k < |ps| ==> Piece(ps[k], tag, buffer, from, t.lun.bs);
  }

  /** The first of several pieces leaves a transfer with the rest of them. */
  lemma FirstPiece(t: Target, who: Session, tag: uint32, ps: seq<Pdu>, buffer: seq<byte>, from: nat)
    requires Transfer(t, who, tag, ps, buffer, from) && ps != []
    ensures Span(t.tasks[tag].bufferLba, t.lun.bs) + ps[0].offset + |ps[0].data| <= |t.lun.disk|
    ensures |ps[0].data| <= t.tasks[tag].bytesLeft && Sum(ps) == |ps[0].data| + Sum(ps[1..])
    ensures var s, p := t.tasks[tag], ps[0]; var s1 := Advance(s, |p.data|); var (reply, t1) := Push(t, who, p);
            t1.lun == t.lun.(disk := Splice(t.lun.disk, Span(s.bufferLba, t.lun.bs) + p.offset, p.data)) &&
            reply.fail == Fine && (GOOD in reply.out <==> p.final) &&
            (|ps| > 1 ==> t1.tasks == t.tasks[tag := s1] && Transfer(t1, who, tag, ps[1..], buffer, from)) &&
            (|ps| == 1 ==> t1.tasks == TasksAfter(t.tasks, tag, s1, p.final)) &&
            (p.final && s1.bytesLeft == 0 ==> reply.out == [GOOD])
  {
    hide Push, Splice, Span, Pieces, Piece, Advance, Sum;
    var s, p := t.tasks[tag], ps[0];
    PiecesTail(ps, tag, buffer, from, t.lun.bs);
    PushAdvances(t, who, tag, p, buffer, from);
    AdvanceIs(s, |p.data|);
    if |ps| > 1 {
      StillReady(t.lun, Push(t, who, p).1.lun, who, s, Advance(s, |p.data|), |buffer|);
    }
  }

  lemma AdvanceIs(s: R2tSession, n: nat)
    requires n <= s.bytesLeft && s.bytesDone + n < TWO32
    ensures Advance(s, n) == s.(bytesDone := s.bytesDone + n, bytesLeft := s.bytesLeft - n)
  {}

  lemma StillReady(l: Lun, l': Lun, who: Session, s: R2tSession, s': R2tSession, total: nat)
    requires Ready(l, who, s, total) && SameDevice(l, l') && s'.bufferLba == s.bufferLba
    ensures Ready(l', who, s', total)
  {}

  /** One piece that fits what is missing: the bytes move from `bytesLeft` to `bytesDone`. */
  lemma PushAdvances(t: Target, who: Session, tag: uint32, p: Pdu, buffer: seq<byte>, from: nat)
    requires tag in t.tasks && InProgress(t.lun, who, t.tasks[tag], |buffer|) && Ready(t.lun, who, t.tasks[tag], |buffer|)
    requires Piece(p, tag, buffer, from, t.lun.bs) && |p.data| <= t.tasks[tag].bytesLeft
    ensures Span(t.tasks[tag].bufferLba, t.lun.bs) + p.offset + |p.data| <= |t.lun.disk|
    ensures var s := t.tasks[tag]; var s1 := Advance(s, |p.data|); var (reply, t1) := Push(t, who, p);
            t1.lun == t.lun.(disk := Splice(t.lun.disk, Span(s.bufferLba, t.lun.bs) + p.offset, p.data)) &&
            t1.tasks == TasksAfter(t.tasks, tag, s1, p.final) && reply == Finish(t, tag, s1, p.final).0
  {
    hide Push, Splice, Span, U32;
    PushMeans(t, who, tag, p, |buffer|);
    CountIsAdvance(t.tasks[tag], |p.data|);
  }

  lemma CountIsAdvance(s: R2tSession, n: nat)
    requires n <= s.bytesLeft && s.bytesDone + n < TWO32
    ensures Count(s, n) == Advance(s, n)
  {}

  /** The first of several pieces, and the bytes after it. */
  lemma PiecesTail(ps: seq<Pdu>, tag: uint32, buffer: seq<byte>, from: nat, bs: nat)
    requires bs > 0 && ps != [] && Pieces(ps, tag, buffer, from, bs)
    ensures Piece(ps[0], tag, buffer, from, bs) && Pieces(ps[1..], tag, buffer, from, bs)
    ensures Sum(ps) == |ps[0].data| + Sum(ps[1..]) && (|ps| > 1 ==> Sum(ps[1..]) > 0)
  {
    hide Piece;
    forall k | 0 <= k < |ps[1..]| ensures Piece(ps[1..][k], tag, buffer, from, bs) {
      assert Piece(ps[k + 1], tag, buffer, from, bs);
    }
    if |ps| > 1 {
      PieceCarries(ps[1], tag, buffer, from, bs);
      assert Sum(ps[1..]) == |ps[1].data| + Sum(ps[1..][1..]);
    }
  }

  lemma PieceCarries(p: Pdu, tag: uint32, buffer: seq<byte>, from: nat, bs: nat)
    requires bs > 0 && Piece(p, tag, buffer, from, bs)
    ensures |p.data| > 0
  {}

  // --- any pieces at all, also more than are missing

  /** The PDU with which the session ends: the first with the F bit at which the 32-bit count of missing bytes is zero. */
  function EndAt(s: R2tSession, ps: seq<Pdu>): (k: nat)
    ensures k <= |ps|
    decreases |ps|
  {
    if ps == [] then 0
    else
      var s1 := Count(s, |ps[0].data|);
      if ps[0].final && s1.bytesLeft == 0 then 0 else 1 + EndAt(s1, ps[1..])
  }

  lemma CountTwice(s: R2tSession, a: nat, b: nat)
    ensures Count(Count(s, a), b) == Count(s, a + b)
  {
    WrapAgain(s.bytesDone + a, b);
    var m: int := 0 - b;
    WrapAgain(s.bytesLeft - a, m);
  }

  lemma WrapAgain(x: int, y: int)
    ensures U32(U32(x) + y) == U32(x + y)
  {
    var q := x / TWO32;
    assert x + y == (U32(x) + y) + q * TWO32;
    WrapsAround(U32(x) + y, q);
  }

  /** At PDU `i` the session would end: it has the F bit and as many bytes were sent, modulo 2^32, as were missing. */
  predicate EndsHere(s: R2tSession, ps: seq<Pdu>, i: nat)
    requires i < |ps|
  {
    ps[i].final && U32(s.bytesLeft - Sum(ps[..i + 1])) == 0
  }

  lemma {:induction false} EndAtIsFirst(s: R2tSession, ps: seq<Pdu>)
    ensures var k := EndAt(s, ps); (k < |ps| ==> EndsHere(s, ps, k)) && forall i :: 0 <= i < k ==> !EndsHere(s, ps, i)
    decreases |ps|
  {
    hide U32, EndsHere;
    if ps != [] {
      var n, s1, k := |ps[0].data|, Count(s, |ps[0].data|), EndAt(s, ps);
      EndsFirst(s, ps);
      EndAtIsFirst(s1, ps[1..]);
      forall i | 1 <= i < |ps| ensures EndsHere(s, ps, i) == EndsHere(s1, ps[1..], i - 1) {
        EndsLater(s, ps, i);
      }
      forall i | 0 <= i < k ensures !EndsHere(s, ps, i) {
        if i > 0 { assert !EndsHere(s1, ps[1..], i - 1); }
      }
    }
  }

  lemma EndsFirst(s: R2tSession, ps: seq<Pdu>)
    requires ps != []
    ensures EndsHere(s, ps, 0) <==> ps[0].final && Count(s, |ps[0].data|).bytesLeft == 0
  {
    assert ps[..1] == [ps[0]] && [ps[0]][1..] == [];
    assert Sum(ps[..1]) == |ps[0].data| + Sum([ps[0]][1..]);
  }

  lemma EndsLater(s: R2tSession, ps: seq<Pdu>, i: nat)
    requires 1 <= i < |ps|
    ensures EndsHere(s, ps, i) == EndsHere(Count(s, |ps[0].data|), ps[1..], i - 1)
  {
    hide U32;
    var front := ps[..i + 1];
    assert front[0] == ps[0] && front[1..] == ps[1..][..i];
    assert Sum(front) == |ps[0].data| + Sum(front[1..]);
    CountTwice(s, |ps[0].data|, Sum(front[1..]));
    assert ps[1..][..i - 1 + 1] == ps[1..][..i];
  }

  /** A plain WRITE that FUA does not trip, and pieces of its buffer, however many. */
  predicate Stream(t: Target, who: Session, tag: uint32, ps: seq<Pdu>, buffer: seq<byte>, from: nat) {
    tag in t.tasks && !t.tasks[tag].isWriteSame && !SyncTrips(t.lun, who, t.tasks[tag]) &&
    Ready(t.lun, who, t.tasks[tag], |buffer|) && Pieces(ps, tag, buffer, from, t.lun.bs)
  }

  /** The PDUs that reach the session. */
  function Reaching(s: R2tSession, ps: seq<Pdu>): (r: seq<Pdu>)
    ensures r <= ps
  {
    if EndAt(s, ps) < |ps| then ps[..EndAt(s, ps) + 1] else ps
  }

  /**
   Whatever pieces are sent: those up to the end of the session are stored and counted modulo 2^32 and answered by their
   F bits; what comes after the end finds no session and changes nothing.
   */
  lemma {:induction false} AnyRunMeans(t: Target, who: Session, tag: uint32, ps: seq<Pdu>, buffer: seq<byte>, from: nat)
    requires Stream(t, who, tag, ps, buffer, from)
    ensures var base := Span(t.tasks[tag].bufferLba, t.lun.bs);
            forall k :: 0 <= k < |ps| ==> base + ps[k].offset + |ps[k].data| <= |t.lun.disk|
    ensures var s := t.tasks[tag]; var (replies, t') := PushAll(t, who, ps); var own := Reaching(s, ps);
            t'.lun == t.lun.(disk := Stored(t.lun.disk, Span(s.bufferLba, t.lun.bs), own)) &&
            t'.tasks == (if EndAt(s, ps) < |ps| then t.tasks - {tag} else t.tasks[tag := Count(s, Sum(ps))]) &&
            Responses(replies) == Finals(own)
    decreases |ps|
  {
    hide Push, Splice, Span, Finals, Responses, Pieces, Piece, U32, Count, Sum;
    AllFit(t, who, tag, ps, buffer, from);
    var s := t.tasks[tag];
    NothingCounted();
    if ps == [] {
      CountNothing(s);
      assert t.tasks[tag := Count(s, 0)] == t.tasks;
    } else {
      var p, rest := ps[0], ps[1..];
      var s1 := Count(s, |p.data|);
      FirstOfStream(t, who, tag, ps, buffer, from);
      var (reply, t1) := Push(t, who, p);
      var (replies, t2) := PushAll(t1, who, rest);
      var own := Reaching(s, ps);
      assert own[0] == p;
      CountTail(own, [reply] + replies);
      assert ([reply] + replies)[1..] == replies;
      if p.final && s1.bytesLeft == 0 {
        assert own == [p] && own[1..] == [];
        AfterTheEnd(t1, who, tag, rest);
      } else {
        AnyRunMeans(t1, who, tag, rest, buffer, from);
        assert own[1..] == Reaching(s1, rest);
        CountTwice(s, |p.data|, Sum(rest));
        assert t.tasks[tag := s1] - {tag} == t.tasks - {tag};
        assert t.tasks[tag := s1][tag := Count(s, Sum(ps))] == t.tasks[tag := Count(s, Sum(ps))];
      }
    }
  }

  lemma CountNothing(s: R2tSession)
    ensures Count(s, 0) == s
  {}

  lemma FirstOfStream(t: Target, who: Session, tag: uint32, ps: seq<Pdu>, buffer: seq<byte>, from: nat)
    requires Stream(t, who, tag, ps, buffer, from) && ps != []
    ensures Span(t.tasks[tag].bufferLba, t.lun.bs) + ps[0].offset + |ps[0].data| <= |t.lun.disk|
    ensures Sum(ps) == |ps[0].data| + Sum(ps[1..]) && forall k :: 0 <= k < |ps| ==> Names(ps[k], tag) && |ps[k].data| > 0
    ensures var s, p := t.tasks[tag], ps[0]; var s1 := Count(s, |p.data|); var (reply, t1) := Push(t, who, p);
            t1.lun == t.lun.(disk := Splice(t.lun.disk, Span(s.bufferLba, t.lun.bs) + p.offset, p.data)) &&
            t1.tasks == TasksAfter(t.tasks, tag, s1, p.final) && (GOOD in reply.out <==> p.final) &&
            (!(p.final && s1.bytesLeft == 0) ==> Stream(t1, who, tag, ps[1..], buffer, from)) && s1.bufferLba == s.bufferLba
  {
    hide Push, Splice, Span, U32, Pieces, Piece, Sum;
    PiecesTail(ps, tag, buffer, from, t.lun.bs);
    PiecesCarry(ps, tag, buffer, from, t.lun.bs);
    PieceStored(t, who, tag, ps[0], buffer, from);
    StillReady(t.lun, Push(t, who, ps[0]).1.lun, who, t.tasks[tag], Count(t.tasks[tag], |ps[0].data|), |buffer|);
  }

  lemma PiecesCarry(ps: seq<Pdu>, tag: uint32, buffer: seq<byte>, from: nat, bs: nat)
    requires bs > 0 && Pieces(ps, tag, buffer, from, bs)
    ensures forall k :: 0 <= k < |ps| ==> Names(ps[k], tag) && |ps[k].data| > 0
  {
    assert forall k :: 0 <= k < |ps| ==> Piece(ps[k], tag, buffer, from, bs);
  }

  lemma PieceStored(t: Target, who: Session, tag: uint32, p: Pdu, buffer: seq<byte>, from: nat)
    requires tag in t.tasks && !t.tasks[tag].isWriteSame && !SyncTrips(t.lun, who, t.tasks[tag])
    requires Ready(t.lun, who, t.tasks[tag], |buffer|) && Piece(p, tag, buffer, from, t.lun.bs)
    ensures Span(t.tasks[tag].bufferLba, t.lun.bs) + p.offset + |p.data| <= |t.lun.disk|
    ensures var s := t.tasks[tag]; var s1 := Count(s, |p.data|); var (reply, t1) := Push(t, who, p);
            t1.lun == t.lun.(disk := Splice(t.lun.disk, Span(s.bufferLba, t.lun.bs) + p.offset, p.data)) &&
            t1.tasks == TasksAfter(t.tasks, tag, s1, p.final) && (GOOD in reply.out <==> p.final)
  {
    hide Push, Splice, Span, U32;
    PushMeans(t, who, tag, p, |buffer|);
  }

  lemma {:induction false} AfterTheEnd(t: Target, who: Session, tag: uint32, ps: seq<Pdu>)
    requires t.lun.bs > 0 && tag !in t.tasks && forall k :: 0 <= k < |ps| ==> Names(ps[k], tag)
    ensures PushAll(t, who, ps).1 == t && Responses(PushAll(t, who, ps).0) == 0
    decreases |ps|
  {
    if ps != [] {
      assert Push(t, who, ps[0]) == (Reply(BadField, []), t);
      AfterTheEnd(t, who, tag, ps[1..]);
      var replies := PushAll(t, who, ps).0;
      assert replies[1..] == PushAll(t, who, ps[1..]).0;
    }
  }

  /** A WRITE with FUA on a backend that syncs: every piece is stored, every reply is an error, the session never ends. */
  lemma {:induction false} TrippedRunNeverEnds(t: Target, who: Session, tag: uint32, ps: seq<Pdu>, buffer: seq<byte>, from: nat)
    requires tag in t.tasks && !t.tasks[tag].isWriteSame && SyncTrips(t.lun, who, t.tasks[tag])
    requires Ready(t.lun, who, t.tasks[tag], |buffer|) && Pieces(ps, tag, buffer, from, t.lun.bs)
    ensures var base := Span(t.tasks[tag].bufferLba, t.lun.bs);
            forall k :: 0 <= k < |ps| ==> base + ps[k].offset + |ps[k].data| <= |t.lun.disk|
    ensures var (replies, t') := PushAll(t, who, ps);
            t' == t.(lun := t.lun.(disk := Stored(t.lun.disk, Span(t.tasks[tag].bufferLba, t.lun.bs), ps))) &&
            forall k :: 0 <= k < |ps| ==> replies[k] == Reply(IoError, [])
    decreases |ps|
  {
    hide Push, Splice, Span, Pieces;
    AllFit(t, who, tag, ps, buffer, from);
    if ps != [] {
      PiecesTail(ps, tag, buffer, from, t.lun.bs);
      PushMeans(t, who, tag, ps[0], |buffer|);
      TrippedRunNeverEnds(Push(t, who, ps[0]).1, who, tag, ps[1..], buffer, from);
    }
  }

  lemma AllFit(t: Target, who: Session, tag: uint32, ps: seq<Pdu>, buffer: seq<byte>, from: nat)
    requires tag in t.tasks && Ready(t.lun, who, t.tasks[tag], |buffer|) && Pieces(ps, tag, buffer, from, t.lun.bs)
    ensures var base := Span(t.tasks[tag].bufferLba, t.lun.bs);
            forall k :: 0 <= k < |ps| ==> base + ps[k].offset + |ps[k].data| <= |t.lun.disk|
  {
    hide Span;
    assert forall k :: 0 <= k < |ps| ==> Piece(ps[k], tag, buffer, from, t.lun.bs);
  }
}

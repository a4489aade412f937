/**
 Whole WRITE transfers: the command with its immediate data, the R2T, and the Data-Out PDUs in any order.
 */
module WriteTransfer {
  import opened Bytes
  import opened Lun
  import opened ScsiCommands
  import opened ScsiWrite
  import opened DataOut
  import opened CommandLayout
  import I = DataIn
  import R = DataOutRuns

  /** A plain WRITE of `buffer` waits under `tag` for the bytes from `bytesDone` on; `ps` are pieces of those. */
  predicate Waiting(t: Target, who: Session, tag: uint32, ps: seq<Pdu>, buffer: seq<byte>) {
    tag in t.tasks && R.InProgress(t.lun, who, t.tasks[tag], |buffer|) && R.Ready(t.lun, who, t.tasks[tag], |buffer|) &&
    R.Pieces(ps, tag, buffer, t.tasks[tag].bytesDone, t.lun.bs) && ps != [] && ps[|ps| - 1].final
  }

  /**
   Pieces that are apart, in any order: the R2T session ends exactly when every missing byte has been sent; then
   the disk holds the buffer and nothing else changed; otherwise the counters say how much is done and left.
   */
  lemma EndsIffAllSent(t: Target, who: Session, tag: uint32, ps: seq<Pdu>, buffer: seq<byte>)
    requires Waiting(t, who, tag, ps, buffer) && R.PairwiseApart(ps)
    ensures var s := t.tasks[tag]; var (replies, t') := PushAll(t, who, ps);
            var at := Span(s.bufferLba, t.lun.bs) + s.bytesDone;
            (tag !in t'.tasks <==> R.CoversAll(ps, s.bytesDone, |buffer|)) &&
            (tag in t'.tasks ==> t'.tasks[tag].bytesDone + t'.tasks[tag].bytesLeft == |buffer| && t'.tasks[tag].bytesLeft > 0) &&
            (tag !in t'.tasks ==> t'.tasks == t.tasks - {tag} && replies[|ps| - 1] == Reply(Fine, [GOOD]) &&
                                  t'.lun == t.lun.(disk := Splice(t.lun.disk, at, buffer[s.bytesDone..])))
  {
    hide R.Pieces, R.PairwiseApart, R.CoversAll, PushAll, Span, R.Stored, Splice;
    var s := t.tasks[tag];
    R.ApartIsCompleteIffCovering(ps, tag, buffer, s.bytesDone, t.lun.bs);
    R.RunMeans(t, who, tag, ps, buffer, s.bytesDone);
    if R.CoversAll(ps, s.bytesDone, |buffer|) {
      StoredAll(t.lun.disk, Span(s.bufferLba, t.lun.bs), ps, tag, buffer, s.bytesDone, t.lun.bs);
    }
  }

  lemma StoredAll(disk: seq<byte>, base: nat, ps: seq<Pdu>, tag: uint32, buffer: seq<byte>, from: nat, bs: nat)
    requires bs > 0 && base + |buffer| <= |disk| && from <= |buffer|
    requires R.Pieces(ps, tag, buffer, from, bs) && R.CoversAll(ps, from, |buffer|)
    requires forall k :: 0 <= k < |ps| ==> base + ps[k].offset + |ps[k].data| <= |disk|
    ensures R.Stored(disk, base, ps) == Splice(disk, base + from, buffer[from..])
  {
    hide R.Stored;
    var after := R.Stored(disk, base, ps);
    forall x: nat | x < |disk| ensures after[x] == Splice(disk, base + from, buffer[from..])[x] {
      R.StoredMeans(disk, base, ps, tag, buffer, from, bs, x);
      if R.Covered(ps, x - base) {
        var k :| 0 <= k < |ps| && R.Hits(ps[k], x - base);
        assert R.Piece(ps[k], tag, buffer, from, bs);
      }
    }
  }

  /**
   A stream that carries the missing number of bytes ends the session, whether or not its pieces are apart; but
   every missing byte is on the disk only if they are: when two overlap, some byte of the range keeps its old value.
   */
  lemma EndsWholeIffApart(t: Target, who: Session, tag: uint32, ps: seq<Pdu>, buffer: seq<byte>)
    requires Waiting(t, who, tag, ps, buffer) && R.Sum(ps) == t.tasks[tag].bytesLeft
    ensures var s := t.tasks[tag]; var t' := PushAll(t, who, ps).1; var base := Span(s.bufferLba, t.lun.bs);
            tag !in t'.tasks && |t'.lun.disk| == |t.lun.disk| &&
            (R.PairwiseApart(ps) <==> R.CoversAll(ps, s.bytesDone, |buffer|)) &&
            forall i: nat :: i < |buffer| ==>
              t'.lun.disk[base + i] == if R.Covered(ps, i) then buffer[i] else t.lun.disk[base + i]
  {
    hide R.Pieces, R.PairwiseApart, R.CoversAll, PushAll, Span, R.Stored, R.Covered;
    var s := t.tasks[tag];
    var base := Span(s.bufferLba, t.lun.bs);
    R.CompleteIffApart(ps, tag, buffer, s.bytesDone, t.lun.bs);
    R.RunMeans(t, who, tag, ps, buffer, s.bytesDone);
    forall i: nat | i < |buffer|
      ensures R.Stored(t.lun.disk, base, ps)[base + i] == if R.Covered(ps, i) then buffer[i] else t.lun.disk[base + i]
    {
      R.StoredMeans(t.lun.disk, base, ps, tag, buffer, s.bytesDone, t.lun.bs, base + i);
    }
  }

  /**
   Of a stream that ends with the F bit, or ends the session with it, exactly one SCSI response goes out if and only if no
   PDU before has the F bit. This holds for any pieces, also when they carry more bytes than are missing.
   */
  lemma OneResponseIff(t: Target, who: Session, tag: uint32, ps: seq<Pdu>, buffer: seq<byte>, from: nat)
    requires R.Stream(t, who, tag, ps, buffer, from)
    requires var own := R.Reaching(t.tasks[tag], ps); own != [] && own[|own| - 1].final
    ensures var own := R.Reaching(t.tasks[tag], ps);
            R.Responses(PushAll(t, who, ps).0) == 1 <==> forall k :: 0 <= k < |own| - 1 ==> !own[k].final
  {
    hide R.Pieces, PushAll, Span, R.Stored, R.Finals, R.Responses, R.EndAt;
    R.AnyRunMeans(t, who, tag, ps, buffer, from);
    FinalsAtEnd(R.Reaching(t.tasks[tag], ps));
  }

  lemma {:induction false} FinalsAtEnd(ps: seq<Pdu>)
    requires ps != [] && ps[|ps| - 1].final
    ensures R.Finals(ps) >= 1
    ensures R.Finals(ps) == 1 <==> forall k :: 0 <= k < |ps| - 1 ==> !ps[k].final
    decreases |ps|
  {
    if |ps| > 1 {
      FinalsAtEnd(ps[1..]);
      assert forall k :: 0 < k < |ps| ==> ps[k] == ps[1..][k - 1];
    }
  }

  /**
   A piece is acknowledged unless FUA is set and its sync succeeds: so with FUA the initiator is told of success exactly
   when the sync has failed, and of an error, with the counters left as they were, exactly when the data is safe.
   */
  lemma AcknowledgedIff(t: Target, who: Session, tag: uint32, p: Pdu, total: nat)
    requires R.Storable(t, who, tag, p, total)
    ensures Push(t, who, p).0.fail == Fine <==> !(t.tasks[tag].fua && Sync(t.lun, who) == RwOk)
    ensures t.tasks[tag].fua ==> (Push(t, who, p).0.fail == Fine <==> !t.lun.syncs)
    ensures Push(t, who, p).0.fail != Fine ==> Push(t, who, p).0.fail == IoError && Push(t, who, p).1.tasks == t.tasks
  {
    hide Push;
    R.PushMeans(t, who, tag, p, total);
  }

  /** Data-Out PDUs of one task leave the other tasks alone. */
  lemma OtherTasksStay(t: Target, who: Session, p: Pdu, other: uint32)
    requires t.lun.bs > 0 && !Names(p, other)
    ensures other in t.tasks <==> other in Push(t, who, p).1.tasks
    ensures other in t.tasks ==> Push(t, who, p).1.tasks[other] == t.tasks[other]
  {
    hide Store, Names;
    FiledUnderName(p, other);
  }

  /** Data that is sent under the initiator's task tag alone is taken like data under a transfer tag equal to it. */
  lemma UnsolicitedIsFiled(t: Target, who: Session, p: Pdu)
    requires t.lun.bs > 0 && p.itt == p.ttt != NO_TAG
    ensures Push(t, who, p.(ttt := NO_TAG)) == Push(t, who, p)
  {
    FiledUnderName(p, p.itt);
    FiledUnderName(p.(ttt := NO_TAG), p.itt);
  }

  // --- from the command to the last PDU

  /** An accepted WRITE of `buffer` to LBA `lba` under a task tag that is not in use; `sent` bytes come with the command. */
  predicate Opens(t: Target, who: Session, itt: uint32, cdb: seq<byte>, lba: uint64, len: uint32, sent: nat, buffer: seq<byte>) {
    t.lun.Valid() && |cdb| == 16 && Addresses(cdb, lba, len) && Accepted(t.lun, cdb) && t.lun.healthy && !LockedOther(t.lun, who) &&
    |buffer| == Span(len, t.lun.bs) < TWO32 && sent <= |buffer| && itt != NO_TAG && itt !in t.tasks
  }

  /** FUA is set, and the backend syncs. */
  predicate Trips(l: Lun, cdb: seq<byte>)
    requires |cdb| == 16
  {
    BitSet(cdb[1], 3) && l.syncs
  }

  /** Such a WRITE that does not bring everything, without FUA or with syncs that fail. */
  predicate Starts(t: Target, who: Session, itt: uint32, cdb: seq<byte>, lba: uint64, len: uint32, sent: nat, buffer: seq<byte>) {
    Opens(t, who, itt, cdb, lba, len, sent, buffer) && sent < |buffer| && !Trips(t.lun, cdb)
  }

  /** The immediate data, if any. */
  function Immediate(buffer: seq<byte>, sent: nat): (r: Option<seq<byte>>)
    requires sent <= |buffer|
  {
    if sent == 0 then None else Some(buffer[..sent])
  }

  /** The command stores what it brings. */
  lemma CommandStores(t: Target, who: Session, itt: uint32, cdb: seq<byte>, lba: uint64, len: uint32, sent: nat, buffer: seq<byte>)
    requires Opens(t, who, itt, cdb, lba, len, sent, buffer)
    ensures var (response, l) := WriteVerify(t.lun, who, cdb, Immediate(buffer, sent)); var base := Span(lba, t.lun.bs);
            base + |buffer| <= |t.lun.disk| && l == t.lun.(disk := Splice(t.lun.disk, base, buffer[..sent])) &&
            response.sense == None && response.expected == |buffer| &&
            if sent == |buffer| then response.reaction == EmptySense
            else response.reaction == R2T && TakesOver(response.r2t, lba, |buffer|, sent, t.lun.bs) &&
                 response.r2t.fua == BitSet(cdb[1], 3)
  {
    hide WriteVerify, LbaLen, ValidateRequest, Span, Splice, Addresses, TakesOver, BitSet;
    AddressRead(cdb, lba, len);
    AcceptedIsUsable(t.lun, who, cdb);
    SpanOfNothing(len, t.lun);
    if sent == 0 {
      WriteWithoutData(t.lun, who, cdb, lba, len);
      assert buffer[..0] == Zeros(0);
      SpliceNothing(t.lun.disk, Span(lba, t.lun.bs));
    } else {
      WriteStoresReceived(t.lun, who, cdb, buffer[..sent], lba, len);
    }
  }

  lemma SpanOfNothing(n: nat, l: Lun)
    requires l.Valid()
    ensures Span(n, l.bs) == 0 <==> n == 0
  {}

  /** With a part of the data still to come, it leaves an R2T session that asks for the rest. */
  lemma CommandWaits(t: Target, who: Session, itt: uint32, random: uint32, cdb: seq<byte>, lba: uint64, len: uint32,
                     sent: nat, buffer: seq<byte>)
    requires Opens(t, who, itt, cdb, lba, len, sent, buffer) && sent < |buffer|
    ensures var (out, t1) := WriteCommand(t, who, itt, |buffer|, random, cdb, Immediate(buffer, sent));
            var base := Span(lba, t.lun.bs);
            base + |buffer| <= |t.lun.disk| &&
            t1.lun == t.lun.(disk := Splice(t.lun.disk, base, buffer[..sent])) &&
            itt in t1.tasks && t1.tasks == t.tasks[itt := t1.tasks[itt]] &&
            var s := t1.tasks[itt];
            out == [ReadyToTransfer(s.bytesDone, s.bytesLeft)] && s.bufferLba == lba && s.bytesDone <= sent < s.bytesDone + t.lun.bs &&
            s.bytesDone % t.lun.bs == 0 && s.bytesLeft > 0 && s.bytesDone + s.bytesLeft == |buffer| && !s.isWriteSame &&
            (SyncTrips(t1.lun, who, s) <==> Trips(t.lun, cdb)) && R.Ready(t1.lun, who, s, |buffer|)
  {
    hide WriteVerify, Addresses, ValidateRequest, LbaLen, Span, Splice, BitSet;
    CommandStores(t, who, itt, cdb, lba, len, sent, buffer);
  }

  /** A WRITE without a task tag waits under a fresh tag as one that has that tag. */
  lemma UntaggedWaits(t: Target, who: Session, random: uint32, cdb: seq<byte>, lba: uint64, len: uint32, sent: nat, buffer: seq<byte>)
    requires Opens(t, who, random, cdb, lba, len, sent, buffer)
    ensures WriteCommand(t, who, NO_TAG, |buffer|, random, cdb, Immediate(buffer, sent)) ==
            WriteCommand(t, who, random, |buffer|, random, cdb, Immediate(buffer, sent))
  {
    hide WriteVerify, Addresses, Span;
  }

  /**
   A WRITE under a tag that is in use: what it brings is stored and its R2T asks for the rest, as if the tag were free, but
   the session stays that of the former command.
   */
  lemma TagInUse(t: Target, who: Session, itt: uint32, random: uint32, cdb: seq<byte>, lba: uint64, len: uint32,
                 sent: nat, buffer: seq<byte>)
    requires itt in t.tasks && Opens(t.(tasks := t.tasks - {itt}), who, itt, cdb, lba, len, sent, buffer)
    ensures var (out, t1) := WriteCommand(t, who, itt, |buffer|, random, cdb, Immediate(buffer, sent));
            var (free, t2) := WriteCommand(t.(tasks := t.tasks - {itt}), who, itt, |buffer|, random, cdb, Immediate(buffer, sent));
            out == free && t1 == Target(t2.lun, t.tasks)
  {
    hide WriteVerify, Addresses, Span;
  }

  /** A WRITE that brings all its data is stored and answered with success; no session is left. */
  lemma CommandCompletes(t: Target, who: Session, itt: uint32, announced: uint32, random: uint32, cdb: seq<byte>,
                         lba: uint64, len: uint32, buffer: seq<byte>)
    requires Opens(t, who, itt, cdb, lba, len, |buffer|, buffer)
    ensures Span(lba, t.lun.bs) + |buffer| <= |t.lun.disk|
    ensures WriteCommand(t, who, itt, announced, random, cdb, Immediate(buffer, |buffer|)) ==
            ([GOOD], t.(lun := t.lun.(disk := Splice(t.lun.disk, Span(lba, t.lun.bs), buffer))))
  {
    hide WriteVerify, Addresses, ValidateRequest, LbaLen, Span, Splice, BitSet;
    CommandStores(t, who, itt, cdb, lba, len, |buffer|, buffer);
    assert buffer[..|buffer|] == buffer;
  }

  /**
   A WRITE whose length is not the one the initiator announced: what it brings is stored, but instead of an R2T it gets a
   response that says by how much the two differ.
   */
  lemma CommandDiffers(t: Target, who: Session, itt: uint32, announced: uint32, random: uint32, cdb: seq<byte>,
                       lba: uint64, len: uint32, sent: nat, buffer: seq<byte>)
    requires Opens(t, who, itt, cdb, lba, len, sent, buffer) && sent < |buffer| && announced != |buffer|
    ensures Span(lba, t.lun.bs) + |buffer| <= |t.lun.disk|
    ensures var (out, t1) := WriteCommand(t, who, itt, announced, random, cdb, Immediate(buffer, sent));
            t1 == t.(lun := t.lun.(disk := Splice(t.lun.disk, Span(lba, t.lun.bs), buffer[..sent]))) &&
            out == [ScsiResponse(None, 0, Some(if announced > |buffer| then I.Underflow(announced - |buffer|)
                                               else I.Overflow(|buffer| - announced)))]
  {
    hide WriteVerify, Addresses, ValidateRequest, LbaLen, Span, Splice, BitSet;
    CommandStores(t, who, itt, cdb, lba, len, sent, buffer);
  }

  /**
   A refused WRITE changes nothing and is answered with sense data and CHECK CONDITION: for a range that is not accepted,
   or for protection information.
   */
  lemma CommandRefused(t: Target, who: Session, itt: uint32, announced: uint32, random: uint32, cdb: seq<byte>,
                       lba: uint64, len: uint32, data: Option<seq<byte>>)
    requires t.lun.Valid() && Addresses(cdb, lba, len) && !IsWriteSame(cdb[0])
    requires !RangeOk(t.lun.Size(), lba, len) || (NoProtection(cdb[0]) && cdb[1] >= 32)
    ensures var sense := if RangeOk(t.lun.Size(), lba, len) then InvalidField else OutOfRange;
            WriteCommand(t, who, itt, announced, random, cdb, data) == ([ScsiResponse(Some(sense), 0x02, None)], t)
  {
    hide LbaLen, WriteImmediate, RangeOk, Addresses;
    AddressRead(cdb, lba, len);
  }

  /** A WRITE with data is left without any answer exactly when the backend fails; then nothing has been stored. */
  lemma CommandSilentIff(t: Target, who: Session, itt: uint32, announced: uint32, random: uint32, cdb: seq<byte>,
                         lba: uint64, len: uint32, data: seq<byte>)
    requires t.lun.Valid() && Addresses(cdb, lba, len) && Accepted(t.lun, cdb) && 0 < |data| <= Span(len, t.lun.bs)
    ensures var (out, t1) := WriteCommand(t, who, itt, announced, random, cdb, Some(data));
            (out == [] <==> !t.lun.healthy && !LockedOther(t.lun, who)) && (out == [] ==> t1 == t)
  {
    hide LbaLen, WriteImmediate, Addresses, Span, Splice, ValidateRequest;
    var l := t.lun;
    AddressRead(cdb, lba, len);
    if LockedOther(l, who) || !l.healthy {
      ImmediateFails(l, who, lba, len, data);
    } else {
      AcceptedIsUsable(l, who, cdb);
      SpanAdd(len, 1, l.bs);
      SpanOfNothing(len, l);
      ImmediateMeans(l, who, lba, len, data);
    }
  }

  lemma ImmediateFails(l: Lun, who: Session, lba: nat, len: nat, data: seq<byte>)
    requires l.bs > 0 && 0 < |data| && (LockedOther(l, who) || !l.healthy)
    ensures WriteImmediate(l, who, lba, len, data) == (if LockedOther(l, who) then RwFailLocked else RwFailGeneral, l)
  {
    hide Splice;
  }

  /**
   End to end: immediate data, then pieces of the rest of the buffer that are apart and cover it, in any order,
   the last one with the F bit. The disk then holds the whole buffer at the LBA, nothing else changed, the R2T
   session is gone and the last reply is the SCSI response.
   */
  lemma WriteArrives(t: Target, who: Session, itt: uint32, random: uint32, cdb: seq<byte>, lba: uint64, len: uint32,
                     sent: nat, buffer: seq<byte>, ps: seq<Pdu>)
    requires Starts(t, who, itt, cdb, lba, len, sent, buffer) && ps != [] && ps[|ps| - 1].final
    requires var t1 := WriteCommand(t, who, itt, |buffer|, random, cdb, Immediate(buffer, sent)).1;
             itt in t1.tasks && R.Pieces(ps, itt, buffer, t1.tasks[itt].bytesDone, t.lun.bs) &&
             R.PairwiseApart(ps) && R.CoversAll(ps, t1.tasks[itt].bytesDone, |buffer|)
    ensures var t1 := WriteCommand(t, who, itt, |buffer|, random, cdb, Immediate(buffer, sent)).1;
            var (replies, t2) := PushAll(t1, who, ps);
            var base := Span(lba, t.lun.bs);
            base + |buffer| <= |t.lun.disk| &&
            t2 == Target(t.lun.(disk := Splice(t.lun.disk, base, buffer)), t.tasks) &&
            replies[|ps| - 1] == Reply(Fine, [GOOD])
  {
    hide WriteCommand, PushAll, R.Pieces, R.PairwiseApart, R.CoversAll, Span, Splice, Addresses, Trips;
    var t1 := WriteCommand(t, who, itt, |buffer|, random, cdb, Immediate(buffer, sent)).1;
    CommandWaits(t, who, itt, random, cdb, lba, len, sent, buffer);
    EndsIffAllSent(t1, who, itt, ps, buffer);
    SpliceOverlap(t.lun.disk, Span(lba, t.lun.bs), buffer, sent, t1.tasks[itt].bytesDone);
    assert t1.tasks - {itt} == t.tasks;
  }

  /**
   With FUA and a backend that syncs the transfer never ends: whatever pieces are sent, each is stored at its place and
   answered with an error, and the session stays as the command left it.
   */
  lemma FuaNeverEnds(t: Target, who: Session, itt: uint32, random: uint32, cdb: seq<byte>, lba: uint64, len: uint32,
                     sent: nat, buffer: seq<byte>, ps: seq<Pdu>)
    requires Opens(t, who, itt, cdb, lba, len, sent, buffer) && sent < |buffer| && Trips(t.lun, cdb)
    requires R.Pieces(ps, itt, buffer, 0, t.lun.bs)
    ensures var t1 := WriteCommand(t, who, itt, |buffer|, random, cdb, Immediate(buffer, sent)).1;
            var (replies, t2) := PushAll(t1, who, ps); var base := Span(lba, t.lun.bs);
            itt in t1.tasks && t2.tasks == t1.tasks && (forall k :: 0 <= k < |ps| ==> replies[k] == Reply(IoError, [])) &&
            (forall k :: 0 <= k < |ps| ==> base + ps[k].offset + |ps[k].data| <= |t1.lun.disk|) &&
            t2.lun == t1.lun.(disk := R.Stored(t1.lun.disk, base, ps))
  {
    hide WriteCommand, PushAll, R.Pieces, Span, Splice, Addresses, Trips, R.Stored;
    CommandWaits(t, who, itt, random, cdb, lba, len, sent, buffer);
    var t1 := WriteCommand(t, who, itt, |buffer|, random, cdb, Immediate(buffer, sent)).1;
    R.TrippedRunNeverEnds(t1, who, itt, ps, buffer, 0);
  }

  /** One PDU with all the missing bytes is such a stream, so every transfer that starts can be completed. */
  lemma OnePieceCompletes(t: Target, who: Session, tag: uint32, buffer: seq<byte>) returns (p: Pdu)
    requires tag in t.tasks && tag != NO_TAG && R.InProgress(t.lun, who, t.tasks[tag], |buffer|) && R.Ready(t.lun, who, t.tasks[tag], |buffer|)
    requires t.tasks[tag].bytesDone % t.lun.bs == 0 && |buffer| % t.lun.bs == 0
    ensures Waiting(t, who, tag, [p], buffer) && R.PairwiseApart([p])
    ensures R.CoversAll([p], t.tasks[tag].bytesDone, |buffer|) && R.Sum([p]) == t.tasks[tag].bytesLeft
  {
    var done, bs := t.tasks[tag].bytesDone, t.lun.bs;
    p := Pdu(tag, tag, done, buffer[done..], true);
    DifferenceModulo(|buffer|, done, bs);
    assert buffer[done..] == buffer[done..done + |p.data|];
    assert R.Piece(p, tag, buffer, done, bs);
    forall i | done <= i < |buffer| ensures R.Covered([p], i) {
      assert R.Hits([p][0], i);
    }
    assert R.Sum([p]) == |p.data| + R.Sum([p][1..]);
  }

  lemma DifferenceModulo(n: nat, k: nat, bs: nat)
    requires bs > 0 && k <= n && n % bs == 0 && k % bs == 0
    ensures (n - k) % bs == 0
  {
    hide Span;
    R.WholeSpan(n, bs);
    R.WholeSpan(k, bs);
    SpanAdd(k / bs, if n / bs >= k / bs then n / bs - k / bs else 0, bs);
    DivisionBounds(n, bs, k / bs);
    SpanModulo(n / bs - k / bs, bs);
  }

  lemma SpliceOverlap(s: seq<byte>, at: nat, b: seq<byte>, sent: nat, done: nat)
    requires at + |b| <= |s| && done <= sent <= |b|
    ensures Splice(Splice(s, at, b[..sent]), at + done, b[done..]) == Splice(s, at, b)
  {}
}

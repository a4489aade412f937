/**
 Every answer to a Data-Out PDU: when it is refused, when it fails, and what is sent when it is taken. And the R2T session of a
 WRITE SAME, whose counters start at zero.
 */
module DataOutAnswers {
  import opened Bytes
  import opened Lun
  import opened ScsiCommands
  import opened ScsiWrite
  import opened CommandLayout
  import opened DataOut
  import R = DataOutRuns

  /** The PDU names a task, and its offset and data are whole blocks; without data it needs the F bit. */
  predicate Taken(t: Target, p: Pdu, tag: uint32)
    requires t.lun.bs > 0
  {
    Names(p, tag) && tag in t.tasks &&
    if p.data == [] then p.final else p.offset % t.lun.bs == 0 && |p.data| % t.lun.bs == 0
  }

  /** Exactly the other PDUs are refused as invalid, and they change nothing. */
  lemma RefusedIff(t: Target, who: Session, p: Pdu)
    requires t.lun.bs > 0
    ensures Push(t, who, p).0.fail == BadField <==> !exists tag :: Taken(t, p, tag)
    ensures Push(t, who, p).0.fail == BadField ==> Push(t, who, p) == (Reply(BadField, []), t)
  {
    hide Store, SyncTrips;
    var own := TagOf(p);
    FiledUnderName(p, own);
    forall tag | Taken(t, p, tag) ensures tag == own {
      FiledUnderName(p, tag);
    }
    assert Push(t, who, p).0.fail != BadField ==> Taken(t, p, own);
  }

  /** What a PDU that is taken does to the disk. */
  function StoreOf(t: Target, who: Session, tag: uint32, p: Pdu): (r: (RwResult, Lun))
    requires t.lun.bs > 0 && Taken(t, p, tag)
  {
    if p.data == [] then (RwOk, t.lun) else DataFits(|p.data|, t.lun.bs); Store(t.lun, who, t.tasks[tag], p)
  }

  lemma DataFits(n: nat, bs: nat)
    requires bs > 0 && n > 0 && n % bs == 0
    ensures n >= bs
  {}

  /**
   One that is taken fails exactly when the disk cannot be written or, with FUA, the sync succeeds; then nothing is sent and
   the counters stay. Otherwise they move by its length, in 32 bits, and the F bit brings a response: alone if nothing is
   missing, which ends the task, and with an R2T for what is missing if not.
   */
  lemma TakenAnswers(t: Target, who: Session, tag: uint32, p: Pdu)
    requires t.lun.bs > 0 && Taken(t, p, tag)
    ensures var (rc, l) := StoreOf(t, who, tag, p); var s := t.tasks[tag]; var (reply, t') := Push(t, who, p);
            var done, left := (s.bytesDone + |p.data|) % 0x1_0000_0000, (s.bytesLeft - |p.data|) % 0x1_0000_0000;
            var s' := s.(bytesDone := done, bytesLeft := left);
            t'.lun == l && reply.fail == (if rc != RwOk || (p.data != [] && SyncTrips(l, who, s)) then IoError else Fine) &&
            if reply.fail == IoError then reply.out == [] && t'.tasks == t.tasks
            else if !p.final then reply.out == [] && t'.tasks == t.tasks[tag := s']
            else if left == 0 then reply.out == [ScsiResponse(None, 0, None)] && t'.tasks == t.tasks - {tag}
            else reply.out == [ScsiResponse(None, 0, None), ReadyToTransfer(done, left)] && t'.tasks == t.tasks[tag := s']
  {
    hide Store, SyncTrips;
    FiledUnderName(p, tag);
    var s := t.tasks[tag];
    if p.data == [] {
      assert s.(bytesDone := s.bytesDone, bytesLeft := s.bytesLeft) == s;
      assert t.tasks[tag := s] == t.tasks;
    } else {
      var s' := Count(s, |p.data|);
      assert t.tasks[tag := s'] - {tag} == t.tasks - {tag};
    }
  }

  /** One that cannot be stored. */
  lemma FailedAnswers(t: Target, who: Session, tag: uint32, p: Pdu)
    requires t.lun.bs > 0 && Taken(t, p, tag) && StoreOf(t, who, tag, p).0 != RwOk
    ensures Push(t, who, p) == (Reply(IoError, []), t.(lun := StoreOf(t, who, tag, p).1))
  {
    hide StoreOf, Push, Count;
    TakenAnswers(t, who, tag, p);
  }

  // --- WRITE SAME

  /** A WRITE SAME waits for data exactly when it is valid, brings none, and asks for as many blocks as a block has bytes. */
  lemma SameWaitsIff(l: Lun, who: Session, cdb: seq<byte>, data: Option<seq<byte>>, lba: uint64, len: uint32)
    requires l.Valid() && Addresses(cdb, lba, len) && IsWriteSame(cdb[0])
    ensures var (response, l') := WriteSame(l, who, cdb, data);
            (response.reaction == R2T <==> ValidateRequest(l, lba, len, cdb).None? && data.None? && len == l.bs) &&
            (response.reaction == R2T ==> l.bs <= 256 && l' == l && response.r2t == R2tSession(0, 0, 0, true, BitSet(cdb[1], 3), false))
  {
    hide LbaLen, SameLoop, Span, OneBlock, BitSet, RangeOk, Addresses;
    AddressRead(cdb, lba, len);
  }

  /** The loop that runs off the device fills the blocks up to its end before it fails. */
  lemma {:induction false} SameLoopRunsOff(l: Lun, who: Session, lba: nat, m: nat, n: nat, data: seq<byte>)
    requires l.bs > 0 && |data| >= l.bs && l.healthy && !LockedOther(l, who)
    requires Span(lba, l.bs) + Span(m, l.bs) == |l.disk| && m < n
    ensures SameLoop(l, who, lba, n, false, data) == (RwFailGeneral, Filled(l, lba, m, data[..l.bs]))
    decreases m
  {
    hide Write, Splice, Span;
    var block := data[..l.bs];
    if m == 0 {
      BeyondEnd(l, who, lba, data);
      NothingFilled(l, lba, block);
    } else {
      SpanAdd(1, m - 1, l.bs);
      SpanAdd(lba, 1, l.bs);
      WriteMeans(l, who, lba, 1, data);
      var l1 := l.(disk := Splice(l.disk, Span(lba, l.bs), block));
      SameLoopRunsOff(l1, who, lba + 1, m - 1, n - 1, data);
      SpliceTwice(l.disk, Span(lba, l.bs), block, Tiled(block, m - 1));
    }
  }

  lemma BeyondEnd(l: Lun, who: Session, lba: nat, data: seq<byte>)
    requires l.bs > 0 && !LockedOther(l, who) && |data| >= l.bs && Span(lba, l.bs) >= |l.disk|
    ensures Write(l, who, lba, 1, data) == (RwFailGeneral, l)
  {
    hide Span;
  }

  lemma NothingFilled(l: Lun, lba: nat, block: seq<byte>)
    requires |block| == l.bs && Span(lba, l.bs) <= |l.disk|
    ensures Filled(l, lba, 0, block) == l
  {
    hide Span;
    assert Tiled(block, 0) == Zeros(0);
    SpliceNothing(l.disk, Span(lba, l.bs));
  }

  /** The blocks from `at` on that a loop over `n` blocks fills. */
  function Reached(l: Lun, at: nat, n: nat): (r: nat)
    requires l.bs > 0 && at <= l.Size()
  {
    Min(n, l.Size() - at)
  }

  lemma SameStore(t: Target, who: Session, tag: uint32, p: Pdu)
    requires t.lun.bs > 0 && Taken(t, p, tag) && p.data != [] && t.tasks[tag].isWriteSame && t.tasks[tag].bufferLba == 0
    ensures var n := t.tasks[tag].bytesLeft / t.lun.bs;
            |p.data| >= t.lun.bs &&
            StoreOf(t, who, tag, p) == if t.tasks[tag].writeSameIsUnmap then Trim(t.lun, who, 0, n)
                                       else SameLoop(t.lun, who, p.offset / t.lun.bs, n, false, p.data)
  {
    hide Span, SameLoop, Trim;
    DataFits(|p.data|, t.lun.bs);
    Quotient(p.offset, t.lun.bs);
  }

  lemma Quotient(n: nat, bs: nat)
    requires bs > 0
    ensures 0 <= n / bs <= n
  {
    DivisionBounds(n, bs, 0);
    SpanCovers(n / bs, bs);
  }

  lemma SameFillsFrom(l: Lun, who: Session, at: nat, n: nat, data: seq<byte>)
    requires l.Valid() && l.healthy && !LockedOther(l, who) && |data| >= l.bs && at <= l.Size()
    ensures Span(at, l.bs) + Span(Reached(l, at, n), l.bs) <= |l.disk|
    ensures SameLoop(l, who, at, n, false, data) ==
            (if at + n <= l.Size() then RwOk else RwFailGeneral, Filled(l, at, Reached(l, at, n), data[..l.bs]))
  {
    hide Span, SameLoop, Splice, Filled, Lun.Size;
    TailSpan(l, at);
    InsideIff(l, at, Reached(l, at, n));
    hide Lun.Valid;
    if at + n <= l.Size() {
      SameLoopMeans(l, who, at, n, false, data);
    } else {
      SameLoopRunsOff(l, who, at, l.Size() - at, n, data);
    }
  }

  /** A Data-Out PDU of a WRITE SAME with data: its first block is stored over and over, from its own offset on. */
  lemma SamePieceMeans(t: Target, who: Session, tag: uint32, p: Pdu, at: nat, n: nat)
    requires t.lun.Valid() && t.lun.healthy && !LockedOther(t.lun, who) && tag in t.tasks && Taken(t, p, tag) && p.data != []
    requires t.tasks[tag].isWriteSame && !t.tasks[tag].writeSameIsUnmap && t.tasks[tag].bufferLba == 0
    requires at == p.offset / t.lun.bs && n == t.tasks[tag].bytesLeft / t.lun.bs && at <= t.lun.Size()
    ensures |p.data| >= t.lun.bs && Span(at, t.lun.bs) + Span(Reached(t.lun, at, n), t.lun.bs) <= |t.lun.disk|
    ensures StoreOf(t, who, tag, p) ==
            (if at + n <= t.lun.Size() then RwOk else RwFailGeneral, Filled(t.lun, at, Reached(t.lun, at, n), p.data[..t.lun.bs]))
  {
    hide Span, SameLoop, Splice, Filled, StoreOf, Taken, Lun.Size, Reached;
    SameStore(t, who, tag, p);
    SameFillsFrom(t.lun, who, at, n, p.data);
  }

  lemma NoBlocks(bs: nat)
    ensures Span(0, bs) == 0
  {}

  /** One with the UNMAP bit: the blocks from LBA 0 on are zeroed, wherever its offset is. */
  lemma SameUnmapMeans(t: Target, who: Session, tag: uint32, p: Pdu)
    requires t.lun.Valid() && t.lun.healthy && !LockedOther(t.lun, who) && Taken(t, p, tag) && p.data != []
    requires t.tasks[tag].isWriteSame && t.tasks[tag].writeSameIsUnmap && t.tasks[tag].bufferLba == 0
    ensures var l, n := t.lun, t.tasks[tag].bytesLeft / t.lun.bs;
            if n > l.Size() then StoreOf(t, who, tag, p) == (RwFailGeneral, l.(disk := TrimmedPast(l, 0)))
            else n > 0 || l.emptyTrimOk ==>
                 Span(n, l.bs) <= |l.disk| && StoreOf(t, who, tag, p) == (RwOk, l.(disk := Zeroed(l.disk, 0, Span(n, l.bs))))
  {
    hide Span, Trim, Splice, TrimmedPast, StoreOf;
    var l := t.lun;
    var n := t.tasks[tag].bytesLeft / l.bs;
    SameStore(t, who, tag, p);
    NoBlocks(l.bs);
    if n > l.Size() {
      TrimPastEnd(l, who, 0, n);
    } else if n > 0 || l.emptyTrimOk {
      InsideIff(l, 0, n);
      TrimMeans(l, who, 0, n);
    }
  }

  /**
   What a WRITE SAME comes to whose data follows an R2T. The first PDU stores nothing, and with the F bit is answered with
   success and with an R2T for nearly 4 GB. The second, on a smaller device, fills the device from its offset up to the end.
   */
  lemma SameSpills(t: Target, who: Session, tag: uint32, p: Pdu, q: Pdu)
    requires t.lun.Valid() && t.lun.healthy && !LockedOther(t.lun, who)
    requires tag in t.tasks && t.tasks[tag] == R2tSession(0, 0, 0, true, false, false)
    requires Taken(t, p, tag) && p.data != [] && |p.data| < TWO32
    requires Taken(t, q, tag) && q.data != [] && q.offset / t.lun.bs <= t.lun.Size() < (TWO32 - |p.data|) / t.lun.bs
    ensures var (first, t1) := Push(t, who, p);
            t1.lun == t.lun && first.fail == Fine &&
            (p.final ==> first.out == [ScsiResponse(None, 0, None), ReadyToTransfer(|p.data|, TWO32 - |p.data|)]) &&
            var (second, t2) := Push(t1, who, q); var l, at := t.lun, q.offset / t.lun.bs;
            second == Reply(IoError, []) && |q.data| >= l.bs && Span(at, l.bs) + Span(l.Size() - at, l.bs) == |l.disk| &&
            t2.lun == Filled(l, at, l.Size() - at, q.data[..l.bs])
  {
    hide Span, Push, StoreOf, Filled, Splice, Taken;
    FirstOfSame(t, who, tag, p);
    var t1 := Push(t, who, p).1;
    TakenAgain(t, t1, q, tag);
    SecondOfSame(t1, who, tag, q, q.offset / t.lun.bs, (TWO32 - |p.data|) / t.lun.bs);
  }

  lemma TakenAgain(t: Target, t1: Target, q: Pdu, tag: uint32)
    requires t.lun.bs > 0 && Taken(t, q, tag) && t1.lun == t.lun && tag in t1.tasks
    ensures Taken(t1, q, tag)
  {}

  lemma NothingYet(t: Target, who: Session, tag: uint32, p: Pdu)
    requires t.lun.bs > 0 && Taken(t, p, tag) && p.data != [] && t.tasks[tag] == R2tSession(0, 0, 0, true, false, false)
    ensures StoreOf(t, who, tag, p) == (RwOk, t.lun)
  {
    hide Span, StoreOf, Taken;
    SameStore(t, who, tag, p);
    assert 0 / t.lun.bs == 0;
  }

  lemma FirstOfSame(t: Target, who: Session, tag: uint32, p: Pdu)
    requires t.lun.bs > 0 && tag in t.tasks && t.tasks[tag] == R2tSession(0, 0, 0, true, false, false)
    requires Taken(t, p, tag) && p.data != [] && |p.data| < TWO32
    ensures var (first, t1) := Push(t, who, p); var n := |p.data|;
            t1 == Target(t.lun, t.tasks[tag := R2tSession(0, TWO32 - n, n, true, false, false)]) && first.fail == Fine &&
            (p.final ==> first.out == [ScsiResponse(None, 0, None), ReadyToTransfer(n, TWO32 - n)])
  {
    hide Span, Push, StoreOf, Taken;
    NothingYet(t, who, tag, p);
    TakenAnswers(t, who, tag, p);
  }

  lemma SecondOfSame(t: Target, who: Session, tag: uint32, q: Pdu, at: nat, n: nat)
    requires t.lun.Valid() && t.lun.healthy && !LockedOther(t.lun, who) && tag in t.tasks && Taken(t, q, tag) && q.data != []
    requires var s := t.tasks[tag]; s.isWriteSame && !s.writeSameIsUnmap && s.bufferLba == 0 && n == s.bytesLeft / t.lun.bs
    requires at == q.offset / t.lun.bs && at <= t.lun.Size() < n
    ensures |q.data| >= t.lun.bs && Span(at, t.lun.bs) + Span(t.lun.Size() - at, t.lun.bs) == |t.lun.disk|
    ensures Push(t, who, q) ==
            (Reply(IoError, []), t.(lun := Filled(t.lun, at, t.lun.Size() - at, q.data[..t.lun.bs])))
  {
    hide Span, Push, StoreOf, Filled, Splice, Taken, LockedOther;
    SamePieceMeans(t, who, tag, q, at, n);
    ReachesEnd(t.lun, at, n);
    hide Lun.Size, Lun.Valid, Reached;
    TailSpan(t.lun, at);
    FailedAnswers(t, who, tag, q);
  }

  lemma ReachesEnd(l: Lun, at: nat, n: nat)
    requires l.bs > 0 && at <= l.Size() < n
    ensures Reached(l, at, n) == l.Size() - at && at + n > l.Size()
  {
    hide Lun.Size;
  }
}

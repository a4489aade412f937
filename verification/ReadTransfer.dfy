/**
 Whole READ transfers: when the streamed bytes are those of the disk, how Data-In PDUs are numbered, and reading
 back what a WRITE has stored.
 */
module ReadTransfer {
  import opened Bytes
  import opened Lun
  import opened ScsiCommands
  import opened ScsiWrite
  import opened DataIn
  import opened CommandLayout
  import W = WriteTransfer
  import O = DataOut
  import F = Framing
  import N = DataInFraming

  // --- the sizes that work, without recursion

  /**
   A single segment is less than a block or whole blocks. With several, the segment length is whole blocks, and the
   total is too unless the last segment is less than a block.
   */
  predicate SizesFit(total: nat, chunk: nat, bs: nat)
    requires bs > 0 && chunk > 0
  {
    if total <= chunk then total < bs || total % bs == 0
    else chunk % bs == 0 && (total % bs == 0 || total % chunk < bs)
  }

  lemma WholeIff(n: nat, bs: nat)
    requires bs > 0
    ensures n == Span(WholeBlocks(n, bs), bs) <==> n % bs == 0
  {
    assert n == n / bs * bs + n % bs;
  }

  lemma ModuloUnique(n: nat, q: nat, r: nat, m: nat)
    requires r < m && n == Span(q, m) + r
    ensures n % m == r
  {
    var d := n / m;
    assert n == Span(d, m) + n % m;
    SpanAdd(d, 1, m);
    SpanAdd(q, 1, m);
    if d < q { SpanGrows(d + 1, q, m); } else if q < d { SpanGrows(q + 1, d, m); }
  }

  lemma ModuloLess(n: nat, c: nat, m: nat)
    requires m > 0 && c % m == 0 && c <= n
    ensures (n - c) % m == n % m
  {
    var q, k := (n - c) / m, c / m;
    assert n - c == Span(q, m) + (n - c) % m;
    assert c == Span(k, m);
    SpanAdd(q, k, m);
    ModuloUnique(n, q + k, (n - c) % m, m);
  }

  lemma {:induction false} SizesFitIff(total: nat, chunk: nat, bs: nat)
    requires bs > 0 && chunk > 0
    ensures Divides(total, chunk, bs) <==> SizesFit(total, chunk, bs)
    decreases total
  {
    hide Span, WholeBlocks;
    WholeIff(total, bs);
    WholeIff(chunk, bs);
    if total > chunk && chunk % bs == 0 {
      SizesFitIff(total - chunk, chunk, bs);
      ModuloLess(total, chunk, bs);
      ModuloSelf(chunk);
      ModuloLess(total, chunk, chunk);
      if total - chunk == chunk {
        ModuloLess(total, chunk, chunk);
      } else if total - chunk < chunk {
        SmallModulo(total - chunk, chunk);
      }
    }
  }

  lemma ModuloSelf(n: nat)
    requires n > 0
    ensures n % n == 0
  {}

  lemma SmallModulo(n: nat, m: nat)
    requires n < m
    ensures n % m == n
  {}

  // --- right for every disk

  function WithDisk(r: Reader, disk: seq<byte>): (result: Reader) {
    r.(lun := r.lun.(disk := disk))
  }

  /** The stream from `offset` on carries the bytes that are on the disk. */
  predicate Faithful(r: Reader, lba: nat, offset: nat, sn: uint32)
    requires r.Valid() && offset <= r.total && Span(lba, r.lun.bs) + (r.total - offset) <= |r.lun.disk|
  {
    Payload(Segments(r, lba, offset, sn).pdus) == r.lun.disk[Span(lba, r.lun.bs)..Span(lba, r.lun.bs) + (r.total - offset)]
  }

  /** Ones everywhere but at `base`. */
  function Marked(n: nat, base: nat): (r: seq<byte>)
    ensures |r| == n
    ensures forall x :: 0 <= x < n ==> r[x] == if x == base then 0 else 1
  {
    seq(n, x => if x == base then 0 else 1)
  }

  predicate IsMarked(r: Reader, base: nat) {
    r.lun.disk == Marked(|r.lun.disk|, base)
  }

  /** A segment that ends in the middle of a block after the first ends with zeros that are not on the disk. */
  lemma ZerosShow(r: Reader, lba: nat, offset: nat, sn: uint32, base: nat)
    requires r.Valid() && offset < r.total && Within(r.lun, r.who, lba, r.total - offset)
    requires IsMarked(r, base) && base <= Span(lba, r.lun.bs)
    requires var n := r.Length(offset); n >= r.lun.bs && n != Span(WholeBlocks(n, r.lun.bs), r.lun.bs)
    ensures Span(lba, r.lun.bs) + (r.total - offset) <= |r.lun.disk| && !Faithful(r, lba, offset, sn)
  {
    hide Segment, Segments, Within, Span, WholeBlocks, Payload, U32;
    var n, bs := r.Length(offset), r.lun.bs;
    var i := Span(WholeBlocks(n, bs), bs);
    WithinFits(r.lun, r.who, lba, r.total - offset);
    FirstSegment(r, lba, offset, sn);
    SegmentMeans(r.lun, r.who, lba, n, r.total - offset);
    ZeroNotOne(Payload(Segments(r, lba, offset, sn).pdus), Segment(r.lun, r.who, lba, n).1, r.lun.disk, base, Span(lba, bs), r.total - offset, i);
  }

  lemma ZeroNotOne(payload: seq<byte>, head: seq<byte>, disk: seq<byte>, base: nat, at: nat, n: nat, i: nat)
    requires head <= payload && i < |head| && head[i] == 0 && at + n <= |disk| && |head| <= n
    requires disk == Marked(|disk|, base) && base < at + i
    ensures payload != disk[at..at + n]
  {
    assert payload[i] == 0 && disk[at..at + n][i] == 1;
  }

  /** Segments shorter than a block: the second one starts at the beginning of the block again. */
  lemma RepeatShows(r: Reader, lba: nat, sn: uint32)
    requires r.Valid() && r.chunk < r.total && r.chunk < r.lun.bs && Within(r.lun, r.who, lba, r.total)
    requires IsMarked(r, Span(lba, r.lun.bs))
    ensures Span(lba, r.lun.bs) + r.total <= |r.lun.disk| && !Faithful(r, lba, 0, sn)
  {
    hide Segment, Segments, Within, Span, WholeBlocks, Payload, U32;
    var n, bs := r.chunk, r.lun.bs;
    assert WholeBlocks(n, bs) == 0;
    WithinFits(r.lun, r.who, lba, r.total);
    FirstSegment(r, lba, 0, sn);
    FirstSegment(r, lba, n, U32(sn + 1));
    var n2 := r.Length(n);
    SegmentMeans(r.lun, r.who, lba, n2, r.total - n);
    var one, two := Segment(r.lun, r.who, lba, n).1, Segment(r.lun, r.who, lba, n2).1;
    var payload := Payload(Segments(r, lba, 0, sn).pdus);
    assert two[0] == r.lun.disk[Span(lba, bs)] == 0;
    assert (one + two)[n] == 0;
    ZeroNotOne(payload, one + two, r.lun.disk, Span(lba, bs), Span(lba, bs), r.total, n);
  }

  lemma {:induction false} BadSizesShow(r: Reader, lba: nat, offset: nat, sn: uint32, base: nat)
    requires r.Valid() && offset <= r.total && Within(r.lun, r.who, lba, r.total - offset)
    requires IsMarked(r, base) && base <= Span(lba, r.lun.bs) && (r.chunk < r.lun.bs ==> offset == 0 && base == Span(lba, r.lun.bs))
    requires !Divides(r.total - offset, r.chunk, r.lun.bs)
    ensures Span(lba, r.lun.bs) + (r.total - offset) <= |r.lun.disk| && !Faithful(r, lba, offset, sn)
    decreases r.total - offset
  {
    hide Segment, Segments, Within, Span, WholeBlocks, Payload, U32, IsMarked, Faithful;
    var n, bs, rest := r.Length(offset), r.lun.bs, r.total - offset;
    var k := WholeBlocks(n, bs);
    if n != Span(k, bs) {
      if n >= bs { ZerosShow(r, lba, offset, sn, base); } else { RepeatShows(r, lba, sn); }
    } else {
      FirstSegment(r, lba, offset, sn);
      SpanAdd(lba, k, bs);
      BadSizesShow(r, lba + k, offset + n, U32(sn + 1), base);
      WithinFits(r.lun, r.who, lba, rest);
      TailDiffers(r, lba, offset, sn);
    }
  }

  lemma TailDiffers(r: Reader, lba: nat, offset: nat, sn: uint32)
    requires r.Valid() && offset < r.total && Within(r.lun, r.who, lba, r.total - offset)
    requires Span(lba, r.lun.bs) + (r.total - offset) <= |r.lun.disk|
    requires var n := r.Length(offset); var k := WholeBlocks(n, r.lun.bs);
             n == Span(k, r.lun.bs) && Span(lba + k, r.lun.bs) == Span(lba, r.lun.bs) + n && !Faithful(r, lba + k, offset + n, U32(sn + 1))
    ensures !Faithful(r, lba, offset, sn)
  {
    hide Segment, Segments, Within, Span, WholeBlocks, Payload, U32;
    var n, bs, rest := r.Length(offset), r.lun.bs, r.total - offset;
    var k, at := WholeBlocks(n, bs), Span(lba, bs);
    FirstSegment(r, lba, offset, sn);
    var head, tail := Segment(r.lun, r.who, lba, n).1, Payload(Segments(r, lba + k, offset + n, U32(sn + 1)).pdus);
    SameTails(head, tail, r.lun.disk, at, rest);
  }

  lemma SameTails(head: seq<byte>, tail: seq<byte>, s: seq<byte>, at: nat, n: nat)
    requires at + n <= |s| && |head| <= n
    ensures head + tail == s[at..at + n] ==> tail == s[at + |head|..at + n]
  {
    if head + tail == s[at..at + n] {
      assert tail == (head + tail)[|head|..] == s[at + |head|..at + n];
    }
  }

  /**
   Exactly for the sizes that fit does the stream carry the right bytes whatever is on the disk.
   */
  lemma FaithfulIff(r: Reader, lba: nat, sn: uint32)
    requires r.Valid() && Within(r.lun, r.who, lba, r.total)
    ensures Span(lba, r.lun.bs) + r.total <= |r.lun.disk|
    ensures (forall disk: seq<byte> :: |disk| == |r.lun.disk| ==> Faithful(WithDisk(r, disk), lba, 0, sn))
            <==> SizesFit(r.total, r.chunk, r.lun.bs)
  {
    hide Segment, Segments, Span, WholeBlocks, Payload, Faithful, Divides, SizesFit;
    WithinFits(r.lun, r.who, lba, r.total);
    SizesFitIff(r.total, r.chunk, r.lun.bs);
    if SizesFit(r.total, r.chunk, r.lun.bs) {
      forall disk: seq<byte> | |disk| == |r.lun.disk| ensures Faithful(WithDisk(r, disk), lba, 0, sn) {
        SameContents(WithDisk(r, disk), lba, sn);
      }
    } else {
      var base := Span(lba, r.lun.bs);
      var marked := WithDisk(r, Marked(|r.lun.disk|, base));
      BadSizesShow(marked, lba, 0, sn, base);
    }
  }

  lemma SameContents(r: Reader, lba: nat, sn: uint32)
    requires r.Valid() && Within(r.lun, r.who, lba, r.total) && Divides(r.total, r.chunk, r.lun.bs)
    ensures Span(lba, r.lun.bs) + r.total <= |r.lun.disk| && Faithful(r, lba, 0, sn)
  {
    hide Segment, Segments, Within, Span, WholeBlocks, Payload, Divides;
    StreamContents(r, lba, 0, sn);
  }

  // --- sequence numbers

  /** The number the first Data-In PDU of a task gets. */
  function FirstSn(sn: uint32, snItt: uint32, itt: uint32): (r: uint32) {
    NextDataSn(sn, snItt, itt).0
  }

  /** DataSN runs 0, 1, ... exactly when the ITT is not that of the previous Data-In, or nothing was sent for it. */
  lemma NumberedFromZeroIff(r: Reader, lba: nat, sn: uint32, snItt: uint32, itt: uint32)
    requires r.Valid() && 0 < r.total < TWO32 && Within(r.lun, r.who, lba, r.total)
    ensures var ps := Segments(r, lba, 0, FirstSn(sn, snItt, itt)).pdus;
            (forall i :: 0 <= i < |ps| ==> ps[i].dataSn == i) <==> (itt != snItt || sn == 0)
  {
    hide Segments, Within, Span, Payload, NextDataSn;
    var first := FirstSn(sn, snItt, itt);
    StreamShape(r, lba, 0, first);
    var ps := Segments(r, lba, 0, first).pdus;
    CeilBound(r.total, r.chunk);
    assert InPlace(r, ps[0], 0, 0, first);
    FirstSnIff(sn, snItt, itt);
    if first == 0 {
      forall i | 0 <= i < |ps| ensures ps[i].dataSn == i { assert InPlace(r, ps[i], i, 0, first); }
    }
  }

  lemma FirstSnIff(sn: uint32, snItt: uint32, itt: uint32)
    ensures FirstSn(sn, snItt, itt) == 0 <==> itt != snItt || sn == 0
  {}

  lemma {:induction false} CeilBound(a: nat, b: nat)
    requires b > 0
    ensures CeilDiv(a, b) <= a && (a > 0 ==> CeilDiv(a, b) > 0)
    decreases a
  {
    if a > b { CeilBound(a - b, b); }
  }

  // --- the READ command

  /** An accepted, non-empty READ, in segments of a positive length. */
  predicate Readable(l: Lun, who: Session, cdb: seq<byte>, lba: uint64, len: uint32, maxSegLen: uint32) {
    l.Valid() && Addresses(cdb, lba, len) && Accepted(l, cdb) && l.healthy && !LockedOther(l, who) && maxSegLen > 0 && len > 0
  }

  /** How many bytes of the transfer the initiator gets: the size of the transfer is taken in 32 bits. */
  function Wanted(l: Lun, len: uint32, wants: uint32): (r: nat) {
    Min(U32(Span(len, l.bs)), wants)
  }

  /**
   An accepted READ: the PDUs carry the bytes at its LBA, and a receiver gets them from the bytes on the wire exactly
   when the sizes fit there, too; then every frame means the PDU it was made of and answers the command. (When there is
   nothing to send the response is a separate PDU.)
   */
  lemma ReadDelivers(l: Lun, who: Session, cdb: seq<byte>, lba: uint64, len: uint32, wants: uint32, maxSegLen: uint32, sn: uint32,
                     cfg: F.Settings, check: bool, c: N.Command)
    requires Readable(l, who, cdb, lba, len, maxSegLen) && Wanted(l, len, wants) > 0 && c.Valid()
    requires SizesFit(Wanted(l, len, wants), ChunkOf(maxSegLen), l.bs)
    ensures ReadCommand(l, cdb) == Blocks(lba, len)
    ensures var s := ReadStream(l, who, lba, len, wants, maxSegLen, sn);
            var total := Wanted(l, len, wants); var has := U32(Span(len, l.bs));
            s.ok && |s.pdus| == CeilDiv(total, ChunkOf(maxSegLen)) > 0 && Span(lba, l.bs) + total <= |l.disk| &&
            Payload(s.pdus) == l.disk[Span(lba, l.bs)..Span(lba, l.bs) + total] &&
            s.pdus[|s.pdus| - 1].residual == ResidualOf(has, wants) &&
            (N.Arrives(cfg, check, c, s.pdus) <==> N.WireFits(cfg, check, total, ChunkOf(maxSegLen))) &&
            (N.WireFits(cfg, check, total, ChunkOf(maxSegLen)) ==>
             N.Reassembled(Received(cfg, check, c, s)) == l.disk[Span(lba, l.bs)..Span(lba, l.bs) + total] &&
             AllRead(cfg, check, c, s))
  {
    hide N.Arrives, N.WireFits, N.EmitAll, F.DecodeMany, N.Reassembled, AllRead, Addresses, BitSet;
    hide Segments, Span, Payload, LbaLen, ValidateRequest, Divides, SizesFit;
    AddressRead(cdb, lba, len);
    var r := ReaderFor(l, who, len, wants, maxSegLen);
    ReadIsWithin(l, who, cdb, lba, len, wants, maxSegLen);
    SizesFitIff(r.total, r.chunk, l.bs);
    SameContents(r, lba, sn);
    StreamShape(r, lba, 0, sn);
    N.SegmentsArriveIff(cfg, check, c, r, lba, sn);
    CeilBound(r.total, r.chunk);
    var ps := Segments(r, lba, 0, sn).pdus;
    assert InPlace(r, ps[|ps| - 1], |ps| - 1, 0, sn);
    forall i | 0 <= i < |ps| ensures ps[i].offset < TWO32 { assert InPlace(r, ps[i], i, 0, sn); }
    if N.WireFits(cfg, check, r.total, r.chunk) { ArrivedAreRead(cfg, check, c, Stream(true, ps)); }
  }

  /** The receiver gets as many frames as there are PDUs, and each means its PDU and answers the command. */
  predicate AllRead(cfg: F.Settings, check: bool, c: N.Command, s: Stream)
    requires c.Valid()
  {
    var frames := Received(cfg, check, c, s);
    |frames| == |s.pdus| && forall i :: 0 <= i < |frames| ==> N.Reads(c, frames[i], s.pdus[i])
  }

  lemma ArrivedAreRead(cfg: F.Settings, check: bool, c: N.Command, s: Stream)
    requires c.Valid() && N.Arrives(cfg, check, c, s.pdus) && forall i :: 0 <= i < |s.pdus| ==> s.pdus[i].offset < TWO32
    ensures AllRead(cfg, check, c, s)
  {
    hide N.EmitAll, F.DecodeMany, N.Reads;
    N.FramesRead(c, s.pdus);
  }

  /** The other answers to a READ: sense data for what is not accepted, success for no blocks. */
  lemma ReadAnswers(l: Lun, cdb: seq<byte>, lba: uint64, len: uint32)
    requires l.Valid() && Addresses(cdb, lba, len) && !IsWriteSame(cdb[0])
    ensures ReadCommand(l, cdb) ==
            if !RangeOk(l.Size(), lba, len) then Refused(OutOfRange)
            else if NoProtection(cdb[0]) && cdb[1] >= 32 then Refused(InvalidField)
            else if len == 0 then Nothing else Blocks(lba, len)
  {
    hide LbaLen, RangeOk, Addresses;
    AddressRead(cdb, lba, len);
  }

  /** On a device that another session has reserved nothing is read and nothing is sent. */
  lemma ReservedReadSendsNothing(l: Lun, who: Session, lba: nat, n: nat, wants: uint32, maxSegLen: uint32, sn: uint32)
    requires l.bs > 0 && maxSegLen > 0 && LockedOther(l, who) && Min(U32(Span(n, l.bs)), wants) > 0
    ensures ReadStream(l, who, lba, n, wants, maxSegLen, sn) == Stream(false, [])
  {
    hide Span;
  }

  /** The residual says how far the transfer and the initiator's wish are apart. */
  predicate ResidualRight(has: nat, wants: nat, r: Option<Residual>) {
    match r
    case None => has == wants
    case Some(Overflow(n)) => has > wants && n == has - wants
    case Some(Underflow(n)) => has < wants && n == wants - has
  }

  /**
   From 4 GB on the size of a transfer wraps: the right number of bytes is sent exactly when the size fits in 32 bits, or
   what is left of it is still as much as the initiator wants; the residual is right exactly when the size fits.
   */
  lemma TransferSizeIff(has: nat, wants: uint32)
    ensures Min(U32(has), wants) == Min(has, wants) <==> has < TWO32 || U32(has) >= wants
    ensures ResidualRight(has, wants, ResidualOf(U32(has), wants)) <==> has < TWO32
  {}

  /** The PDUs that the receiver makes of the bytes of a stream. */
  function Received(cfg: F.Settings, check: bool, c: N.Command, s: Stream): (r: seq<F.Pdu>)
    requires c.Valid()
  {
    F.DecodeMany(cfg, check, N.EmitAll(cfg, c, s.pdus), |s.pdus|).0
  }

  function ReaderFor(l: Lun, who: Session, len: uint32, wants: uint32, maxSegLen: uint32): (r: Reader) {
    var has := U32(Span(len, l.bs));
    Reader(l, who, Min(has, wants), ChunkOf(maxSegLen), ResidualOf(has, wants))
  }

  lemma ReadIsWithin(l: Lun, who: Session, cdb: seq<byte>, lba: uint64, len: uint32, wants: uint32, maxSegLen: uint32)
    requires Readable(l, who, cdb, lba, len, maxSegLen)
    ensures var r := ReaderFor(l, who, len, wants, maxSegLen);
            r.Valid() && r.total == Wanted(l, len, wants) && Within(l, who, lba, r.total)
  {
    hide Span, LbaLen, ValidateRequest, Addresses;
    AddressRead(cdb, lba, len);
    AcceptedIsUsable(l, who, cdb);
  }

  /**
   What a WRITE transfer has stored, a READ of the same blocks by the same session brings back, and the initiator gets
   it from the bytes on the wire exactly when the sizes fit there. The two commands may differ in size and form.
   */
  lemma ReadBack(t: O.Target, who: Session, itt: uint32, random: uint32, cdb: seq<byte>, lba: uint64, len: uint32,
                 sent: nat, buffer: seq<byte>, ps: seq<O.Pdu>,
                 readCdb: seq<byte>, maxSegLen: uint32, sn: uint32, cfg: F.Settings, check: bool, c: N.Command)
    requires c.Valid() && W.Starts(t, who, itt, cdb, lba, len, sent, buffer) && ps != [] && ps[|ps| - 1].final
    requires var t1 := O.WriteCommand(t, who, itt, |buffer|, random, cdb, W.Immediate(buffer, sent)).1;
             itt in t1.tasks && W.R.Pieces(ps, itt, buffer, t1.tasks[itt].bytesDone, t.lun.bs) &&
             W.R.PairwiseApart(ps) && W.R.CoversAll(ps, t1.tasks[itt].bytesDone, |buffer|)
    requires |readCdb| == 16 && Addresses(readCdb, lba, len) && Accepted(t.lun, readCdb)
    requires maxSegLen > 0 && SizesFit(|buffer|, ChunkOf(maxSegLen), t.lun.bs)
    ensures var t1 := O.WriteCommand(t, who, itt, |buffer|, random, cdb, W.Immediate(buffer, sent)).1;
            var l := O.PushAll(t1, who, ps).1.lun;
            l.Valid() && ReadCommand(l, readCdb) == Blocks(lba, len) &&
            var s := ReadStream(l, who, lba, len, |buffer|, maxSegLen, sn);
            Payload(s.pdus) == buffer &&
            (N.Arrives(cfg, check, c, s.pdus) <==> N.WireFits(cfg, check, |buffer|, ChunkOf(maxSegLen))) &&
            (N.WireFits(cfg, check, |buffer|, ChunkOf(maxSegLen)) ==>
             N.Reassembled(Received(cfg, check, c, s)) == buffer && AllRead(cfg, check, c, s))
  {
    hide N.Arrives, N.WireFits, Received, N.Reassembled, AllRead, Addresses, W.Trips;
    hide O.WriteCommand, O.PushAll, LbaLen, W.R.Pieces, W.R.PairwiseApart, W.R.CoversAll, Span, Segments, Payload, SizesFit;
    W.WriteArrives(t, who, itt, random, cdb, lba, len, sent, buffer, ps);
    var l := t.lun.(disk := Splice(t.lun.disk, Span(lba, t.lun.bs), buffer));
    AcceptedIgnoresContents(t.lun, l, readCdb);
    TransferSizeIff(|buffer|, |buffer|);
    W.SpanOfNothing(len, t.lun);
    ReadDelivers(l, who, readCdb, lba, len, |buffer|, maxSegLen, sn, cfg, check, c);
    SpliceReadsBack(t.lun.disk, Span(lba, t.lun.bs), buffer);
  }

  lemma SpliceReadsBack(s: seq<byte>, at: nat, b: seq<byte>)
    requires at + |b| <= |s|
    ensures Splice(s, at, b)[at..at + |b|] == b
  {}

  lemma AcceptedIgnoresContents(l: Lun, l': Lun, cdb: seq<byte>)
    requires l.Valid() && |cdb| == 16 && SameDevice(l, l')
    ensures Accepted(l, cdb) == Accepted(l', cdb)
  {}
}

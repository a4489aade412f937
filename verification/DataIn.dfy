/**
 The Data-In side of a READ: the loop of `server::push_response` that streams blocks to the initiator in segments,
 and the sequence numbers of `session::get_inc_datasn`.
 */
module DataIn {
  import opened Bytes
  import opened Lun
  import opened ScsiCommands

  datatype Residual = Underflow(count: uint32) | Overflow(count: uint32)

  datatype Pdu = Pdu(dataSn: uint32, offset: nat, data: seq<byte>, final: bool, status: bool, residual: Option<Residual>)

  datatype Stream = Stream(ok: bool, pdus: seq<Pdu>)

  /** `scsi::read_`: refused, nothing to do, or blocks to stream. */
  datatype ReadReply = Refused(sense: Sense) | Nothing | Blocks(lba: uint64, n: uint32)

  function ReadCommand(l: Lun, cdb: seq<byte>): (r: ReadReply)
    requires l.Valid() && |cdb| == 16
  {
    var (lba, len) := LbaLen(cdb);
    var vr := ValidateRequest(l, lba, len, cdb);
    if vr.Some? then Refused(vr.value) else if len == 0 then Nothing else Blocks(lba, len)
  }

  /** What one Data-In PDU of `n` bytes is filled with: a part of a block, or whole blocks and then zeros. */
  function Segment(l: Lun, who: Session, lba: nat, n: nat): (r: (RwResult, seq<byte>))
    requires l.bs > 0
    ensures r.0 == RwOk ==> |r.1| == n
  {
    if n < l.bs then
      var (rc, block) := Read(l, who, lba, 1);
      (rc, if rc == RwOk then block[..n] else [])
    else
      var (rc, blocks) := Read(l, who, lba, WholeBlocks(n, l.bs));
      (rc, if rc == RwOk then blocks + Zeros(n - |blocks|) else [])
  }

  /** What stays the same during a stream of `total` bytes in segments of at most `chunk` bytes. */
  datatype Reader = Reader(lun: Lun, who: Session, total: nat, chunk: nat, residual: Option<Residual>)
  {
    predicate Valid() {
      lun.bs > 0 && chunk > 0
    }

    function Length(offset: nat): (r: nat)
      requires chunk > 0 && offset < total
      ensures 0 < r <= total - offset
    {
      Min(chunk, total - offset)
    }

    function PduAt(offset: nat, sn: uint32, data: seq<byte>): (r: Pdu) {
      var last := offset + |data| == total;
      Pdu(sn, offset, data, last, last, if last then residual else None)
    }
  }

  /** The stream loop from `offset` on; a failed read ends it. */
  function Segments(r: Reader, lba: nat, offset: nat, sn: uint32): (result: Stream)
    requires r.Valid() && offset <= r.total
    decreases r.total - offset
  {
    if offset == r.total then Stream(true, [])
    else
      var n := r.Length(offset);
      var (rc, data) := Segment(r.lun, r.who, lba, n);
      if rc != RwOk then Stream(false, [])
      else
        var rest := Segments(r, lba + WholeBlocks(n, r.lun.bs), offset + n, U32(sn + 1));
        Stream(rest.ok, [r.PduAt(offset, sn, data)] + rest.pdus)
  }

  function ResidualOf(has: uint32, wants: uint32): (r: Option<Residual>) {
    if has > wants then Some(Overflow(has - wants)) else if has < wants then Some(Underflow(wants - has)) else None
  }

  function ChunkOf(maxSegLen: uint32): (r: nat) {
    Min(maxSegLen, MAX_DATA_SEGMENT_SIZE)
  }

  /** The Data-In PDUs for `n` blocks at `lba`, of which the initiator wants `wants` bytes. */
  function ReadStream(l: Lun, who: Session, lba: nat, n: nat, wants: uint32, maxSegLen: uint32, sn: uint32): (r: Stream)
    requires l.bs > 0 && maxSegLen > 0
  {
    var has := U32(Span(n, l.bs));
    Segments(Reader(l, who, Min(has, wants), ChunkOf(maxSegLen), ResidualOf(has, wants)), lba, 0, sn)
  }

  /** `get_inc_datasn`: the number given out, and the session's counter and tag afterwards. */
  function NextDataSn(sn: uint32, snItt: uint32, itt: uint32): (r: (uint32, uint32, uint32)) {
    if itt == snItt then (sn, U32(sn + 1), itt) else (0, 1, itt)
  }

  // --- the shape of the stream

  function Payload(ps: seq<Pdu>): (r: seq<byte>)
    decreases |ps|
  {
    if ps == [] then [] else ps[0].data + Payload(ps[1..])
  }

  function CeilDiv(a: nat, b: nat): (r: nat)
    requires b > 0
    decreases a
  {
    if a == 0 then 0 else if a <= b then 1 else 1 + CeilDiv(a - b, b)
  }

  /** The blocks from `lba` on hold at least `rest` bytes, rounded up to a block. */
  ghost predicate Within(l: Lun, who: Session, lba: nat, rest: nat) {
    l.bs > 0 && l.healthy && !LockedOther(l, who) &&
    exists m: nat :: rest <= Span(m, l.bs) && Span(lba, l.bs) + Span(m, l.bs) <= |l.disk|
  }

  lemma WithinFits(l: Lun, who: Session, lba: nat, rest: nat)
    requires Within(l, who, lba, rest)
    ensures l.bs > 0 && l.healthy && !LockedOther(l, who)
    ensures Span(lba, l.bs) + rest <= |l.disk|
  {}

  /** The segment and what comes after it are on the device, too. */
  lemma WithinSplits(l: Lun, who: Session, lba: nat, n: nat, rest: nat)
    requires Within(l, who, lba, rest) && 0 < n <= rest
    ensures var k := if n < l.bs then 1 else WholeBlocks(n, l.bs); Span(lba, l.bs) + Span(k, l.bs) <= |l.disk|
    ensures Within(l, who, lba + WholeBlocks(n, l.bs), rest - n)
  {
    hide Span, WholeBlocks;
    var m: nat :| rest <= Span(m, l.bs) && Span(lba, l.bs) + Span(m, l.bs) <= |l.disk|;
    var k := WholeBlocks(n, l.bs);
    SpanGrows(1, m, l.bs);
    SpanAdd(m, 1, l.bs);
    if k > m {
      SpanGrows(m + 1, k, l.bs);
    }
    SpanAdd(k, m - k, l.bs);
    SpanAdd(lba, k, l.bs);
    assert rest - n <= Span(m - k, l.bs);
  }

  lemma SegmentMeans(l: Lun, who: Session, lba: nat, n: nat, rest: nat)
    requires Within(l, who, lba, rest) && 0 < n <= rest
    ensures Segment(l, who, lba, n).0 == RwOk
    ensures Span(lba, l.bs) + n <= |l.disk|
    ensures n < l.bs || n == Span(WholeBlocks(n, l.bs), l.bs) ==> Segment(l, who, lba, n).1 == l.disk[Span(lba, l.bs)..Span(lba, l.bs) + n]
    ensures n >= l.bs ==> forall i :: Span(WholeBlocks(n, l.bs), l.bs) <= i < n ==> Segment(l, who, lba, n).1[i] == 0
  {
    hide Span, WholeBlocks, Within;
    WithinSplits(l, who, lba, n, rest);
    WithinFits(l, who, lba, rest);
  }

  /** The first PDU of a stream, and the stream after it. */
  lemma FirstSegment(r: Reader, lba: nat, offset: nat, sn: uint32)
    requires r.Valid() && offset < r.total && Within(r.lun, r.who, lba, r.total - offset)
    ensures var n := r.Length(offset); var k := WholeBlocks(n, r.lun.bs);
            var data := Segment(r.lun, r.who, lba, n).1;
            var all, rest := Segments(r, lba, offset, sn), Segments(r, lba + k, offset + n, U32(sn + 1));
            |data| == n && Within(r.lun, r.who, lba + k, r.total - offset - n) &&
            all == Stream(rest.ok, [r.PduAt(offset, sn, data)] + rest.pdus) && all.pdus[1..] == rest.pdus &&
            Payload(all.pdus) == data + Payload(rest.pdus)
  {
    hide Segment, Within, Span, WholeBlocks, U32;
    WithinSplits(r.lun, r.who, lba, r.Length(offset), r.total - offset);
    SegmentMeans(r.lun, r.who, lba, r.Length(offset), r.total - offset);
  }

  /** Where the PDU at index `i` of a stream from `offset` on stands. */
  predicate InPlace(r: Reader, p: Pdu, i: nat, offset: nat, sn: uint32) {
    var at := offset + Span(i, r.chunk);
    p.offset == at && |p.data| == Min(r.chunk, r.total - at) &&
    (p.final <==> at + |p.data| == r.total) && p.status == p.final &&
    p.residual == (if p.final then r.residual else None) && p.dataSn == U32(sn + i)
  }

  /**
   However the sizes divide, a stream whose blocks are on the device ends well; it has one PDU for each segment,
   offsets are contiguous, F and S are on the last PDU only and sequence numbers count up from the first.
   */
  lemma {:induction false} StreamShape(r: Reader, lba: nat, offset: nat, sn: uint32)
    requires r.Valid() && offset <= r.total && Within(r.lun, r.who, lba, r.total - offset)
    ensures var s := Segments(r, lba, offset, sn);
            s.ok && |s.pdus| == CeilDiv(r.total - offset, r.chunk) && |Payload(s.pdus)| == r.total - offset &&
            (forall i :: 0 <= i < |s.pdus| ==> InPlace(r, s.pdus[i], i, offset, sn)) &&
            (forall i :: 0 <= i < |s.pdus| ==> (s.pdus[i].final <==> i == |s.pdus| - 1))
    decreases r.total - offset
  {
    hide Segment, Within, Span, WholeBlocks, U32, InPlace, Segments, Payload, CeilDiv;
    CeilStep(r.total - offset, r.chunk);
    if offset == r.total {
      EmptyStream(r, lba, sn);
    } else {
      var n := r.Length(offset);
      var k := WholeBlocks(n, r.lun.bs);
      FirstSegment(r, lba, offset, sn);
      StreamShape(r, lba + k, offset + n, U32(sn + 1));
      var ps, rest := Segments(r, lba, offset, sn).pdus, Segments(r, lba + k, offset + n, U32(sn + 1)).pdus;
      CeilStep(r.total - offset - n, r.chunk);
      FirstInPlace(r, offset, sn, Segment(r.lun, r.who, lba, n).1);
      forall i | 0 <= i < |ps| ensures InPlace(r, ps[i], i, offset, sn) && (ps[i].final <==> i == |ps| - 1) {
        if i > 0 {
          assert ps[i] == rest[i - 1];
          ShiftPlace(r, ps[i], i, offset, sn);
        }
      }
    }
  }

  lemma CeilStep(a: nat, b: nat)
    requires b > 0
    ensures CeilDiv(a, b) == if a == 0 then 0 else 1 + CeilDiv(a - Min(a, b), b)
  {}

  lemma FirstInPlace(r: Reader, offset: nat, sn: uint32, data: seq<byte>)
    requires r.Valid() && offset < r.total && |data| == r.Length(offset)
    ensures InPlace(r, r.PduAt(offset, sn, data), 0, offset, sn)
  {}

  lemma ShiftPlace(r: Reader, p: Pdu, i: nat, offset: nat, sn: uint32)
    requires i > 0 && offset + r.chunk <= r.total && InPlace(r, p, i - 1, offset + r.chunk, U32(sn + 1))
    ensures InPlace(r, p, i, offset, sn)
  {
    hide Span;
    SpanAdd(i - 1, 1, r.chunk);
    assert U32(U32(sn + 1) + (i - 1)) == U32(sn + i);
  }

  // --- the contents of the stream

  /** Every segment but the last is whole blocks; the last is too, or is less than one block. */
  predicate Divides(total: nat, chunk: nat, bs: nat)
    requires bs > 0 && chunk > 0
    decreases total
  {
    if total <= chunk then total < bs || total == Span(WholeBlocks(total, bs), bs)
    else chunk == Span(WholeBlocks(chunk, bs), bs) && Divides(total - chunk, chunk, bs)
  }

  lemma {:induction false} StreamContents(r: Reader, lba: nat, offset: nat, sn: uint32)
    requires r.Valid() && offset <= r.total && Within(r.lun, r.who, lba, r.total - offset)
    requires Divides(r.total - offset, r.chunk, r.lun.bs)
    ensures Span(lba, r.lun.bs) + (r.total - offset) <= |r.lun.disk|
    ensures Payload(Segments(r, lba, offset, sn).pdus) == r.lun.disk[Span(lba, r.lun.bs)..Span(lba, r.lun.bs) + (r.total - offset)]
    decreases r.total - offset
  {
    hide Segment, Within, Span, WholeBlocks, U32, Divides, Payload, Segments, Reader.PduAt;
    WithinFits(r.lun, r.who, lba, r.total - offset);
    if offset == r.total {
      EmptyStream(r, lba, sn);
    } else {
      var n, bs, disk := r.Length(offset), r.lun.bs, r.lun.disk;
      var k := WholeBlocks(n, bs);
      FirstSegment(r, lba, offset, sn);
      SegmentMeans(r.lun, r.who, lba, n, r.total - offset);
      DividesHead(r.total - offset, r.chunk, bs);
      if offset + n < r.total {
        StreamContents(r, lba + k, offset + n, U32(sn + 1));
        SpanAdd(lba, k, bs);
        Adjacent(disk, Span(lba, bs), n, r.total - offset - n);
      } else {
        EmptyStream(r, lba + k, U32(sn + 1));
      }
    }
  }

  lemma EmptyStream(r: Reader, lba: nat, sn: uint32)
    requires r.Valid()
    ensures Segments(r, lba, r.total, sn) == Stream(true, []) && Payload([]) == []
  {}

  lemma DividesHead(total: nat, chunk: nat, bs: nat)
    requires bs > 0 && chunk > 0 && Divides(total, chunk, bs) && total > 0
    ensures var n := Min(chunk, total); n == Span(WholeBlocks(n, bs), bs) || (n < bs && n == total)
    ensures total > chunk ==> Divides(total - chunk, chunk, bs)
  {}

  lemma Adjacent(s: seq<byte>, at: nat, m: nat, n: nat)
    requires at + m + n <= |s|
    ensures s[at..at + m] + s[at + m..at + m + n] == s[at..at + m + n]
  {}
}

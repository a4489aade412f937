/**
 `session.cpp` and the Data-Out and Data-In branches of `server::push_response` as they run: the session's table and
 counters, and the device, change in place. Each method is tied to the function about which the properties are proved.
 */
module Server {
  import opened Bytes
  import L = Lun
  import C = ScsiCommands
  import O = DataOut
  import I = DataIn
  import T = ReadTransfer
  import D = ScsiDevice
  import F = Framing
  import N = DataInFraming

  class Session {
    var dataSn: uint32
    var dataSnItt: uint32
    var r2tSessions: map<uint32, C.R2tSession>

    constructor ()
      ensures dataSn == 0 && dataSnItt == 0 && r2tSessions == map[]
    {
      dataSn, dataSnItt, r2tSessions := 0, 0, map[];
    }

    method GetIncDataSn(itt: uint32) returns (sn: uint32)
      modifies this`dataSn, this`dataSnItt
      ensures (sn, dataSn, dataSnItt) == I.NextDataSn(old(dataSn), old(dataSnItt), itt)
    {
      if itt != dataSnItt {
        dataSnItt, dataSn := itt, 0;
      }
      sn := dataSn;
      dataSn := U32(dataSn + 1);
    }

    method InitR2tSession(s: C.R2tSession, tag: uint32)
      modifies this`r2tSessions
      ensures r2tSessions == O.Register(old(r2tSessions), tag, s)
    {
      if tag in r2tSessions { return; }
      r2tSessions := r2tSessions[tag := s];
    }

    method GetR2tSession(tag: uint32) returns (s: Option<C.R2tSession>)
      ensures s == if tag in r2tSessions then Some(r2tSessions[tag]) else None
    {
      s := None;
      if tag in r2tSessions {
        s := Some(r2tSessions[tag]);
      }
    }

    method RemoveR2tSession(tag: uint32)
      modifies this`r2tSessions
      ensures r2tSessions == old(r2tSessions) - {tag}
    {
      r2tSessions := r2tSessions - {tag};
    }
  }

  ghost function TargetOf(ses: Session, scsi: D.Scsi): (r: O.Target)
    reads ses, scsi
  {
    O.Target(scsi.Value(), ses.r2tSessions)
  }

  /** The write same, unmap and plain write of a Data-Out PDU. */
  method Store(scsi: D.Scsi, who: L.Session, s: C.R2tSession, p: O.Pdu) returns (rc: L.RwResult)
    requires scsi.bs > 0 && |p.data| >= scsi.bs
    modifies scsi`disk, scsi`log
    ensures (rc, scsi.Value()) == O.Store(old(scsi.Value()), who, s, p)
  {
    hide L.Span, C.SameLoop, L.Trim, L.Write, L.WholeBlocks, U64;
    var bs := scsi.bs;
    var lba: nat := U64(s.bufferLba + L.WholeBlocks(p.offset, bs));
    if s.isWriteSame {
      var n := L.WholeBlocks(s.bytesLeft, bs);
      if s.writeSameIsUnmap {
        rc := scsi.Trim(who, s.bufferLba, n);
      } else {
        rc := scsi.SameLoop(who, lba, n, false, p.data);
      }
    } else {
      rc := scsi.Write(who, lba, L.WholeBlocks(|p.data|, bs), p.data);
    }
  }

  method PushDataOut(ses: Session, scsi: D.Scsi, who: L.Session, p: O.Pdu) returns (reply: O.Reply)
    requires scsi.bs > 0
    modifies ses`r2tSessions, scsi`disk, scsi`log
    ensures (reply, TargetOf(ses, scsi)) == O.Push(old(TargetOf(ses, scsi)), who, p)
  {
    hide O.Store;
    var tag := p.ttt;
    var found := ses.GetR2tSession(tag);
    if tag == O.NO_TAG {
      tag := p.itt;
      found := ses.GetR2tSession(tag);
    }
    if found.None? { return O.Reply(O.BadField, []); }
    var s := found.value;
    if |p.data| > 0 {
      if p.offset % scsi.bs != 0 { return O.Reply(O.BadField, []); }
      if |p.data| % scsi.bs != 0 { return O.Reply(O.BadField, []); }
      var rc := Store(scsi, who, s, p);
      if rc != L.RwOk { return O.Reply(O.IoError, []); }
      if s.fua {
        var synced := scsi.Sync(who);
        if synced == L.RwOk { return O.Reply(O.IoError, []); }
      }
      s := s.(bytesDone := U32(s.bytesDone + |p.data|), bytesLeft := U32(s.bytesLeft - |p.data|));
      ses.r2tSessions := ses.r2tSessions[tag := s];
    } else if !p.final {
      return O.Reply(O.BadField, []);
    }
    if !p.final { return O.Reply(O.Fine, []); }
    if s.bytesLeft == 0 {
      ses.RemoveR2tSession(tag);
      return O.Reply(O.Fine, [O.GOOD]);
    }
    return O.Reply(O.Fine, [O.GOOD, O.ReadyToTransfer(s.bytesDone, s.bytesLeft)]);
  }

  method ReadSegment(scsi: D.Scsi, who: L.Session, lba: nat, n: nat) returns (rc: L.RwResult, data: seq<byte>)
    requires scsi.bs > 0
    modifies scsi`log
    ensures (rc, data) == I.Segment(scsi.Value(), who, lba, n)
  {
    hide L.Span, L.Read;
    data := [];
    if n < scsi.bs {
      var block;
      rc, block := scsi.Read(who, lba, 1);
      if rc == L.RwOk {
        data := block[..n];
      }
    } else {
      var blocks;
      rc, blocks := scsi.Read(who, lba, L.WholeBlocks(n, scsi.bs));
      if rc == L.RwOk {
        data := blocks + L.Zeros(n - |blocks|);
      }
    }
  }

  /** The stream that is still to come, from `offset` on, completes what has been sent. */
  ghost predicate Pending(r: I.Reader, lba: nat, first: uint32, at: nat, offset: nat, sent: seq<I.Pdu>)
    requires r.Valid() && offset <= r.total
  {
    var rest := I.Segments(r, at, offset, U32(first + |sent|));
    I.Segments(r, lba, 0, first) == I.Stream(rest.ok, sent + rest.pdus)
  }

  lemma PendingAtStart(r: I.Reader, lba: nat, first: uint32)
    requires r.Valid()
    ensures Pending(r, lba, first, lba, 0, [])
  {
    hide I.Segments;
    assert [] + I.Segments(r, lba, 0, first).pdus == I.Segments(r, lba, 0, first).pdus;
  }

  lemma PendingStep(r: I.Reader, lba: nat, first: uint32, at: nat, offset: nat, sent: seq<I.Pdu>)
    requires r.Valid() && offset < r.total && Pending(r, lba, first, at, offset, sent)
    ensures var n := r.Length(offset); var (rc, data) := I.Segment(r.lun, r.who, at, n);
            if rc != L.RwOk then I.Segments(r, lba, 0, first) == I.Stream(false, sent)
            else Pending(r, lba, first, at + L.WholeBlocks(n, r.lun.bs), offset + n, sent + [r.PduAt(offset, U32(first + |sent|), data)])
  {
    hide I.Segments, I.Segment, L.WholeBlocks, U32;
    var n, sn := r.Length(offset), U32(first + |sent|);
    var (rc, data) := I.Segment(r.lun, r.who, at, n);
    Unroll(r, at, offset, sn);
    NextNumber(first, |sent|);
    if rc == L.RwOk {
      var pdu := r.PduAt(offset, sn, data);
      var rest := I.Segments(r, at + L.WholeBlocks(n, r.lun.bs), offset + n, U32((sn as int) + 1));
      assert sent + ([pdu] + rest.pdus) == (sent + [pdu]) + rest.pdus;
    } else {
      assert sent + [] == sent;
    }
  }

  lemma PendingAtEnd(r: I.Reader, lba: nat, first: uint32, at: nat, sent: seq<I.Pdu>)
    requires r.Valid() && Pending(r, lba, first, at, r.total, sent)
    ensures I.Segments(r, lba, 0, first) == I.Stream(true, sent)
  {
    assert sent + [] == sent;
  }

  lemma Unroll(r: I.Reader, at: nat, offset: nat, sn: uint32)
    requires r.Valid() && offset < r.total
    ensures var n := r.Length(offset); var (rc, data) := I.Segment(r.lun, r.who, at, n);
            var rest := I.Segments(r, at + L.WholeBlocks(n, r.lun.bs), offset + n, U32((sn as int) + 1));
            I.Segments(r, at, offset, sn) ==
            if rc != L.RwOk then I.Stream(false, []) else I.Stream(rest.ok, [r.PduAt(offset, sn, data)] + rest.pdus)
  {
    hide I.Segment, L.WholeBlocks;
  }

  lemma NextNumber(first: uint32, k: nat)
    ensures U32(U32(first + k) + 1) == U32(first + (k + 1))
  {}

  /** The counter of the session after `k` Data-In PDUs of task `itt`. */
  ghost predicate Numbered(ses: Session, sn: uint32, snItt: uint32, itt: uint32, k: nat)
    reads ses
  {
    if k == 0 then ses.dataSn == sn && ses.dataSnItt == snItt
    else ses.dataSnItt == itt && ses.dataSn == U32(T.FirstSn(sn, snItt, itt) + k)
  }

  method DrawNumber(ses: Session, itt: uint32, ghost sn0: uint32, ghost snItt0: uint32, ghost k: nat) returns (sn: uint32)
    requires Numbered(ses, sn0, snItt0, itt, k)
    modifies ses`dataSn, ses`dataSnItt
    ensures sn == U32(T.FirstSn(sn0, snItt0, itt) + k) && Numbered(ses, sn0, snItt0, itt, k + 1)
  {
    NextNumber(T.FirstSn(sn0, snItt0, itt), k);
    sn := ses.GetIncDataSn(itt);
  }

  /** The stream loop; a number is drawn for every segment before it is read. */
  method StreamRead(ses: Session, scsi: D.Scsi, who: L.Session, itt: uint32, lba: nat, n: nat, wants: uint32, maxSegLen: uint32)
      returns (ok: bool, pdus: seq<I.Pdu>)
    requires scsi.bs > 0 && maxSegLen > 0
    modifies ses`dataSn, ses`dataSnItt, scsi`log
    ensures var first := T.FirstSn(old(ses.dataSn), old(ses.dataSnItt), itt);
            I.Stream(ok, pdus) == I.ReadStream(scsi.Value(), who, lba, n, wants, maxSegLen, first)
    ensures Numbered(ses, old(ses.dataSn), old(ses.dataSnItt), itt, if ok then |pdus| else |pdus| + 1)
  {
    hide L.Span, I.Segment, L.WholeBlocks, I.Segments, U32, Pending, Numbered, T.FirstSn;
    var has := U32(L.Span(n, scsi.bs));
    var total, chunk := Min(has, wants), I.ChunkOf(maxSegLen);
    var residual := I.ResidualOf(has, wants);
    ghost var r := I.Reader(scsi.Value(), who, total, chunk, residual);
    ghost var first := T.FirstSn(ses.dataSn, ses.dataSnItt, itt);
    ok, pdus := true, [];
    var offset: nat, at: nat := 0, lba;
    PendingAtStart(r, lba, first);
    NumberedAtStart(ses, itt);
    while offset < total
      invariant offset <= total && ok && r.Valid()
      invariant Numbered(ses, old(ses.dataSn), old(ses.dataSnItt), itt, |pdus|)
      invariant Pending(r, lba, first, at, offset, pdus)
    {
      var length := Min(chunk, total - offset);
      var last := offset + length == total;
      var sn := DrawNumber(ses, itt, old(ses.dataSn), old(ses.dataSnItt), |pdus|);
      PendingStep(r, lba, first, at, offset, pdus);
      var rc, data := ReadSegment(scsi, who, at, length);
      if rc != L.RwOk {
        ok := false;
        return;
      }
      pdus := pdus + [I.Pdu(sn, offset, data, last, last, if last then residual else None)];
      offset, at := offset + length, at + L.WholeBlocks(length, scsi.bs);
    }
    PendingAtEnd(r, lba, first, at, pdus);
  }

  lemma NumberedAtStart(ses: Session, itt: uint32)
    ensures Numbered(ses, ses.dataSn, ses.dataSnItt, itt, 0)
  {}

  /** The bytes that the loop hands to the connection, one buffer after the other. */
  method SendAll(cfg: F.Settings, c: N.Command, pdus: seq<I.Pdu>) returns (sent: seq<byte>)
    requires c.Valid()
    ensures sent == N.EmitAll(cfg, c, pdus)
  {
    hide N.Emit;
    sent := [];
    var i := 0;
    while i < |pdus|
      invariant 0 <= i <= |pdus|
      invariant sent + N.EmitAll(cfg, c, pdus[i..]) == N.EmitAll(cfg, c, pdus)
    {
      var out := N.FillPdu(cfg, c, pdus[i]);
      assert pdus[i..][0] == pdus[i] && pdus[i..][1..] == pdus[i + 1..];
      sent := sent + out[..];
      i := i + 1;
    }
  }
}

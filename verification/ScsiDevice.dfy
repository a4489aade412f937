/**
 The object of `scsi.cpp`: its disk and its reservation change in place, with the loops of the code. Every
 method is tied to the function of the same name, about which the properties are proved.
 */
module ScsiDevice {
  import opened Bytes
  import L = Lun
  import C = ScsiCommands
  import W = ScsiWrite
  import Y = CommandLayout

  /** The bytes that a call to the backend is about. */
  datatype Access = Access(at: nat, bytes: nat)

  datatype LockStatus = NotLocked | LockedSelf | LockedOther

  /** An accepted WRITE that brings no more than its transfer. */
  ghost predicate Within(l: L.Lun, cdb: seq<byte>, data: Option<seq<byte>>)
    requires l.Valid() && |cdb| == 16
  {
    W.Accepted(l, cdb) && (data.Some? ==> |data.value| <= L.Span(C.LbaLen(cdb).1, l.bs))
  }

  /** No accepted descriptor runs past the end of the device. */
  ghost predicate AllInside(l: L.Lun, es: seq<C.Extent>)
    requires l.Valid()
  {
    W.FirstPast(l, es) == |es|
  }

  lemma NextInside(l: L.Lun, es: seq<C.Extent>)
    requires l.Valid() && es != [] && AllInside(l, es)
    ensures AllInside(l, es[1..])
    ensures C.Rejected(l, es[0]).None? && es[0].len > 0 ==> L.Span(es[0].lba, l.bs) + L.Span(es[0].len, l.bs) <= |l.disk|
  {
    hide L.Span, C.Rejected;
    W.InsideIff(l, es[0].lba, es[0].len);
  }

  lemma InsideIgnoresContents(l: L.Lun, l': L.Lun, es: seq<C.Extent>)
    requires l.Valid() && L.SameDevice(l, l') && AllInside(l, es)
    ensures AllInside(l', es)
  {
    W.FirstPastIgnoresContents(l, l', es);
  }

  lemma CompareInside(l: L.Lun, cdb: seq<byte>)
    requires l.Valid() && |cdb| == 16 && C.ValidateRequest(l, C.Be64(cdb, 2), cdb[13], cdb).None? && cdb[13] <= l.Size()
    ensures L.Span(C.Be64(cdb, 2), l.bs) + L.Span(cdb[13], l.bs) <= |l.disk|
  {
    W.AcceptedIffOnDevice(l, C.Be64(cdb, 2), cdb[13]);
  }

  class Scsi {
    const bs: nat
    const trimLevel: int
    const emptyTrimOk: bool
    const healthy: bool
    const syncs: bool
    var disk: seq<byte>
    var lockedBy: Option<L.Session>
    ghost var log: seq<Access>  // every call to the backend, also one that fails

    constructor (bs: nat, trimLevel: int, emptyTrimOk: bool, healthy: bool, syncs: bool, disk: seq<byte>)
      ensures Value() == L.Lun(disk, bs, trimLevel, emptyTrimOk, healthy, syncs, None) && log == []
    {
      this.bs, this.trimLevel, this.emptyTrimOk, this.healthy, this.syncs := bs, trimLevel, emptyTrimOk, healthy, syncs;
      this.disk, lockedBy, log := disk, None, [];
    }

    /** The device as a value. */
    ghost function Value(): (r: L.Lun)
      reads this
    {
      L.Lun(disk, bs, trimLevel, emptyTrimOk, healthy, syncs, lockedBy)
    }

    /** All addresses that were ever given to the backend are on the device. */
    ghost predicate OnDevice()
      reads this
    {
      forall i :: 0 <= i < |log| ==> log[i].at + log[i].bytes <= |disk|
    }

    /** The `n` blocks from `blk` on are on the device. */
    ghost predicate Fits(blk: nat, n: nat)
      reads this
    {
      L.Span(blk, bs) + L.Span(n, bs) <= |disk|
    }

    /** Whole blocks are on the device, and so is the block of a fragment after them. */
    ghost predicate PartsFit(lba: nat, work: nat, received: nat, n: nat)
      reads this
    {
      Fits(lba, work) && (L.Span(work, bs) < n < L.Span(work, bs) + bs ==> work == received && Fits(lba + work, 1))
    }

    // --- the backend

    method BackendWrite(blk: nat, data: seq<byte>) returns (ok: bool)
      modifies this`disk, this`log
      ensures (ok, Value()) == L.BackendWrite(old(Value()), blk, data)
      ensures log == old(log) + [Access(L.Span(blk, bs), |data|)]
    {
      log := log + [Access(L.Span(blk, bs), |data|)];
      ok := healthy && L.Span(blk, bs) + |data| <= |disk|;
      if ok {
        disk := Splice(disk, L.Span(blk, bs), data);
      }
    }

    method BackendTrim(blk: nat, n: nat) returns (ok: bool)
      modifies this`disk, this`log
      ensures (ok, Value()) == L.BackendTrim(old(Value()), blk, n)
      ensures log == old(log) + [Access(L.Span(blk, bs), L.Span(n, bs))]
    {
      log := log + [Access(L.Span(blk, bs), L.Span(n, bs))];
      ok := healthy && L.Span(blk, bs) + L.Span(n, bs) <= |disk| && (n > 0 || emptyTrimOk);
      if ok {
        disk := Splice(disk, L.Span(blk, bs), L.Zeros(L.Span(n, bs)));
      }
    }

    method BackendRead(blk: nat, n: nat) returns (ok: bool, data: seq<byte>)
      modifies this`log
      ensures (ok, data) == L.BackendRead(Value(), blk, n)
      ensures log == old(log) + [Access(L.Span(blk, bs), L.Span(n, bs))]
    {
      log := log + [Access(L.Span(blk, bs), L.Span(n, bs))];
      ok := healthy && L.Span(blk, bs) + L.Span(n, bs) <= |disk|;
      data := if ok then disk[L.Span(blk, bs)..L.Span(blk, bs) + L.Span(n, bs)] else [];
    }

    // --- reservations

    method LockingStatus(who: L.Session) returns (s: LockStatus)
      ensures s == LockedOther <==> L.LockedOther(Value(), who)
      ensures s == LockedSelf <==> lockedBy == Some(who)
    {
      if lockedBy.None? { return NotLocked; }
      if lockedBy.value == who { return LockedSelf; }
      return LockedOther;
    }

    method ReserveDevice(who: L.Session) returns (s: LockStatus)
      modifies this`lockedBy
      ensures (s == LockedSelf, Value()) == L.Reserve(old(Value()), who)
      ensures s != NotLocked
    {
      if lockedBy.Some? {
        if lockedBy.value == who { return LockedSelf; }
        return LockedOther;
      }
      lockedBy := Some(who);
      return LockedSelf;
    }

    method UnlockDevice(who: L.Session) returns (ok: bool)
      modifies this`lockedBy
      ensures (ok, Value()) == L.Unlock(old(Value()), who)
    {
      if lockedBy.None? { return false; }
      if lockedBy.value == who {
        lockedBy := None;
        return true;
      }
      return false;
    }

    /** What the handler does when a session is over: a last sync, then the unlock. */
    method EndSession(who: L.Session) returns (rc: L.RwResult)
      modifies this`lockedBy
      ensures rc == L.Sync(old(Value()), who) && Value() == L.Unlock(old(Value()), who).1
    {
      rc := Sync(who);
      var status := LockingStatus(who);
      if status == LockedSelf {
        var _ := UnlockDevice(who);
      }
    }

    // --- access to the disk

    method Sync(who: L.Session) returns (rc: L.RwResult)
      ensures rc == L.Sync(Value(), who)
    {
      var status := LockingStatus(who);
      rc := if status == LockedOther then L.RwFailLocked else L.Result(syncs);
    }

    method Write(who: L.Session, blk: nat, n: nat, data: seq<byte>) returns (rc: L.RwResult)
      requires bs > 0 && L.Span(n, bs) <= |data|
      modifies this`disk, this`log
      ensures (rc, Value()) == L.Write(old(Value()), who, blk, n, data)
      ensures Fits(blk, n) && old(OnDevice()) ==> OnDevice()
    {
      hide L.Span;
      var status := LockingStatus(who);
      if status == LockedOther { return L.RwFailLocked; }
      var ok;
      if trimLevel == 2 {
        var isZero := IsZero(n, data);
        if isZero {
          ok := BackendTrim(blk, n);
        } else {
          ok := BackendWrite(blk, data[..L.Span(n, bs)]);
        }
      } else {
        ok := BackendWrite(blk, data[..L.Span(n, bs)]);
      }
      rc := L.Result(ok);
    }

    /** The scan for a block that is not zero. */
    method IsZero(n: nat, data: seq<byte>) returns (isZero: bool)
      requires bs > 0 && L.Span(n, bs) <= |data|
      ensures isZero <==> L.AllZero(data[..L.Span(n, bs)])
    {
      hide L.Span;
      isZero := true;
      var i, zero := 0, L.Zeros(bs);
      while i < n
        invariant 0 <= i <= n && L.Span(i, bs) <= |data|
        invariant L.AllZero(data[..L.Span(i, bs)])
      {
        L.SpanAdd(i, 1, bs);
        L.SpanGrows(i + 1, n, bs);
        ghost var before, after := data[..L.Span(i, bs)], data[..L.Span(i + 1, bs)];
        var block := data[L.Span(i, bs)..L.Span(i + 1, bs)];
        if block != zero {
          ghost var k :| 0 <= k < bs && block[k] != 0;
          assert data[..L.Span(n, bs)][L.Span(i, bs) + k] != 0;
          return false;
        }
        assert after == before + block;
        i := i + 1;
      }
    }

    method Trim(who: L.Session, blk: nat, n: nat) returns (rc: L.RwResult)
      requires bs > 0
      modifies this`disk, this`log
      ensures (rc, Value()) == L.Trim(old(Value()), who, blk, n)
      ensures Fits(blk, n) && old(OnDevice()) ==> OnDevice()
    {
      hide L.Span, L.Write, L.BackendTrim;
      var status := LockingStatus(who);
      if status == LockedOther { return L.RwFailLocked; }
      if trimLevel == 0 {
        rc := L.RwOk;
        var zero, i := L.Zeros(bs), 0;
        while i < n
          invariant 0 <= i <= n && rc == L.RwOk && |disk| == |old(disk)|
          invariant Fits(blk, n) && old(OnDevice()) ==> OnDevice()
          invariant L.TrimByWriting(Value(), who, blk + i, n - i) == L.TrimByWriting(old(Value()), who, blk, n)
        {
          if Fits(blk, n) { W.BlockInside(blk, n, i, bs, |disk|); }
          rc := Write(who, blk + i, 1, zero);
          if rc != L.RwOk { return; }
          i := i + 1;
        }
      } else {
        var ok := BackendTrim(blk, n);
        rc := L.Result(ok);
      }
    }

    method Read(who: L.Session, blk: nat, n: nat) returns (rc: L.RwResult, data: seq<byte>)
      modifies this`log
      ensures (rc, data) == L.Read(Value(), who, blk, n)
      ensures Fits(blk, n) && old(OnDevice()) ==> OnDevice()
    {
      var status := LockingStatus(who);
      if status == LockedOther { return L.RwFailLocked, []; }
      var ok;
      ok, data := BackendRead(blk, n);
      rc := L.Result(ok);
    }

    method CmpWrite(who: L.Session, blk: nat, n: nat, data: seq<byte>, expected: seq<byte>) returns (rc: L.RwResult)
      requires L.Span(n, bs) <= |data| && L.Span(n, bs) <= |expected|
      modifies this`disk, this`log
      ensures (rc, Value()) == L.CmpWrite(old(Value()), who, blk, n, data, expected)
      ensures rc == L.RwOk ==> Fits(blk, n) && var at := L.Span(blk, bs); var size := L.Span(n, bs);
              old(disk)[at..at + size] == expected[..size] && disk == Splice(old(disk), at, data[..size])
      ensures rc != L.RwOk ==> disk == old(disk)
      ensures Fits(blk, n) && old(OnDevice()) ==> OnDevice()
    {
      hide L.Span;
      var status := LockingStatus(who);
      if status == LockedOther { return L.RwFailLocked; }
      var ok, here := BackendRead(blk, n);
      if !ok { return L.RwFailRw; }
      if here != expected[..L.Span(n, bs)] { return L.RwFailMismatch; }
      ok := BackendWrite(blk, data[..L.Span(n, bs)]);
      rc := if ok then L.RwOk else L.RwFailRw;
    }

    // --- commands

    method WriteParts(who: L.Session, lba: nat, work: nat, received: nat, data: seq<byte>) returns (rc: L.RwResult)
      requires bs > 0 && L.Span(work, bs) <= |data|
      modifies this`disk, this`log
      ensures (rc, Value()) == C.WriteParts(old(Value()), who, lba, work, received, data)
      ensures PartsFit(lba, work, received, |data|) && old(OnDevice()) ==> OnDevice()
    {
      hide L.Span, L.Write, L.Read, Splice;
      rc := L.RwOk;
      if received > 0 {
        rc := Write(who, lba, work, data);
      }
      var fragment := data[L.Span(work, bs)..];
      if rc == L.RwOk && 0 < |fragment| < bs {
        var block;
        rc, block := Read(who, lba + work, 1);
        if rc == L.RwOk {
          rc := Write(who, lba + received, 1, Splice(block, 0, fragment));
        }
      }
    }

    method WriteVerify(who: L.Session, cdb: seq<byte>, data: Option<seq<byte>>) returns (response: C.Response)
      requires Value().Valid() && |cdb| == 16
      modifies this`disk, this`log
      ensures (response, Value()) == C.WriteVerify(old(Value()), who, cdb, data)
      ensures Within(old(Value()), cdb, data) && old(OnDevice()) ==> OnDevice()
      ensures Within(old(Value()), cdb, data) && data.Some? && healthy && !L.LockedOther(old(Value()), who) ==>
                forall lba: uint64, len: uint32 :: Y.Addresses(cdb, lba, len) ==>
                  var at := L.Span(lba, bs);
                  at + |data.value| <= |disk| && disk == Splice(old(disk), at, data.value)
    {
      hide Y.Addresses;
      forall lba: uint64, len: uint32 | Y.Addresses(cdb, lba, len) ensures C.LbaLen(cdb) == (lba, len) {
        W.AddressRead(cdb, lba, len);
      }
      hide L.Span, C.WriteParts, C.LbaLen, C.ValidateRequest, C.WriteResponse, Splice, OnDevice, W.Accepted, L.WholeBlocks, C.WriteSense;
      if Within(Value(), cdb, data) && data.Some? {
        W.AcceptedOnDevice(Value(), cdb);
        W.PartsInside(Value(), C.LbaLen(cdb).0, C.LbaLen(cdb).1, |data.value|);
        if healthy && !L.LockedOther(Value(), who) { W.VerifyStores(Value(), who, cdb, data.value); }
      }
      var (lba, len) := C.LbaLen(cdb);
      var fua, expected := C.BitSet(cdb[1], 3), L.Span(len, bs);
      var l := L.Lun(disk, bs, trimLevel, emptyTrimOk, healthy, syncs, lockedBy);
      var invalid := C.ValidateRequest(l, lba, len, cdb);
      if invalid.Some? { return C.Response(C.AsIs, invalid, expected, C.NO_R2T); }
      if data.None? { return C.WriteResponse(l, lba, len, 0, fua); }
      var received := L.WholeBlocks(|data.value|, bs);
      C.BlocksFit(|data.value|, bs, Min(len, received));
      var rc := WriteParts(who, lba, Min(len, received), received, data.value);
      response := if rc == L.RwOk then C.WriteResponse(l, lba, len, |data.value|, fua)
                  else C.Response(C.AsIs, C.WriteSense(rc), expected, C.NO_R2T);
    }

    method SameLoop(who: L.Session, lba: nat, n: nat, unmap: bool, block: seq<byte>) returns (rc: L.RwResult)
      requires bs > 0 && |block| >= bs
      modifies this`disk, this`log
      ensures (rc, Value()) == C.SameLoop(old(Value()), who, lba, n, unmap, block)
      ensures Fits(lba, n) && old(OnDevice()) ==> OnDevice()
    {
      hide L.Span, L.Write, L.Trim;
      rc := L.RwOk;
      var i := 0;
      while i < n && rc == L.RwOk
        invariant 0 <= i <= n
        invariant |disk| == |old(disk)| && (Fits(lba, n) && old(OnDevice()) ==> OnDevice())
        invariant C.SameLoop(old(Value()), who, lba, n, unmap, block) ==
                  if rc == L.RwOk then C.SameLoop(Value(), who, lba + i, n - i, unmap, block) else (rc, Value())
      {
        if Fits(lba, n) { W.BlockInside(lba, n, i, bs, |disk|); }
        if unmap {
          rc := Trim(who, lba + i, 1);
        } else {
          rc := Write(who, lba + i, 1, block);
        }
        i := i + 1;
      }
    }

    method WriteSame(who: L.Session, cdb: seq<byte>, data: Option<seq<byte>>) returns (response: C.Response)
      requires Value().Valid() && |cdb| == 16
      modifies this`disk, this`log
      ensures (response, Value()) == C.WriteSame(old(Value()), who, cdb, data)
      ensures W.Accepted(old(Value()), cdb) && old(OnDevice()) ==> OnDevice()
    {
      hide L.Span, C.SameLoop, C.LbaLen, C.ValidateRequest, C.OneBlock, C.BitSet, OnDevice, W.Accepted, L.Lun.Size;
      if W.Accepted(Value(), cdb) {
        W.AcceptedOnDevice(Value(), cdb);
        W.RestFits(Value(), C.LbaLen(cdb).0, C.LbaLen(cdb).1);
      }
      var (lba, len) := C.LbaLen(cdb);
      var unmap := C.BitSet(cdb[1], 3);
      var r2t, expected := C.R2tSession(0, 0, 0, true, unmap, false), L.Span(len, bs);
      var l := L.Lun(disk, bs, trimLevel, emptyTrimOk, healthy, syncs, lockedBy);
      var invalid := C.ValidateRequest(l, lba, len, cdb);
      if invalid.Some? { return C.Response(C.AsIs, invalid, expected, r2t); }
      if data.None? { return C.Response(if len == bs then C.R2T else C.EmptySense, None, expected, r2t); }
      if !C.OneBlock(|data.value|, bs) { return C.Response(C.AsIs, None, expected, r2t); }
      var size := l.Size();
      if len == 0 && U64(size - lba) > C.MAX_WS_LEN { return C.Response(C.AsIs, Some(C.InvalidField), expected, r2t); }
      var rc := SameLoop(who, lba, C.SameCount(size, lba, len), unmap, data.value);
      var sense := C.WriteSense(rc);
      response := C.Response(if sense.None? then C.EmptySense else C.AsIs, sense, expected, r2t);
    }

    method Unmap(who: L.Session, data: seq<byte>) returns (response: C.Response)
      requires Value().Valid() && C.DescriptorsComplete(data, 8)
      modifies this`disk, this`log
      ensures (response, Value()) == C.Unmap(old(Value()), who, data)
      ensures var es := C.Descriptors(data, 8); W.FirstPast(old(Value()), es) == |es| && old(OnDevice()) ==> OnDevice()
      ensures healthy && !L.LockedOther(old(Value()), who) ==>
                forall es :: Y.Lists(data, es) ==> disk == W.UnmapDisk(old(Value()), es)
    {
      hide L.Span, L.Trim, C.Rejected, OnDevice, Y.Lists, W.UnmapDisk;
      if healthy && !L.LockedOther(Value(), who) {
        forall es | Y.Lists(data, es) ensures C.Unmap(Value(), who, data).1.disk == W.UnmapDisk(Value(), es) {
          W.UnmapZeroesAccepted(Value(), who, data, es);
        }
      }
      var rc, sense := L.RwOk, None;
      var i := 8;
      ghost var start := C.UnmapState(L.RwOk, None, Value());
      ghost var inside := W.FirstPast(Value(), C.Descriptors(data, 8)) == |C.Descriptors(data, 8)|;
      ghost var done := C.UnmapLoop(start, who, C.Descriptors(data, 8));
      while i < |data|
        invariant Value().Valid() && 0 <= i && C.DescriptorsComplete(data, i)
        invariant C.UnmapLoop(C.UnmapState(rc, sense, Value()), who, C.Descriptors(data, i)) == done
        invariant L.SameDevice(old(Value()), Value()) && (inside ==> AllInside(Value(), C.Descriptors(data, i)))
        invariant inside && old(OnDevice()) ==> OnDevice()
        decreases |data| - i
      {
        var e := C.Extent(C.Be64(data, i), C.Be32(data, i + 8));
        assert C.Descriptors(data, i)[0] == e && C.Descriptors(data, i)[1..] == C.Descriptors(data, i + 16);
        if inside { NextInside(Value(), C.Descriptors(data, i)); }
        var rejected := C.Rejected(L.Lun(disk, bs, trimLevel, emptyTrimOk, healthy, syncs, lockedBy), e);
        if rejected.Some? {
          rc, sense := L.RwFailGeneral, rejected;
        } else if e.len > 0 {
          ghost var before := Value();
          rc := Trim(who, e.lba, e.len);
          if inside { InsideIgnoresContents(before, Value(), C.Descriptors(data, i + 16)); }
          if rc != L.RwOk { break; }
        }
        i := i + 16;
      }
      assert C.UnmapState(rc, sense, Value()) == done;
      if rc == L.RwOk {
        response := C.Response(C.EmptySense, sense, 0, C.NO_R2T);
      } else {
        if sense.None? {
          sense := Some(if rc == L.RwFailLocked then C.ReservationConflict else C.WriteError);
        }
        response := C.Response(C.AsIs, sense, 0, C.NO_R2T);
      }
    }

    method CompareAndWrite(who: L.Session, cdb: seq<byte>, data: seq<byte>) returns (response: C.Response)
      requires Value().Valid() && |cdb| == 16 && C.CompareDataPresent(Value(), cdb, data)
      modifies this`disk, this`log
      ensures (response, Value()) == C.CompareAndWrite(old(Value()), who, cdb, data)
      ensures cdb[13] <= old(Value()).Size() && old(OnDevice()) ==> OnDevice()
      ensures disk != old(disk) ==> var at: nat := L.Span(C.Be64(cdb, 2), bs);
              at + bs <= |disk| && 2 * bs <= |data| && old(disk)[at..at + bs] == data[..bs] &&
              disk == Splice(old(disk), at, data[bs..2 * bs]) && response.sense == None
    {
      hide L.Span, L.CmpWrite, C.ValidateRequest, Splice, OnDevice, C.Be64, Y.Compares;
      Y.ComparesIff(cdb, C.Be64(cdb, 2), cdb[13]);
      W.CompareChanges(Value(), who, cdb, data, C.Be64(cdb, 2));
      if C.ValidateRequest(Value(), C.Be64(cdb, 2), cdb[13], cdb).None? && cdb[13] <= Value().Size() {
        CompareInside(Value(), cdb);
      }
      var lba, count := C.Be64(cdb, 2), cdb[13];
      var expected := 2 * L.Span(count, bs);
      var l := L.Lun(disk, bs, trimLevel, emptyTrimOk, healthy, syncs, lockedBy);
      var invalid := C.ValidateRequest(l, lba, count, cdb);
      if invalid.Some? { return C.Response(C.AsIs, invalid, expected, C.NO_R2T); }
      if count > C.MAX_CAW_BLOCKS { return C.Response(C.AsIs, Some(C.CompareAndWriteCount), expected, C.NO_R2T); }
      var rc := CmpWrite(who, lba, count, data[L.Span(count, bs)..], data);
      match rc
      case RwOk => response := C.Response(C.EmptySense, None, expected, C.NO_R2T);
      case RwFailLocked => response := C.Response(C.AsIs, Some(C.ReservationConflict), expected, C.NO_R2T);
      case RwFailMismatch => response := C.Response(C.AsIs, Some(C.Miscompare), expected, C.NO_R2T);
      case RwFailRw => response := C.Response(C.AsIs, Some(C.WriteError), expected, C.NO_R2T);
      case RwFailGeneral => response := C.Response(C.AsIs, None, expected, C.NO_R2T);
    }
  }
}

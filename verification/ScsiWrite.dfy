/**
 What WRITE, WRITE SAME, UNMAP and COMPARE AND WRITE do to the array of bytes, at every trim level, and
 how immediate data splits a transfer between the command and the R2T that follows.
 */
module ScsiWrite {
  import opened Bytes
  import opened Lun
  import opened ScsiCommands
  import opened CommandLayout

  // --- the range check and the device

  lemma SizeTimesBlock(l: Lun)
    requires l.Valid()
    ensures Span(l.Size(), l.bs) == |l.disk|
  {}

  lemma SizeBound(l: Lun)
    requires l.Valid()
    ensures l.Size() <= |l.disk|
  {
    hide Span;
    SizeTimesBlock(l);
    SpanCovers(l.Size(), l.bs);
  }

  /** For a transfer not larger than the device an accepted range lies on the device, and only then. */
  lemma AcceptedIffOnDevice(l: Lun, lba: uint64, n: uint32)
    requires l.Valid() && n <= l.Size()
    ensures ValidateRange(l, lba, n).None? <==> Span(lba, l.bs) + Span(n, l.bs) <= |l.disk|
  {
    hide Span, RangeOk;
    RangeCheckIff(l.Size(), lba, n);
    InsideIff(l, lba, n);
  }

  // --- WRITE with immediate data

  /** The part of the immediate data that reaches the disk: whole blocks beyond the transfer are dropped. */
  function Taken(data: seq<byte>, len: nat, bs: nat): (r: seq<byte>) {
    if |data| < Span(len + 1, bs) then data else data[..Span(len, bs)]
  }

  /** The last block of the transfer is exceeded by a fragment, which is stored all the same. */
  predicate Spills(n: nat, len: nat, bs: nat) {
    Span(len, bs) < n < Span(len + 1, bs)
  }

  /** The backend is never asked to trim no blocks, or accepts it. */
  predicate NoEmptyTrim(l: Lun, len: nat, n: nat)
    requires l.bs > 0
  {
    len > 0 || n < l.bs || l.emptyTrimOk
  }

  /** Read, overlay and write back of a partial block replace exactly the bytes of the fragment. */
  lemma FragmentMeans(l: Lun, who: Session, blk: nat, fragment: seq<byte>)
    requires l.bs > 0 && |fragment| < l.bs && l.healthy && !LockedOther(l, who) && Span(blk, l.bs) + l.bs <= |l.disk|
    ensures Span(blk, l.bs) + |fragment| <= |l.disk|
    ensures WriteFragment(l, who, blk, blk, fragment) == (RwOk, l.(disk := Splice(l.disk, Span(blk, l.bs), fragment)))
  {
    hide Span, Write;
    assert Span(1, l.bs) == l.bs;
    var at := Span(blk, l.bs);
    var block := l.disk[at..at + l.bs];
    var whole := Splice(block, 0, fragment);
    assert Read(l, who, blk, 1) == (RwOk, block);
    WriteMeans(l, who, blk, 1, whole);
    assert whole[..Span(1, l.bs)] == whole;
    assert Splice(l.disk, at, whole) == Splice(l.disk, at, fragment);
  }

  /** The blocks that the received data fills, and the fragment after them. */
  lemma WorkSplit(n: nat, len: nat, bs: nat)
    requires bs > 0
    ensures var received, work := n / bs, Min(len, n / bs);
            Span(work, bs) <= n && Span(work, bs) <= Span(len, bs) && (received > 0 && work == 0 ==> n >= bs && len == 0) &&
            if n < Span(len + 1, bs) then work == received && n < Span(work, bs) + bs
            else work == len && n >= Span(work, bs) + bs
  {
    DivisionBounds(n, bs, len + 1);
    DivisionBounds(n, bs, 1);
    SpanGrows(Min(len, n / bs), len, bs);
    SpanAdd(len, 1, bs);
  }

  /**
   `write_verify` stores exactly the bytes it takes, trailing partial block included. The block read for
   merging is the block written back: the two addresses differ only when no fragment is stored.
   */
  lemma ImmediateMeans(l: Lun, who: Session, lba: nat, len: nat, data: seq<byte>)
    requires l.bs > 0 && Usable(l, who, lba, len) && NoEmptyTrim(l, len, |data|)
    requires Spills(|data|, len, l.bs) ==> Usable(l, who, lba, len + 1)
    ensures Span(lba, l.bs) + |Taken(data, len, l.bs)| <= |l.disk|
    ensures WriteImmediate(l, who, lba, len, data) == (RwOk, l.(disk := Splice(l.disk, Span(lba, l.bs), Taken(data, len, l.bs))))
  {
    hide Span, WriteParts, Splice;
    var received, work := |data| / l.bs, Min(len, |data| / l.bs);
    WorkSplit(|data|, len, l.bs);
    if Span(work, l.bs) < |data| < Span(work, l.bs) + l.bs {
      BlockAfterFits(l, lba, len, work, |data|);
    }
    PartsMean(l, who, lba, work, received, data);
  }

  lemma PartsMean(l: Lun, who: Session, lba: nat, work: nat, received: nat, data: seq<byte>)
    requires l.bs > 0 && Usable(l, who, lba, work) && Span(work, l.bs) <= |data|
    requires work == 0 && received > 0 ==> l.emptyTrimOk
    requires received == 0 ==> work == 0
    requires Span(work, l.bs) < |data| < Span(work, l.bs) + l.bs ==> work == received && Span(lba + work, l.bs) + l.bs <= |l.disk|
    ensures var taken := if |data| < Span(work, l.bs) + l.bs then data else data[..Span(work, l.bs)];
            Span(lba, l.bs) + |taken| <= |l.disk| &&
            WriteParts(l, who, lba, work, received, data) == (RwOk, l.(disk := Splice(l.disk, Span(lba, l.bs), taken)))
  {
    hide Span, Write, WriteFragment, Splice;
    var whole, fragment := data[..Span(work, l.bs)], data[Span(work, l.bs)..];
    WholeBlocksMean(l, who, lba, work, received, data);
    var l1 := l.(disk := Splice(l.disk, Span(lba, l.bs), whole));
    if 0 < |fragment| < l.bs {
      SpanAdd(lba, work, l.bs);
      FragmentMeans(l1, who, lba + work, fragment);
      SpliceTwice(l.disk, Span(lba, l.bs), whole, fragment);
      assert whole + fragment == data;
    } else if fragment == [] {
      assert whole == data;
    }
  }

  lemma WholeBlocksMean(l: Lun, who: Session, lba: nat, work: nat, received: nat, data: seq<byte>)
    requires Usable(l, who, lba, work) && Span(work, l.bs) <= |data|
    requires work == 0 && received > 0 ==> l.emptyTrimOk
    requires received == 0 ==> work == 0
    ensures (if received > 0 then Write(l, who, lba, work, data) else (RwOk, l)) ==
            (RwOk, l.(disk := Splice(l.disk, Span(lba, l.bs), data[..Span(work, l.bs)])))
  {
    hide Span, Write, Splice;
    if received > 0 {
      WriteMeans(l, who, lba, work, data);
    } else {
      assert data[..Span(work, l.bs)] == Zeros(0);
      SpliceNothing(l.disk, Span(lba, l.bs));
    }
  }

  lemma BlockAfterFits(l: Lun, lba: nat, len: nat, work: nat, n: nat)
    requires l.bs > 0 && work == Min(len, n / l.bs) && Span(work, l.bs) < n < Span(work, l.bs) + l.bs
    requires Span(lba, l.bs) + Span(len, l.bs) <= |l.disk|
    requires Spills(n, len, l.bs) ==> Span(lba, l.bs) + Span(len + 1, l.bs) <= |l.disk|
    ensures Span(lba + work, l.bs) + l.bs <= |l.disk|
  {
    SpanAdd(lba, work, l.bs);
    SpanAdd(work, 1, l.bs);
    DivisionBounds(n, l.bs, len);
    if work < len { SpanGrows(work + 1, len, l.bs); }
  }

  /** The transfer of an accepted CDB. */
  predicate Accepted(l: Lun, cdb: seq<byte>)
    requires l.Valid() && |cdb| == 16
  {
    ValidateRequest(l, LbaLen(cdb).0, LbaLen(cdb).1, cdb).None? && LbaLen(cdb).1 <= l.Size()
  }

  lemma AcceptedIsUsable(l: Lun, who: Session, cdb: seq<byte>)
    requires l.Valid() && |cdb| == 16 && Accepted(l, cdb) && l.healthy && !LockedOther(l, who)
    ensures Usable(l, who, LbaLen(cdb).0, LbaLen(cdb).1)
  {
    AcceptedIffOnDevice(l, LbaLen(cdb).0, LbaLen(cdb).1);
  }

  /**
   The R2T state takes over a transfer of `total` bytes of which `received` arrived: it continues at a block
   boundary at or before the received length, and what is done and what is left make up the transfer.
   */
  predicate TakesOver(r: R2tSession, lba: uint64, total: nat, received: nat, bs: nat)
    requires bs > 0
  {
    r.bufferLba == lba && !r.isWriteSame && r.bytesLeft > 0 && r.bytesDone + r.bytesLeft == total &&
    r.bytesDone % bs == 0 && r.bytesDone <= received < r.bytesDone + bs
  }

  /**
   A WRITE that brings no more than its transfer: the bytes received are on the disk and nothing else
   changed; the answer is final exactly when the transfer is complete, otherwise an R2T takes over.
   */
  lemma WriteStoresReceived(l: Lun, who: Session, cdb: seq<byte>, data: seq<byte>, lba: uint64, len: uint32)
    requires l.Valid() && Addresses(cdb, lba, len) && Accepted(l, cdb) && l.healthy && !LockedOther(l, who)
    requires |data| <= Span(len, l.bs) < TWO32
    ensures var (response, l') := WriteVerify(l, who, cdb, Some(data));
            Span(lba, l.bs) + |data| <= |l.disk| &&
            l' == l.(disk := Splice(l.disk, Span(lba, l.bs), data)) && response.sense == None &&
            response.expected == Span(len, l.bs) &&
            if |data| == Span(len, l.bs) then response.reaction == EmptySense
            else response.reaction == R2T && TakesOver(response.r2t, lba, Span(len, l.bs), |data|, l.bs) &&
                 response.r2t.fua == BitSet(cdb[1], 3)
  {
    hide Span, WriteImmediate, Splice, TakesOver, WriteResponse, Addresses, LbaLen, ValidateRequest, BitSet;
    AddressRead(cdb, lba, len);
    AcceptedIsUsable(l, who, cdb);
    SpanAdd(len, 1, l.bs);
    assert Taken(data, len, l.bs) == data;
    assert len == 0 ==> |data| == 0;
    ImmediateMeans(l, who, lba, len, data);
    ResponseSplits(l, lba, len, |data|, BitSet(cdb[1], 3));
  }

  /** What the code reads from a CDB is what the CDB holds. */
  lemma AddressRead(cdb: seq<byte>, lba: uint64, len: uint32)
    requires Addresses(cdb, lba, len)
    ensures |cdb| == 16 && LbaLen(cdb) == (lba, len)
  {
    hide LbaLen;
    LbaLenIff(cdb, lba, len);
  }

  /** A WRITE without immediate data changes nothing and asks for the whole transfer. */
  lemma WriteWithoutData(l: Lun, who: Session, cdb: seq<byte>, lba: uint64, len: uint32)
    requires l.Valid() && Addresses(cdb, lba, len) && Accepted(l, cdb) && Span(len, l.bs) < TWO32
    ensures var (response, l') := WriteVerify(l, who, cdb, None);
            l' == l && response.sense == None && response.expected == Span(len, l.bs) &&
            if len == 0 then response.reaction == EmptySense
            else response.reaction == R2T && TakesOver(response.r2t, lba, Span(len, l.bs), 0, l.bs) &&
                 response.r2t.fua == BitSet(cdb[1], 3)
  {
    hide Span, TakesOver, WriteResponse, Addresses, LbaLen, ValidateRequest, BitSet;
    AddressRead(cdb, lba, len);
    ResponseSplits(l, lba, len, 0, BitSet(cdb[1], 3));
    if len > 0 { SpanGrows(1, len, l.bs); }
  }

  lemma ResponseSplits(l: Lun, lba: uint64, len: uint32, received: nat, fua: bool)
    requires l.bs > 0 && received <= Span(len, l.bs) < TWO32
    ensures var response := WriteResponse(l, lba, len, received, fua);
            response.sense == None && response.expected == Span(len, l.bs) &&
            if received == Span(len, l.bs) then response.reaction == EmptySense
            else response.reaction == R2T && response.r2t.fua == fua && TakesOver(response.r2t, lba, Span(len, l.bs), received, l.bs)
  {
    if received < Span(len, l.bs) {
      var blocks, done := received / l.bs, Span(received / l.bs, l.bs);
      DivisionBounds(received, l.bs, len);
      var left := Span(len - blocks, l.bs);
      SpanAdd(blocks, len - blocks, l.bs);
      SpanModulo(blocks, l.bs);
      assert WriteResponse(l, lba, len, received, fua).r2t == R2tSession(lba, left, done, false, false, fua);
    }
  }

  /** The bytes outside the transfer of `len` blocks at `lba`. */
  predicate SameOutside(a: seq<byte>, b: seq<byte>, from: nat, n: nat) {
    |a| == |b| && forall i :: 0 <= i < |a| && !(from <= i < from + n) ==> a[i] == b[i]
  }

  /** A fragment for the block after the end of the device is lost: the block to merge it with cannot be read. */
  lemma FragmentAtEnd(l: Lun, who: Session, lba: nat, len: nat, data: seq<byte>)
    requires l.bs > 0 && Usable(l, who, lba, len)
    requires Spills(|data|, len, l.bs) && Span(lba, l.bs) + Span(len + 1, l.bs) > |l.disk|
    ensures WriteImmediate(l, who, lba, len, data) ==
            (RwFailGeneral, l.(disk := Splice(l.disk, Span(lba, l.bs), data[..Span(len, l.bs)])))
  {
    hide Span, Write, Splice;
    WorkSplit(|data|, len, l.bs);
    DivisionBounds(|data|, l.bs, len);
    SpanAdd(len, 1, l.bs);
    SpanAdd(lba, len, l.bs);
    assert |data| / l.bs == len;
    WholeBlocksMean(l, who, lba, len, len, data);
  }

  /** A WRITE of no blocks that brings a block or more stores nothing. */
  lemma EmptyWriteStores(l: Lun, who: Session, lba: nat, data: seq<byte>)
    requires l.bs > 0 && |data| >= l.bs && Usable(l, who, lba, 0)
    ensures WriteImmediate(l, who, lba, 0, data).1.disk == l.disk
  {
    hide Span;
    DivisionBounds(|data|, l.bs, 1);
    SpliceNothing(l.disk, Span(lba, l.bs));
    assert data[..0] == Zeros(0);
  }

  /** The block after the transfer is on the device. */
  predicate RoomAfter(l: Lun, lba: nat, len: nat) {
    Span(lba, l.bs) + Span(len + 1, l.bs) <= |l.disk|
  }

  /**
   A WRITE leaves everything outside its transfer alone exactly when the immediate data does not end inside the block
   after the transfer, or there is no such block, or it has these bytes already.
   */
  lemma StaysInsideIff(l: Lun, who: Session, cdb: seq<byte>, data: seq<byte>, lba: uint64, len: uint32)
    requires l.Valid() && Addresses(cdb, lba, len) && Accepted(l, cdb) && l.healthy && !LockedOther(l, who)
    ensures var from, end := Span(lba, l.bs), Span(lba, l.bs) + Span(len, l.bs);
            end <= |l.disk| &&
            (SameOutside(l.disk, WriteVerify(l, who, cdb, Some(data)).1.disk, from, Span(len, l.bs))
             <==> !Spills(|data|, len, l.bs) || !RoomAfter(l, lba, len) || data[Span(len, l.bs)..] <= l.disk[end..])
  {
    hide WriteImmediate, Splice, Span, ValidateRequest, LbaLen, Addresses;
    AddressRead(cdb, lba, len);
    AcceptedIsUsable(l, who, cdb);
    if !NoEmptyTrim(l, len, |data|) {
      EmptyWriteStores(l, who, lba, data);
    } else if Spills(|data|, len, l.bs) && !RoomAfter(l, lba, len) {
      FragmentAtEnd(l, who, lba, len, data);
      SpliceOutsideIff(l.disk, Span(lba, l.bs), Span(len, l.bs), data[..Span(len, l.bs)]);
    } else {
      ImmediateMeans(l, who, lba, len, data);
      SpanAdd(len, 1, l.bs);
      SpliceOutsideIff(l.disk, Span(lba, l.bs), Span(len, l.bs), Taken(data, len, l.bs));
    }
  }

  lemma SpliceOutsideIff(s: seq<byte>, from: nat, n: nat, t: seq<byte>)
    requires from + n <= |s| && from + |t| <= |s|
    ensures SameOutside(s, Splice(s, from, t), from, n) <==> |t| <= n || t[n..] <= s[from + n..]
  {
    if |t| > n {
      var after, rest := Splice(s, from, t), s[from + n..];
      if t[n..] <= rest {
        assert forall i :: n <= i < |t| ==> t[i] == t[n..][i - n] == rest[i - n] == s[from + i];
      }
      if SameOutside(s, after, from, n) {
        assert forall i :: 0 <= i < |t[n..]| ==> t[n..][i] == after[from + n + i] == rest[i];
        assert t[n..] == rest[..|t| - n];
      }
    }
  }

  // --- WRITE SAME

  /** `block` `n` times over. */
  function Tiled(block: seq<byte>, n: nat): (r: seq<byte>)
    ensures |r| == Span(n, |block|)
    decreases n
  {
    if n == 0 then [] else
      assert Span(n, |block|) == |block| + Span(n - 1, |block|) by { SpanAdd(1, n - 1, |block|); }
      block + Tiled(block, n - 1)
  }

  /** The block that ends up everywhere: the one received, or zeros. */
  function SameBlock(unmap: bool, data: seq<byte>, bs: nat): (r: seq<byte>)
    requires bs <= |data|
    ensures |r| == bs
  {
    if unmap then Zeros(bs) else data[..bs]
  }

  /** The loop leaves the same block, or zeros, in every place. */
  lemma {:induction false} SameLoopMeans(l: Lun, who: Session, lba: nat, n: nat, unmap: bool, data: seq<byte>)
    requires l.bs > 0 && |data| >= l.bs && Usable(l, who, lba, n)
    ensures var block := SameBlock(unmap, data, l.bs);
            SameLoop(l, who, lba, n, unmap, data) == (RwOk, Filled(l, lba, n, block))
    decreases n
  {
    hide Span, Write, Trim, Splice;
    var block := SameBlock(unmap, data, l.bs);
    if n == 0 {
      assert Tiled(block, 0) == Zeros(0);
      SpliceNothing(l.disk, Span(lba, l.bs));
    } else {
      assert Span(1, l.bs) == l.bs;
      SpanAdd(1, n - 1, l.bs);
      SpanAdd(lba, 1, l.bs);
      if unmap { TrimMeans(l, who, lba, 1); } else { WriteMeans(l, who, lba, 1, data); }
      var l1 := l.(disk := Splice(l.disk, Span(lba, l.bs), block));
      SameLoopMeans(l1, who, lba + 1, n - 1, unmap, data);
      SpliceTwice(l.disk, Span(lba, l.bs), block, Tiled(block, n - 1));
    }
  }

  /** The disk with the `n` blocks from `lba` on all equal to `block`. */
  function Filled(l: Lun, lba: nat, n: nat, block: seq<byte>): (r: Lun)
    requires |block| == l.bs && Span(lba, l.bs) + Span(n, l.bs) <= |l.disk|
  {
    l.(disk := Splice(l.disk, Span(lba, l.bs), Tiled(block, n)))
  }

  /**
   WRITE SAME of an accepted range with one block of data fills the range with it, or with zeros, and changes
   nothing else; a transfer length of zero stands for the blocks up to the end of the device.
   */
  lemma WriteSameFills(l: Lun, who: Session, cdb: seq<byte>, data: seq<byte>, lba: uint64, len: uint32)
    requires l.Valid() && Addresses(cdb, lba, len) && Accepted(l, cdb) && l.healthy && !LockedOther(l, who)
    requires l.bs <= |data| < 2 * l.bs && (len == 0 ==> l.Size() - lba <= MAX_WS_LEN)
    ensures var n := if len == 0 then l.Size() - lba else len as int;
            n >= 0 && Span(lba, l.bs) + Span(n, l.bs) <= |l.disk| &&
            WriteSame(l, who, cdb, Some(data)).1 == Filled(l, lba, n, SameBlock(BitSet(cdb[1], 3), data, l.bs))
    ensures WriteSame(l, who, cdb, Some(data)).0.(r2t := NO_R2T) == Response(EmptySense, None, Span(len, l.bs), NO_R2T)
  {
    hide Span, SameLoop, OneBlock, LbaLen, ValidateRequest, BitSet, Filled, SameBlock, Addresses;
    AddressRead(cdb, lba, len);
    AcceptedIsUsable(l, who, cdb);
    RestFits(l, lba, len);
    SameLoopMeans(l, who, lba, SameCount(l.Size(), lba, len), BitSet(cdb[1], 3), data);
  }

  predicate Success(r: Response) {
    r.reaction == EmptySense && r.sense == None
  }

  /**
   When WRITE SAME is answered with success, and what that means: with a block of data the range is filled; without
   immediate data nothing is stored, although the answer is success unless the length happens to equal the block size.
   */
  lemma SameSuccessIff(l: Lun, who: Session, cdb: seq<byte>, data: Option<seq<byte>>, lba: uint64, len: uint32)
    requires l.Valid() && Addresses(cdb, lba, len) && Accepted(l, cdb) && l.healthy && !LockedOther(l, who)
    ensures var n := if len == 0 then l.Size() - lba else len as int; var (response, l') := WriteSame(l, who, cdb, data);
            n >= 0 && Span(lba, l.bs) + Span(n, l.bs) <= |l.disk| &&
            (Success(response) <==> if data.None? then len != l.bs
                                    else l.bs <= |data.value| < 2 * l.bs && (len == 0 ==> n <= MAX_WS_LEN)) &&
            l' == if Success(response) && data.Some? then Filled(l, lba, n, SameBlock(BitSet(cdb[1], 3), data.value, l.bs)) else l
  {
    hide Span, SameLoop, OneBlock, LbaLen, ValidateRequest, BitSet, Filled, SameBlock, Lun.Size, Addresses;
    AddressRead(cdb, lba, len);
    AcceptedIsUsable(l, who, cdb);
    RestFits(l, lba, len);
    SizeBound(l);
    if data.Some? && l.bs <= |data.value| < 2 * l.bs && (len == 0 ==> l.Size() - lba <= MAX_WS_LEN) {
      WriteSameFills(l, who, cdb, data.value, lba, len);
    }
  }

  lemma RestFits(l: Lun, lba: nat, len: nat)
    requires l.Valid() && Span(lba, l.bs) + Span(len, l.bs) <= |l.disk|
    ensures lba <= l.Size()
    ensures len == 0 ==> Span(lba, l.bs) + Span(l.Size() - lba, l.bs) == |l.disk|
  {
    SizeTimesBlock(l);
    SpanAdd(l.Size(), 1, l.bs);
    if lba > l.Size() {
      SpanGrows(l.Size() + 1, lba, l.bs);
    }
    SpanAdd(lba, l.Size() - lba, l.bs);
  }

  // --- UNMAP

  /** Block `blk` of the disk belongs to one of the extents that are not rejected. */
  predicate Covered(l: Lun, es: seq<Extent>, blk: nat)
    requires l.Valid()
  {
    exists k :: 0 <= k < |es| && Rejected(l, es[k]).None? && es[k].lba <= blk < es[k].lba + es[k].len
  }

  /** The disk after the blocks of all accepted extents have been set to zero. */
  function Unmapped(l: Lun, es: seq<Extent>): (r: seq<byte>)
    requires l.Valid()
    ensures |r| == |l.disk|
    ensures forall i :: 0 <= i < |r| ==> r[i] == if Covered(l, es, i / l.bs) then 0 else l.disk[i]
  {
    seq(|l.disk|, i requires 0 <= i < |l.disk| => if Covered(l, es, i / l.bs) then 0 else l.disk[i])
  }

  predicate SomeRejected(l: Lun, es: seq<Extent>)
    requires l.Valid()
  {
    exists k :: 0 <= k < |es| && Rejected(l, es[k]).Some?
  }

  /** An accepted, non-empty descriptor that ends beyond the device; only one larger than the device can. */
  predicate RunsPast(l: Lun, e: Extent)
    requires l.Valid()
  {
    Rejected(l, e).None? && e.len > 0 && e.lba + e.len > l.Size()
  }

  /** The index of the first such descriptor, at which the loop stops; the length of the list if there is none. */
  function FirstPast(l: Lun, es: seq<Extent>): (k: nat)
    requires l.Valid()
    ensures k <= |es|
    ensures forall i :: 0 <= i < k ==> !RunsPast(l, es[i])
    ensures k < |es| ==> RunsPast(l, es[k])
  {
    if es == [] || RunsPast(l, es[0]) then 0 else 1 + FirstPast(l, es[1..])
  }

  /** No descriptor asks for more blocks than the device has: then none runs past its end. */
  lemma SmallOnesStay(l: Lun, es: seq<Extent>)
    requires l.Valid() && forall k :: 0 <= k < |es| ==> es[k].len <= l.Size()
    ensures FirstPast(l, es) == |es|
  {
    forall k | 0 <= k < |es| ensures !RunsPast(l, es[k]) {
      RangeCheckIff(l.Size(), es[k].lba, es[k].len);
    }
  }

  lemma {:induction false} FirstPastIgnoresContents(l: Lun, l': Lun, es: seq<Extent>)
    requires l.Valid() && SameDevice(l, l')
    ensures FirstPast(l, es) == FirstPast(l', es)
    decreases |es|
  {
    if es != [] { FirstPastIgnoresContents(l, l', es[1..]); }
  }

  lemma RejectedIgnoresContents(l: Lun, l': Lun, e: Extent)
    requires l.Valid() && SameDevice(l, l')
    ensures Rejected(l, e) == Rejected(l', e)
  {}

  lemma BlockInRange(i: nat, bs: nat, lba: nat, n: nat)
    requires bs > 0
    ensures lba <= i / bs < lba + n <==> Span(lba, bs) <= i < Span(lba, bs) + Span(n, bs)
  {
    DivisionBounds(i, bs, lba);
    DivisionBounds(i, bs, lba + n);
    SpanAdd(lba, n, bs);
  }

  lemma CoveredTail(l: Lun, l': Lun, es: seq<Extent>, blk: nat)
    requires l.Valid() && SameDevice(l, l') && es != []
    ensures Covered(l, es, blk) <==>
            Covered(l', es[1..], blk) || (Rejected(l, es[0]).None? && es[0].lba <= blk < es[0].lba + es[0].len)
  {
    forall k | 0 <= k < |es| ensures Rejected(l, es[k]) == Rejected(l', es[k]) {
      RejectedIgnoresContents(l, l', es[k]);
    }
    if Covered(l', es[1..], blk) {
      var k :| 0 <= k < |es[1..]| && Rejected(l', es[1..][k]).None? && es[1..][k].lba <= blk < es[1..][k].lba + es[1..][k].len;
      assert es[k + 1] == es[1..][k];
    }
    if Covered(l, es, blk) {
      var k :| 0 <= k < |es| && Rejected(l, es[k]).None? && es[k].lba <= blk < es[k].lba + es[k].len;
      assert k > 0 ==> es[1..][k - 1] == es[k];
    }
  }

  lemma UnmappedSkips(l: Lun, es: seq<Extent>)
    requires l.Valid() && es != [] && (Rejected(l, es[0]).Some? || es[0].len == 0)
    ensures Unmapped(l, es) == Unmapped(l, es[1..])
  {
    hide Span, Covered, Rejected;
    forall i | 0 <= i < |l.disk| ensures Unmapped(l, es)[i] == Unmapped(l, es[1..])[i] {
      CoveredTail(l, l, es, i / l.bs);
    }
  }

  lemma UnmappedStep(l: Lun, l': Lun, es: seq<Extent>)
    requires l.Valid() && es != [] && Rejected(l, es[0]).None?
    requires Span(es[0].lba, l.bs) + Span(es[0].len, l.bs) <= |l.disk|
    requires l' == l.(disk := Zeroed(l.disk, Span(es[0].lba, l.bs), Span(es[0].len, l.bs)))
    ensures Unmapped(l, es) == Unmapped(l', es[1..])
  {
    hide Span, Covered, Rejected, Splice;
    var e := es[0];
    forall i | 0 <= i < |l.disk| ensures Unmapped(l, es)[i] == Unmapped(l', es[1..])[i] {
      CoveredTail(l, l', es, i / l.bs);
      BlockInRange(i, l.bs, e.lba, e.len);
    }
  }

  lemma RejectedTail(l: Lun, l': Lun, es: seq<Extent>)
    requires l.Valid() && SameDevice(l, l') && es != []
    ensures SomeRejected(l, es) <==> Rejected(l, es[0]).Some? || SomeRejected(l', es[1..])
  {
    forall k | 0 <= k < |es| ensures Rejected(l, es[k]) == Rejected(l', es[k]) {
      RejectedIgnoresContents(l, l', es[k]);
    }
    if SomeRejected(l', es[1..]) {
      var k :| 0 <= k < |es[1..]| && Rejected(l', es[1..][k]).Some?;
      assert es[k + 1] == es[1..][k];
    }
    if SomeRejected(l, es) {
      var k :| 0 <= k < |es| && Rejected(l, es[k]).Some?;
      assert k > 0 ==> es[1..][k - 1] == es[k];
    }
  }

  /** The disk after UNMAP: the accepted descriptors before the first that runs past the end; at level 0, its part on the device too. */
  function UnmapDisk(l: Lun, es: seq<Extent>): (r: seq<byte>)
    requires l.Valid()
    ensures |r| == |l.disk|
  {
    var k := FirstPast(l, es);
    var disk := Unmapped(l, es[..k]);
    if k < |es| then TrimmedPast(l.(disk := disk), es[k].lba) else disk
  }

  /** A trim from `blk` that runs past the end zeroes the rest of the device at level 0 and does nothing otherwise. */
  function TrimmedPast(l: Lun, blk: nat): (r: seq<byte>)
    requires l.Valid()
    ensures |r| == |l.disk|
  {
    if l.trimLevel == 0 && blk < l.Size() then
      TailSpan(l, blk);
      Zeroed(l.disk, Span(blk, l.bs), Span(l.Size() - blk, l.bs))
    else l.disk
  }

  lemma TrimPastEnd(l: Lun, who: Session, blk: nat, n: nat)
    requires l.Valid() && l.healthy && !LockedOther(l, who) && n > 0 && blk + n > l.Size()
    ensures Trim(l, who, blk, n) == (RwFailGeneral, l.(disk := TrimmedPast(l, blk)))
  {
    hide Span, Splice;
    InsideIff(l, blk, n);
    if l.trimLevel == 0 {
      if blk < l.Size() {
        TailSpan(l, blk);
        TrimByWritingRunsOff(l, who, blk, l.Size() - blk, n);
      } else {
        WriteRunsOff(l, who, blk, Zeros(l.bs));
      }
    }
  }

  /** The state of the loop has an answer: success so far, or sense data. */
  predicate Sound(s: UnmapState) {
    s.rc == RwOk || s.sense.Some?
  }

  lemma {:induction false} UnmapLoopMeans(s: UnmapState, who: Session, es: seq<Extent>)
    requires s.lun.Valid() && s.lun.healthy && !LockedOther(s.lun, who) && Sound(s)
    ensures var r, k := UnmapLoop(s, who, es), FirstPast(s.lun, es);
            r.lun == s.lun.(disk := UnmapDisk(s.lun, es)) &&
            (r.sense.Some? <==> s.sense.Some? || SomeRejected(s.lun, es[..k])) &&
            (r.sense == s.sense || r.sense == Some(OutOfRange)) &&
            if k < |es| then r.rc == RwFailGeneral else Sound(r)
    decreases |es|
  {
    hide Trim, Rejected, Unmapped, Splice, SomeRejected, Span, TrimmedPast;
    var l := s.lun;
    if es == [] {
      NothingUnmapped(l);
      assert es[..0] == [];
      NoneRejected(l);
    } else {
      var e, k := es[0], FirstPast(l, es);
      RejectedSense(l, e);
      if RunsPast(l, e) {
        NothingUnmapped(l);
        NoneRejected(l);
        assert es[..0] == [];
        TrimPastEnd(l, who, e.lba, e.len);
      } else {
        var front := es[..k];
        assert front[0] == e && front[1..] == es[1..][..k - 1];
        if Rejected(l, e).Some? {
          RejectedTail(l, l, front);
          UnmappedSkips(l, front);
          UnmapLoopMeans(UnmapState(RwFailGeneral, Rejected(l, e), l), who, es[1..]);
        } else if e.len == 0 {
          RejectedTail(l, l, front);
          UnmappedSkips(l, front);
          UnmapLoopMeans(s, who, es[1..]);
        } else {
          InsideIff(l, e.lba, e.len);
          TrimMeans(l, who, e.lba, e.len);
          var l' := l.(disk := Zeroed(l.disk, Span(e.lba, l.bs), Span(e.len, l.bs)));
          RejectedTail(l, l', front);
          UnmappedStep(l, l', front);
          FirstPastIgnoresContents(l, l', es[1..]);
          UnmapLoopMeans(UnmapState(RwOk, s.sense, l'), who, es[1..]);
        }
      }
    }
  }

  lemma RejectedSense(l: Lun, e: Extent)
    requires l.Valid()
    ensures Rejected(l, e) == None || Rejected(l, e) == Some(OutOfRange)
  {}

  /** A descriptor is rejected exactly when the range check fails or it asks for more than 8192 blocks. */
  lemma RejectedIff(l: Lun, e: Extent)
    requires l.Valid()
    ensures Rejected(l, e) == if RangeOk(l.Size(), e.lba, e.len) && e.len <= 8192 then None else Some(OutOfRange)
  {
    hide RangeOk;
  }

  lemma NoneRejected(l: Lun)
    requires l.Valid()
    ensures !SomeRejected(l, [])
  {}

  lemma NothingUnmapped(l: Lun)
    requires l.Valid()
    ensures Unmapped(l, []) == l.disk
  {}

  /** Level 0 zeroes the blocks up to the end of the device before it fails. */
  lemma {:induction false} TrimByWritingRunsOff(l: Lun, who: Session, blk: nat, m: nat, n: nat)
    requires l.bs > 0 && l.healthy && !LockedOther(l, who) && Span(blk, l.bs) + Span(m, l.bs) == |l.disk| && m < n
    ensures TrimByWriting(l, who, blk, n) == (RwFailGeneral, l.(disk := Zeroed(l.disk, Span(blk, l.bs), Span(m, l.bs))))
    decreases m
  {
    hide Write, Splice, Span;
    var zeros := Zeros(l.bs);
    assert zeros[..l.bs] == zeros;
    if m == 0 {
      WriteRunsOff(l, who, blk, zeros);
      SpliceNothing(l.disk, Span(blk, l.bs));
    } else {
      SpanAdd(1, m - 1, l.bs);
      SpanAdd(blk, 1, l.bs);
      WriteMeans(l, who, blk, 1, zeros);
      var l1, rest := l.(disk := Splice(l.disk, Span(blk, l.bs), zeros)), Span(m - 1, l.bs);
      TrimByWritingRunsOff(l1, who, blk + 1, m - 1, n - 1);
      SpliceTwice(l.disk, Span(blk, l.bs), zeros, Zeros(rest));
      ZerosSplit(l.bs, rest);
    }
  }

  lemma WriteRunsOff(l: Lun, who: Session, blk: nat, data: seq<byte>)
    requires l.bs > 0 && !LockedOther(l, who) && |data| == l.bs && Span(blk, l.bs) >= |l.disk|
    ensures Write(l, who, blk, 1, data) == (RwFailGeneral, l)
  {
    hide Span;
  }

  lemma TailSpan(l: Lun, blk: nat)
    requires l.Valid() && blk <= l.Size()
    ensures Span(blk, l.bs) + Span(l.Size() - blk, l.bs) == |l.disk|
  {
    SizeTimesBlock(l);
    SpanAdd(blk, l.Size() - blk, l.bs);
  }

  lemma InsideIff(l: Lun, blk: nat, n: nat)
    requires l.Valid()
    ensures Span(blk, l.bs) + Span(n, l.bs) <= |l.disk| <==> blk + n <= l.Size()
    ensures blk >= l.Size() ==> Span(blk, l.bs) >= |l.disk|
  {
    SizeTimesBlock(l);
    SpanAdd(blk, n, l.bs);
    SpanAdd(l.Size(), 1, l.bs);
    if blk + n <= l.Size() { SpanGrows(blk + n, l.Size(), l.bs); } else { SpanGrows(l.Size() + 1, blk + n, l.bs); }
    if blk >= l.Size() { SpanGrows(l.Size(), blk, l.bs); }
  }

  /** Whether the initiator is sent a SCSI response, and whether it carries sense data (iscsi-pdu.cpp). */
  predicate Answered(r: Response) {
    r.sense.Some? || r.reaction == EmptySense
  }

  /**
   UNMAP zeroes exactly the union of the accepted descriptors' ranges, up to the first descriptor that runs past the
   end of the device. It is always answered: with OutOfRange if some descriptor up to there was rejected, wherever it stands,
   otherwise with a write error if one runs past the end, otherwise with success.
   */
  lemma UnmapZeroesAccepted(l: Lun, who: Session, data: seq<byte>, es: seq<Extent>)
    requires l.Valid() && Lists(data, es) && l.healthy && !LockedOther(l, who)
    ensures DescriptorsComplete(data, 8)
    ensures var k := FirstPast(l, es); var (response, l') := Unmap(l, who, data);
            l' == l.(disk := UnmapDisk(l, es)) && (k == |es| ==> l'.disk == Unmapped(l, es)) &&
            Answered(response) &&
            response.sense == if SomeRejected(l, es[..k]) then Some(OutOfRange) else if k < |es| then Some(WriteError) else None
  {
    hide UnmapLoop, Unmapped, Rejected, FirstPast, SomeRejected, TrimmedPast, Lists;
    ListsIff(data, es);
    assert es[..|es|] == es;
    UnmapLoopMeans(UnmapState(RwOk, None, l), who, es);
  }

  // --- COMPARE AND WRITE

  /** The block is replaced exactly when it equals the first half of the data; otherwise nothing changes. */
  lemma CompareAndWriteMeans(l: Lun, who: Session, cdb: seq<byte>, data: seq<byte>, lba: uint64)
    requires l.Valid() && |cdb| == 16 && Compares(cdb, lba, 1) && CompareDataPresent(l, cdb, data)
    requires ValidateRequest(l, lba, 1, cdb).None? && l.Size() > 0
    requires l.healthy && !LockedOther(l, who)
    ensures var at: nat := Span(lba, l.bs); var (response, l') := CompareAndWrite(l, who, cdb, data);
            at + l.bs <= |l.disk| && 2 * l.bs <= |data| &&
            if l.disk[at..at + l.bs] == data[..l.bs]
            then response.sense == None && Answered(response) && l' == l.(disk := Splice(l.disk, at, data[l.bs..2 * l.bs]))
            else response.sense == Some(Miscompare) && l' == l
  {
    hide Span, Splice, Be64, ValidateRequest, Compares, CmpWrite, Lun.Size, Lun.Valid;
    ComparesIff(cdb, lba, 1);
    BlockOnDevice(l, lba, cdb);
    assert Span(1, l.bs) == l.bs;
    CmpWriteMeans(l, who, lba, data);
  }

  lemma CmpWriteMeans(l: Lun, who: Session, lba: nat, data: seq<byte>)
    requires l.healthy && !LockedOther(l, who) && Span(lba, l.bs) + l.bs <= |l.disk| && 2 * l.bs <= |data|
    ensures Span(1, l.bs) == l.bs
    ensures CmpWrite(l, who, lba, 1, data[Span(1, l.bs)..], data) ==
            if l.disk[Span(lba, l.bs)..Span(lba, l.bs) + l.bs] == data[..l.bs]
            then (RwOk, l.(disk := Splice(l.disk, Span(lba, l.bs), data[l.bs..2 * l.bs]))) else (RwFailMismatch, l)
  {
    hide Span, Splice;
    assert Span(1, l.bs) == l.bs;
    assert data[l.bs..][..l.bs] == data[l.bs..2 * l.bs];
  }

  lemma BlockOnDevice(l: Lun, lba: uint64, cdb: seq<byte>)
    requires l.Valid() && l.Size() > 0 && |cdb| == 16 && ValidateRequest(l, lba, 1, cdb).None?
    ensures Span(lba, l.bs) + l.bs <= |l.disk|
  {
    hide Span, RangeOk, Lun.Size;
    AcceptedIffOnDevice(l, lba, 1);
    assert Span(1, l.bs) == l.bs;
  }

  /** Any change by COMPARE AND WRITE is the replacement of a block that matched, and is reported as success. */
  lemma CompareChanges(l: Lun, who: Session, cdb: seq<byte>, data: seq<byte>, lba: uint64)
    requires l.Valid() && |cdb| == 16 && Compares(cdb, lba, cdb[13]) && CompareDataPresent(l, cdb, data)
    ensures var at: nat := Span(lba, l.bs); var (response, l') := CompareAndWrite(l, who, cdb, data);
            l'.disk != l.disk ==>
              at + l.bs <= |l.disk| && 2 * l.bs <= |data| && l.disk[at..at + l.bs] == data[..l.bs] &&
              l'.disk == Splice(l.disk, at, data[l.bs..2 * l.bs]) && response.sense == None
  {
    hide Splice, ValidateRequest, Span, Be64, BigEndian;
    var count := cdb[13];
    ComparesIff(cdb, lba, count);
    if ValidateRequest(l, lba, count, cdb).None? && count == 1 {
      assert data[l.bs..][..l.bs] == data[l.bs..2 * l.bs];
    } else if ValidateRequest(l, lba, count, cdb).None? && count == 0 {
      NothingStored(l, lba, data);
    }
  }

  /** More than one block is refused; no block compares equal to nothing, stores nothing and succeeds. */
  lemma CompareOtherCounts(l: Lun, who: Session, cdb: seq<byte>, data: seq<byte>, lba: uint64, count: nat)
    requires l.Valid() && count != 1 && Compares(cdb, lba, count) && CompareDataPresent(l, cdb, data)
    requires ValidateRequest(l, lba, cdb[13], cdb).None? && l.healthy && !LockedOther(l, who)
    ensures var (response, l') := CompareAndWrite(l, who, cdb, data);
            l' == l && Answered(response) &&
            if count > 1 then response.sense == Some(CompareAndWriteCount)
            else response.sense == if Span(lba, l.bs) <= |l.disk| then None else Some(WriteError)
  {
    hide Splice, ValidateRequest, Span, Be64, BigEndian;
    ComparesIff(cdb, lba, count);
    if count == 0 { NothingStored(l, lba, data); }
  }

  lemma NothingStored(l: Lun, blk: nat, data: seq<byte>)
    ensures BackendWrite(l, blk, data[..0]).1 == l
  {
    if Span(blk, l.bs) <= |l.disk| {
      assert data[..0] == Zeros(0);
      SpliceNothing(l.disk, Span(blk, l.bs));
    }
  }

  // --- the addresses that an accepted command uses

  lemma AcceptedOnDevice(l: Lun, cdb: seq<byte>)
    requires l.Valid() && |cdb| == 16 && Accepted(l, cdb)
    ensures Span(LbaLen(cdb).0, l.bs) + Span(LbaLen(cdb).1, l.bs) <= |l.disk|
  {
    hide LbaLen;
    AcceptedIffOnDevice(l, LbaLen(cdb).0, LbaLen(cdb).1);
  }

  lemma BlockInside(lba: nat, n: nat, i: nat, bs: nat, size: nat)
    requires i < n && Span(lba, bs) + Span(n, bs) <= size
    ensures Span(lba + i, bs) + bs <= size
  {
    hide Span;
    SpanAdd(lba, i, bs);
    SpanAdd(i, 1, bs);
    SpanGrows(i + 1, n, bs);
  }

  /** Immediate data within the transfer: whole blocks and the block of the fragment are on the device. */
  lemma PartsInside(l: Lun, lba: nat, len: nat, n: nat)
    requires l.bs > 0 && Span(lba, l.bs) + Span(len, l.bs) <= |l.disk| && n <= Span(len, l.bs)
    ensures var received, work := WholeBlocks(n, l.bs), Min(len, WholeBlocks(n, l.bs));
            Span(work, l.bs) <= n && Span(lba, l.bs) + Span(work, l.bs) <= |l.disk| &&
            (Span(work, l.bs) < n < Span(work, l.bs) + l.bs ==> work == received && Span(lba + work, l.bs) + l.bs <= |l.disk|)
  {
    hide Span;
    WorkSplit(n, len, l.bs);
    var work := Min(len, n / l.bs);
    if Span(work, l.bs) < n < Span(work, l.bs) + l.bs {
      BlockAfterFits(l, lba, len, work, n);
    }
  }

  /** A WRITE within its transfer stores the bytes it brings, whatever the transfer's size. */
  lemma VerifyStores(l: Lun, who: Session, cdb: seq<byte>, data: seq<byte>)
    requires l.Valid() && |cdb| == 16 && Accepted(l, cdb) && l.healthy && !LockedOther(l, who)
    requires |data| <= Span(LbaLen(cdb).1, l.bs)
    ensures Span(LbaLen(cdb).0, l.bs) + |data| <= |l.disk|
    ensures WriteVerify(l, who, cdb, Some(data)).1.disk == Splice(l.disk, Span(LbaLen(cdb).0, l.bs), data)
  {
    hide Span, WriteImmediate, Splice, WriteResponse, LbaLen, ValidateRequest;
    var (lba, len) := LbaLen(cdb);
    AcceptedIsUsable(l, who, cdb);
    SpanAdd(len, 1, l.bs);
    ImmediateMeans(l, who, lba, len, data);
  }
}

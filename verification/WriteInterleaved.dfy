/**
 Several WRITE transfers at once: Data-Out PDUs of different tasks arrive in any order. Each transfer ends as if
 the other tasks did not exist, as long as those write elsewhere.
 */
module WriteInterleaved {
  import opened Bytes
  import opened Lun
  import opened ScsiCommands
  import opened DataOut
  import R = DataOutRuns
  import W = WriteTransfer

  /** The PDUs of iSCSI task `tag`. */
  function Own(ps: seq<Pdu>, tag: uint32): (r: seq<Pdu>)
    decreases |ps|
  {
    if ps == [] then [] else (if Names(ps[0], tag) then [ps[0]] else []) + Own(ps[1..], tag)
  }

  /** The replies to the PDUs of iSCSI task `tag`. */
  function OwnReplies(ps: seq<Pdu>, replies: seq<Reply>, tag: uint32): (r: seq<Reply>)
    requires |ps| == |replies|
    decreases |ps|
  {
    if ps == [] then [] else (if Names(ps[0], tag) then [replies[0]] else []) + OwnReplies(ps[1..], replies[1..], tag)
  }

  /** The bytes from `lo` to `hi` are the same on both disks. */
  predicate SameBetween(a: seq<byte>, b: seq<byte>, lo: nat, hi: nat) {
    |a| == |b| && lo <= hi <= |a| && a[lo..hi] == b[lo..hi]
  }

  /** Two targets that look the same to iSCSI task `tag` with its bytes from `lo` to `hi`. */
  predicate Alike(a: Target, b: Target, tag: uint32, lo: nat, hi: nat) {
    SameDevice(a.lun, b.lun) && SameBetween(a.lun.disk, b.lun.disk, lo, hi) &&
    (tag in a.tasks <==> tag in b.tasks) && (tag in a.tasks ==> a.tasks[tag] == b.tasks[tag])
  }

  /** In this run every PDU of another task leaves the bytes from `lo` to `hi` alone. */
  predicate OthersStayAway(t: Target, who: Session, tag: uint32, ps: seq<Pdu>, lo: nat, hi: nat)
    requires t.lun.bs > 0
    decreases |ps|
  {
    ps != [] ==>
      var t1 := Push(t, who, ps[0]).1;
      (!Names(ps[0], tag) ==> SameBetween(t.lun.disk, t1.lun.disk, lo, hi)) && OthersStayAway(t1, who, tag, ps[1..], lo, hi)
  }

  /** A piece of another transfer stays away when its place on the disk is outside. */
  lemma PieceStaysAway(t: Target, who: Session, other: uint32, p: Pdu, total: nat, lo: nat, hi: nat)
    requires R.Storable(t, who, other, p, total) && lo <= hi <= |t.lun.disk|
    requires var at := Span(t.tasks[other].bufferLba, t.lun.bs) + p.offset; hi <= at || at + |p.data| <= lo
    ensures SameBetween(t.lun.disk, Push(t, who, p).1.lun.disk, lo, hi)
  {
    hide Push, Span;
    R.PushMeans(t, who, other, p, total);
  }

  lemma OwnStep(a: Target, b: Target, who: Session, tag: uint32, p: Pdu, total: nat, lo: nat, hi: nat)
    requires Alike(a, b, tag, lo, hi) && R.Storable(b, who, tag, p, total) && !SyncTrips(b.lun, who, b.tasks[tag])
    requires lo == Span(b.tasks[tag].bufferLba, b.lun.bs) && hi == lo + total
    ensures Push(a, who, p).0 == Push(b, who, p).0
    ensures Alike(Push(a, who, p).1, Push(b, who, p).1, tag, lo, hi)
  {
    hide Push, Span, Splice, U32;
    R.PushMeans(a, who, tag, p, total);
    R.PushMeans(b, who, tag, p, total);
    SameAfterSplice(a.lun.disk, b.lun.disk, lo, hi, lo + p.offset, p.data);
  }

  lemma SameAfterSplice(a: seq<byte>, b: seq<byte>, lo: nat, hi: nat, at: nat, data: seq<byte>)
    requires SameBetween(a, b, lo, hi) && lo <= at && at + |data| <= hi
    ensures SameBetween(Splice(a, at, data), Splice(b, at, data), lo, hi)
  {
    forall i | lo <= i < hi ensures a[i] == b[i] {
      assert a[lo..hi][i - lo] == b[lo..hi][i - lo];
    }
  }

  lemma OtherStep(a: Target, b: Target, who: Session, tag: uint32, p: Pdu, lo: nat, hi: nat)
    requires a.lun.bs > 0 && Alike(a, b, tag, lo, hi) && !Names(p, tag)
    requires SameBetween(a.lun.disk, Push(a, who, p).1.lun.disk, lo, hi)
    ensures Alike(Push(a, who, p).1, b, tag, lo, hi)
  {
    hide Push;
    W.OtherTasksStay(a, who, p, tag);
  }

  /** The mixed run `ps` on `a` looks to iSCSI task `tag` like the run of its own PDUs on `b`. */
  lemma {:induction false} OthersUnseen(a: Target, b: Target, who: Session, tag: uint32, ps: seq<Pdu>, buffer: seq<byte>,
                                        from: nat, lo: nat, hi: nat)
    requires a.lun.bs > 0 && Alike(a, b, tag, lo, hi) && OthersStayAway(a, who, tag, ps, lo, hi)
    requires Own(ps, tag) != [] ==> R.Transfer(b, who, tag, Own(ps, tag), buffer, from) &&
                                    lo == Span(b.tasks[tag].bufferLba, b.lun.bs) && hi == lo + |buffer|
    ensures Alike(PushAll(a, who, ps).1, PushAll(b, who, Own(ps, tag)).1, tag, lo, hi)
    ensures OwnReplies(ps, PushAll(a, who, ps).0, tag) == PushAll(b, who, Own(ps, tag)).0
    decreases |ps|
  {
    hide Push, Alike, SameBetween, R.Transfer, Span;
    if ps != [] {
      var p, rest := ps[0], ps[1..];
      var (reply, a1) := Push(a, who, p);
      var replies := PushAll(a, who, ps).0;
      assert replies[1..] == PushAll(a1, who, rest).0;
      DeviceOf(a, b, tag, lo, hi);
      if Names(p, tag) {
        var own := Own(ps, tag);
        assert own[1..] == Own(rest, tag) && own[0] == p;
        OwnFirst(a, b, who, tag, own, buffer, from, lo, hi);
        OthersUnseen(a1, Push(b, who, p).1, who, tag, rest, buffer, from, lo, hi);
      } else {
        assert Own(ps, tag) == Own(rest, tag);
        OtherStep(a, b, who, tag, p, lo, hi);
        OthersUnseen(a1, b, who, tag, rest, buffer, from, lo, hi);
      }
    }
  }

  lemma DeviceOf(a: Target, b: Target, tag: uint32, lo: nat, hi: nat)
    requires Alike(a, b, tag, lo, hi)
    ensures a.lun.bs == b.lun.bs
  {}

  lemma OwnFirst(a: Target, b: Target, who: Session, tag: uint32, own: seq<Pdu>, buffer: seq<byte>, from: nat, lo: nat, hi: nat)
    requires Alike(a, b, tag, lo, hi) && own != [] && R.Transfer(b, who, tag, own, buffer, from)
    requires lo == Span(b.tasks[tag].bufferLba, b.lun.bs) && hi == lo + |buffer|
    ensures Push(a, who, own[0]).0 == Push(b, who, own[0]).0
    ensures Alike(Push(a, who, own[0]).1, Push(b, who, own[0]).1, tag, lo, hi)
    ensures |own| > 1 ==> var b1 := Push(b, who, own[0]).1;
                          R.Transfer(b1, who, tag, own[1..], buffer, from) && lo == Span(b1.tasks[tag].bufferLba, b1.lun.bs)
  {
    hide Push, Span, Alike;
    R.FirstPiece(b, who, tag, own, buffer, from);
    assert R.Piece(own[0], tag, buffer, from, b.lun.bs);
    OwnStep(a, b, who, tag, own[0], |buffer|, lo, hi);
  }

  /**
   Interleaved transfers: while the others write elsewhere, the session of a task ends exactly when all its missing
   bytes have been sent; its replies are those it would get alone, and its range of the disk then holds its buffer.
   */
  lemma ArrivesAmongOthers(t: Target, who: Session, tag: uint32, ps: seq<Pdu>, buffer: seq<byte>, lo: nat, hi: nat)
    requires var own := Own(ps, tag); W.Waiting(t, who, tag, own, buffer) && R.PairwiseApart(own)
    requires lo == Span(t.tasks[tag].bufferLba, t.lun.bs) && hi == lo + |buffer| && OthersStayAway(t, who, tag, ps, lo, hi)
    ensures var own, done := Own(ps, tag), t.tasks[tag].bytesDone; var (replies, t') := PushAll(t, who, ps);
            OwnReplies(ps, replies, tag) == PushAll(t, who, own).0 &&
            (tag !in t'.tasks <==> R.CoversAll(own, done, |buffer|)) &&
            (tag in t'.tasks ==> t'.tasks[tag].bytesDone + t'.tasks[tag].bytesLeft == |buffer|) &&
            |t'.lun.disk| == |t.lun.disk| && hi <= |t.lun.disk| && done <= |buffer| &&
            (tag !in t'.tasks ==> t'.lun.disk[lo + done..hi] == buffer[done..])
  {
    hide PushAll, Span, Splice, R.Pieces, R.PairwiseApart, R.CoversAll, OthersStayAway, OwnReplies, Own;
    var own, done := Own(ps, tag), t.tasks[tag].bytesDone;
    W.EndsIffAllSent(t, who, tag, own, buffer);
    R.ApartIsCompleteIffCovering(own, tag, buffer, done, t.lun.bs);
    OthersUnseen(t, t, who, tag, ps, buffer, done, lo, hi);
    var alone, mixed := PushAll(t, who, own).1, PushAll(t, who, ps).1;
    if tag !in mixed.tasks {
      TailOf(mixed.lun.disk, alone.lun.disk, t.lun.disk, lo, hi, done, buffer);
    }
  }

  lemma TailOf(a: seq<byte>, b: seq<byte>, s: seq<byte>, lo: nat, hi: nat, done: nat, buffer: seq<byte>)
    requires SameBetween(a, b, lo, hi) && hi == lo + |buffer| <= |s| && done <= |buffer|
    requires b == Splice(s, lo + done, buffer[done..])
    ensures a[lo + done..hi] == buffer[done..]
  {
    forall i | done <= i < |buffer| ensures a[lo + i] == buffer[i] {
      assert a[lo..hi][i] == b[lo..hi][i];
    }
  }
}

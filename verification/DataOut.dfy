/**
 The Data-Out side of a WRITE: the table of R2T sessions of `session.cpp` and the Data-Out branch of
 `server::push_response`, from the command's immediate data to the removal of the R2T session.
 */
module DataOut {
  import opened Bytes
  import opened Lun
  import opened ScsiCommands
  import I = DataIn

  const NO_TAG: uint32 := 0xffff_ffff

  datatype Pdu = Pdu(itt: uint32, ttt: uint32, offset: uint32, data: seq<byte>, final: bool)

  datatype FailReason = Fine | BadField | IoError

  /** A SCSI response with its sense data, status and residual, or an R2T. */
  datatype Out =
    | ScsiResponse(sense: Option<Sense>, status: byte, residual: Option<I.Residual>)
    | ReadyToTransfer(offset: uint32, length: uint32)

  const STATUS_GOOD: byte := 0x00
  const STATUS_CHECK_CONDITION: byte := 0x02
  const STATUS_RESERVATION_CONFLICT: byte := 0x18

  const GOOD: Out := ScsiResponse(None, STATUS_GOOD, None)

  datatype Reply = Reply(fail: FailReason, out: seq<Out>)

  datatype Target = Target(lun: Lun, tasks: map<uint32, R2tSession>)

  /** Unsolicited data is filed under the initiator's task tag. */
  function TagOf(p: Pdu): (r: uint32) {
    if p.ttt == NO_TAG then p.itt else p.ttt
  }

  /** The PDU names task `tag`: by its transfer tag or, being unsolicited, by the initiator's task tag. */
  predicate Names(p: Pdu, tag: uint32) {
    (p.ttt == tag && tag != NO_TAG) || (p.ttt == NO_TAG && p.itt == tag)
  }

  /** Every PDU names one task, under whose tag it is filed. */
  lemma FiledUnderName(p: Pdu, tag: uint32)
    ensures TagOf(p) == tag <==> Names(p, tag)
  {}

  /** The disk access for the data of one PDU. */
  function Store(l: Lun, who: Session, s: R2tSession, p: Pdu): (r: (RwResult, Lun))
    requires l.bs > 0 && |p.data| >= l.bs
    ensures SameDevice(l, r.1)
  {
    var lba: nat := U64(s.bufferLba + WholeBlocks(p.offset, l.bs));
    if s.isWriteSame then
      var n := WholeBlocks(s.bytesLeft, l.bs);
      if s.writeSameIsUnmap then Trim(l, who, s.bufferLba, n) else SameLoop(l, who, lba, n, false, p.data)
    else
      Write(l, who, lba, WholeBlocks(|p.data|, l.bs), p.data)
  }

  /** The answer to a PDU with the F bit: always a SCSI response, and an R2T too when bytes are missing. */
  function Finish(t: Target, tag: uint32, s: R2tSession, final: bool): (r: (Reply, Target)) {
    if !final then (Reply(Fine, []), t)
    else if s.bytesLeft == 0 then (Reply(Fine, [GOOD]), t.(tasks := t.tasks - {tag}))
    else (Reply(Fine, [GOOD, ReadyToTransfer(s.bytesDone, s.bytesLeft)]), t)
  }

  /** With FUA the status of a sync is compared with `false`, which the value for success equals. */
  predicate SyncTrips(l: Lun, who: Session, s: R2tSession) {
    s.fua && Sync(l, who) == RwOk
  }

  /** The counters after `n` more bytes, in 32 bits. */
  function Count(s: R2tSession, n: nat): (r: R2tSession) {
    s.(bytesDone := U32(s.bytesDone + n), bytesLeft := U32(s.bytesLeft - n))
  }

  /** The Data-Out branch of `push_response`. */
  function Push(t: Target, who: Session, p: Pdu): (r: (Reply, Target))
    requires t.lun.bs > 0
    ensures SameDevice(t.lun, r.1.lun)
  {
    var tag := TagOf(p);
    if tag !in t.tasks then (Reply(BadField, []), t)
    else
      var s := t.tasks[tag];
      if |p.data| == 0 then
        if p.final then Finish(t, tag, s, true) else (Reply(BadField, []), t)
      else if p.offset % t.lun.bs != 0 || |p.data| % t.lun.bs != 0 then (Reply(BadField, []), t)
      else
        assert |p.data| >= t.lun.bs;
        var (rc, l) := Store(t.lun, who, s, p);
        if rc != RwOk then (Reply(IoError, []), t.(lun := l))
        else if SyncTrips(l, who, s) then (Reply(IoError, []), t.(lun := l))
        else
          var s' := Count(s, |p.data|);
          Finish(Target(l, t.tasks[tag := s']), tag, s', p.final)
  }

  function PushAll(t: Target, who: Session, ps: seq<Pdu>): (r: (seq<Reply>, Target))
    requires t.lun.bs > 0
    ensures |r.0| == |ps| && SameDevice(t.lun, r.1.lun)
    decreases |ps|
  {
    if ps == [] then ([], t)
    else
      var (reply, t1) := Push(t, who, ps[0]);
      var (replies, t2) := PushAll(t1, who, ps[1..]);
      ([reply] + replies, t2)
  }

  /** `init_r2t_session`: an entry that is already there stays. */
  function Register(tasks: map<uint32, R2tSession>, tag: uint32, s: R2tSession): (r: map<uint32, R2tSession>) {
    if tag in tasks then tasks else tasks[tag := s]
  }

  /** The status that goes with the sense data (iscsi-pdu.cpp). */
  function StatusOf(sense: Option<Sense>): (r: byte) {
    match sense
    case None => STATUS_GOOD
    case Some(ReservationConflict) => STATUS_RESERVATION_CONFLICT
    case Some(_) => STATUS_CHECK_CONDITION
  }

  /** What is announced to an initiator whose length is not that of the command; the difference in 32 bits. */
  function Difference(expected: nat, announced: uint32): (r: I.Residual) {
    if expected < announced then I.Underflow(announced - expected) else I.Overflow(U32(expected - announced))
  }

  /**
   `get_response`: from the response of `scsi::send` to what is sent and to the R2T session. `announced` is the length
   that the initiator expects, `random` a fresh tag.
   */
  function Respond(t: Target, itt: uint32, announced: uint32, random: uint32, response: Response): (r: (seq<Out>, Target))
    ensures r.1.lun == t.lun
  {
    if response.reaction != R2T then
      (if response.sense.Some? || response.reaction == EmptySense
       then [ScsiResponse(response.sense, StatusOf(response.sense), None)] else [], t)
    else if response.expected != announced then
      ([ScsiResponse(None, STATUS_GOOD, Some(Difference(response.expected, announced)))], t)
    else
      ([ReadyToTransfer(response.r2t.bytesDone, response.r2t.bytesLeft)],
       t.(tasks := Register(t.tasks, if itt != NO_TAG then itt else random, response.r2t)))
  }

  /** A WRITE command with its immediate data, if any. */
  function WriteCommand(t: Target, who: Session, itt: uint32, announced: uint32, random: uint32,
                        cdb: seq<byte>, data: Option<seq<byte>>): (r: (seq<Out>, Target))
    requires t.lun.Valid() && |cdb| == 16
    ensures SameDevice(t.lun, r.1.lun)
  {
    var (response, l) := WriteVerify(t.lun, who, cdb, data);
    Respond(t.(lun := l), itt, announced, random, response)
  }
}

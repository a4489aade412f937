/**
 The PDUs of a WRITE on the wire: what `iscsi-pdu.h` takes from the headers of commands and of Data-Out PDUs, and the headers and
 sense data of the R2Ts and SCSI responses that `iscsi-pdu.cpp` makes. A reader and a writer by section 11 of RFC 7143 are at
 the other end. Task tags are only copied and compared, so that they are numbers here, whatever their byte order.
 */
module PduHeaders {
  import opened Bytes
  import opened DataInFraming
  import F = Framing
  import C = ScsiCommands
  import I = DataIn
  import O = DataOut
  import L = Lun
  import R = DataOutRuns
  import W = WriteTransfer
  import T = TrimLevels
  import V = ReservedCommands

  const SCSI_COMMAND: byte := 0x01
  const DATA_OUT: byte := 0x05
  const SCSI_RESPONSE: byte := 0x21
  const READY_TO_TRANSFER: byte := 0x31

  /** The data segment length, in three bytes behind the one for the AHS length. */
  function Lengths(n: nat): (r: seq<byte>) {
    [0, n / 0x1_0000 % 256, n / 256 % 256, n % 256]
  }

  /** A header of four bytes, the lengths, LUN, task tag and seven fields. */
  function Assemble(first: seq<byte>, n: nat, lun: seq<byte>, itt: seq<byte>, v: seq<uint32>): (r: seq<byte>)
    requires |first| == 4 && |lun| == 8 && |itt| == 4 && |v| == 7
    ensures |r| == F.HEADER_SIZE
  {
    first + Lengths(n) + lun + itt + Be(v[0]) + Be(v[1]) + Be(v[2]) + Be(v[3]) + Be(v[4]) + Be(v[5]) + Be(v[6])
  }

  /** `lun`, `itt` and the field at 20, 24, .. 44 are where they were put. */
  lemma AssembledReadsBack(first: seq<byte>, n: nat, lun: seq<byte>, itt: seq<byte>, v: seq<uint32>)
    requires |first| == 4 && |lun| == 8 && |itt| == 4 && |v| == 7
    ensures var h := Assemble(first, n, lun, itt, v);
            h[..4] == first && h[4] == 0 && F.DataLength(h) == n % MAX_ANNOUNCED && h[8..16] == lun && h[16..20] == itt &&
            C.Be32(h, 20) == v[0] && C.Be32(h, 24) == v[1] && C.Be32(h, 28) == v[2] && C.Be32(h, 32) == v[3] &&
            C.Be32(h, 36) == v[4] && C.Be32(h, 40) == v[5] && C.Be32(h, 44) == v[6]
  {
    hide C.Be32, Be;
    var h := Assemble(first, n, lun, itt, v);
    var b0, b1, b2, b3 := Be(v[0]), Be(v[1]), Be(v[2]), Be(v[3]);
    var b4, b5, b6 := Be(v[4]), Be(v[5]), Be(v[6]);
    var s := first + Lengths(n) + lun + itt;
    assert h[5] == n / 0x1_0000 % 256 && h[6] == n / 256 % 256 && h[7] == n % 256;
    ThreeBytes(n);
    assert h == s + b0 + (b1 + b2 + b3 + b4 + b5 + b6);
    assert h == (s + b0) + b1 + (b2 + b3 + b4 + b5 + b6);
    assert h == (s + b0 + b1) + b2 + (b3 + b4 + b5 + b6);
    assert h == (s + b0 + b1 + b2) + b3 + (b4 + b5 + b6);
    assert h == (s + b0 + b1 + b2 + b3) + b4 + (b5 + b6);
    assert h == (s + b0 + b1 + b2 + b3 + b4) + b5 + b6;
    assert h == (s + b0 + b1 + b2 + b3 + b4 + b5) + b6 + [];
    FieldAt(h, s, v[0], b1 + b2 + b3 + b4 + b5 + b6);
    FieldAt(h, s + b0, v[1], b2 + b3 + b4 + b5 + b6);
    FieldAt(h, s + b0 + b1, v[2], b3 + b4 + b5 + b6);
    FieldAt(h, s + b0 + b1 + b2, v[3], b4 + b5 + b6);
    FieldAt(h, s + b0 + b1 + b2 + b3, v[4], b5 + b6);
    FieldAt(h, s + b0 + b1 + b2 + b3 + b4, v[5], b6);
    FieldAt(h, s + b0 + b1 + b2 + b3 + b4 + b5, v[6], []);
  }

  // --- from the target

  function R2tHeader(c: Command, ttt: uint32, offset: uint32, length: uint32): (r: seq<byte>)
    requires c.Valid()
    ensures |r| == F.HEADER_SIZE
  {
    Assemble([READY_TO_TRANSFER, 128, 0, 0], 0, c.lun, c.itt,
             [ttt, c.expStatSn, U32(c.cmdSn + 1), U32(c.cmdSn + MAX_MSG_DEPTH), 0, offset, length])
  }

  /** The byte vectors of `error_out_of_range` and the others. */
  function SenseBytes(sense: C.Sense): (r: seq<byte>)
    ensures |r| == 18
  {
    match sense
    case OutOfRange =>
      [0x70, 0x00, 0x05, 0x00, 0x00, 0x00, 0x00, 0x0a, 0x00, 0x00, 0x00, 0x00, 0x21, 0x00, 0x00, 0x00, 0x00, 0x00]
    case InvalidField =>
      [0x70, 0x00, 0x05, 0x00, 0x00, 0x00, 0x00, 0x0a, 0x00, 0x00, 0x00, 0x00, 0x24, 0x00, 0x00, 0x00, 0x00, 0x00]
    case ReservationConflict =>
      [0x70, 0x00, 0x06, 0x00, 0x00, 0x00, 0x00, 0x0a, 0x00, 0x00, 0x00, 0x00, 0x29, 0x00, 0x00, 0x00, 0x00, 0x00]
    case WriteError =>
      [0x70, 0x00, 0x03, 0x00, 0x00, 0x00, 0x00, 0x0a, 0x00, 0x00, 0x00, 0x00, 0x03, 0x00, 0x00, 0x00, 0x00, 0x00]
    case Miscompare =>
      [0x70, 0x00, 0x0e, 0x00, 0x00, 0x00, 0x00, 0x0a, 0x00, 0x00, 0x00, 0x00, 0x1d, 0x00, 0x00, 0x00, 0x00, 0x00]
    case CompareAndWriteCount =>
      [0x70, 0x00, 0x05, 0x00, 0x00, 0x00, 0x00, 0x0a, 0x00, 0x00, 0x00, 0x00, 0x24, 0x00, 0x00, 0x00, 0x00, 0x00]
  }

  /** The data segment of a response: the sense data behind its length. */
  function SenseSegment(sense: Option<C.Sense>): (r: seq<byte>)
    ensures |r| == if sense.None? then 0 else 20
  {
    if sense.None? then [] else [0, 18] + SenseBytes(sense.value)
  }

  /** `iscsi_pdu_scsi_response::set`; with sense data the response is "target failure". */
  function ResponseHeader(c: Command, sense: Option<C.Sense>, status: byte, residual: Option<I.Residual>): (r: seq<byte>)
    requires c.Valid()
    ensures |r| == F.HEADER_SIZE
  {
    var flags := 128 + match residual { case None => 0 case Some(Underflow(_)) => 2 case Some(Overflow(_)) => 4 };
    Assemble([SCSI_RESPONSE, flags, if sense.Some? then 0x01 else 0x00, status], |SenseSegment(sense)|, Repeat(0, 8), c.itt,
             [0, c.expStatSn, U32(c.cmdSn + 1), U32(c.cmdSn + MAX_MSG_DEPTH), 0, 0, if residual.Some? then residual.value.count else 0])
  }

  /** What is sent for the command `c` whose R2T session has this tag. */
  function PduOf(c: Command, tag: uint32, out: O.Out): (r: F.Pdu)
    requires c.Valid()
  {
    match out
    case ScsiResponse(sense, status, residual) => F.Pdu(ResponseHeader(c, sense, status, residual), SenseSegment(sense))
    case ReadyToTransfer(offset, length) => F.Pdu(R2tHeader(c, tag, offset, length), [])
  }

  // --- read by the standard

  datatype SenseData = SenseData(key: byte, asc: byte, ascq: byte)

  /** What an initiator is told; `completed` is the response "Command Completed at Target". */
  datatype Told =
    | Answered(completed: bool, status: byte, residual: Option<I.Residual>, sense: Option<SenseData>)
    | Wanted(ttt: uint32, offset: uint32, length: uint32)
    | Other

  /** Fixed-format sense data behind its length (section 11.4.7 of RFC 7143). */
  function ReadSense(data: seq<byte>): (r: Option<SenseData>) {
    if |data| < 16 || data[0] != 0 || (data[1] as int) + 2 > |data| || data[1] < 14 || data[2] % 128 != 0x70 then None
    else Some(SenseData(data[4] % 16, data[14], data[15]))
  }

  function ResidualIn(h: seq<byte>): (r: Option<I.Residual>)
    requires |h| == F.HEADER_SIZE
  {
    if h[1] / 2 % 2 == 1 then Some(I.Underflow(C.Be32(h, 44)))
    else if h[1] / 4 % 2 == 1 then Some(I.Overflow(C.Be32(h, 44)))
    else None
  }

  /** Sections 11.4 and 11.8 of RFC 7143. */
  function ReadTold(p: F.Pdu): (r: Told)
    requires |p.header| == F.HEADER_SIZE
  {
    var h := p.header;
    if h[0] % 64 == 0x21 then Answered(h[2] == 0x00, h[3], ResidualIn(h), ReadSense(p.data))
    else if h[0] % 64 == 0x31 then Wanted(C.Be32(h, 20), C.Be32(h, 40), C.Be32(h, 44))
    else Other
  }

  /** Task tag, StatSN, ExpCmdSN and MaxCmdSN, which both kinds have at the same place. */
  function ReadNumbers(h: seq<byte>): (r: (seq<byte>, uint32, uint32, uint32))
    requires |h| == F.HEADER_SIZE
  {
    (h[16..20], C.Be32(h, 24), C.Be32(h, 28), C.Be32(h, 32))
  }

  /** The status, which counts only in the response "Command Completed at Target" (section 11.4.2 of RFC 7143). */
  function StatusSeen(p: F.Pdu): (r: Option<byte>)
    requires |p.header| == F.HEADER_SIZE
  {
    match ReadTold(p)
    case Answered(completed, status, _, _) => if completed then Some(status) else None
    case _ => None
  }

  /** Sense key and additional sense code by the assignments of SPC-4: an illegal request, a medium error, a miscompare. */
  function Codes(sense: C.Sense): (r: (byte, byte)) {
    match sense
    case OutOfRange => (5, 0x21)             // LOGICAL BLOCK ADDRESS OUT OF RANGE
    case InvalidField => (5, 0x24)           // INVALID FIELD IN CDB
    case CompareAndWriteCount => (5, 0x24)
    case ReservationConflict => (6, 0x29)    // a unit attention
    case WriteError => (3, 0x03)             // PERIPHERAL DEVICE WRITE FAULT
    case Miscompare => (14, 0x1d)            // MISCOMPARE DURING VERIFY OPERATION
  }

  /** What the initiator should be told. */
  function Meant(tag: uint32, out: O.Out): (r: Told) {
    match out
    case ScsiResponse(sense, status, residual) =>
      Answered(sense.None?, status, residual, if sense.None? then None else Some(SenseData(Codes(sense.value).0, Codes(sense.value).1, 0)))
    case ReadyToTransfer(offset, length) => Wanted(tag, offset, length)
  }

  lemma R2tReadsBack(c: Command, tag: uint32, offset: uint32, length: uint32)
    requires c.Valid()
    ensures var p := F.Pdu(R2tHeader(c, tag, offset, length), []);
            F.Describes(p.header, p.data) && ReadTold(p) == Wanted(tag, offset, length) &&
            ReadNumbers(p.header) == (c.itt, c.expStatSn, U32(c.cmdSn + 1), U32(c.cmdSn + 128))
  {
    hide Assemble, C.Be32, Be, F.DataLength, U32;
    AssembledReadsBack([READY_TO_TRANSFER, 128, 0, 0], 0, c.lun, c.itt,
                       [tag, c.expStatSn, U32(c.cmdSn + 1), U32(c.cmdSn + MAX_MSG_DEPTH), 0, offset, length]);
    var h := R2tHeader(c, tag, offset, length);
    assert h[0] == h[..4][0];
  }

  lemma ResponseReadsBack(c: Command, sense: Option<C.Sense>, status: byte, residual: Option<I.Residual>)
    requires c.Valid()
    ensures var p := F.Pdu(ResponseHeader(c, sense, status, residual), SenseSegment(sense));
            F.Describes(p.header, p.data) && ReadTold(p) == Meant(0, O.ScsiResponse(sense, status, residual)) &&
            ReadNumbers(p.header) == (c.itt, c.expStatSn, U32(c.cmdSn + 1), U32(c.cmdSn + 128))
  {
    hide Assemble, C.Be32, Be, F.DataLength, U32, SenseSegment, ReadSense, Codes;
    var flags := 128 + match residual { case None => 0 case Some(Underflow(_)) => 2 case Some(Overflow(_)) => 4 };
    var count: uint32 := if residual.Some? then residual.value.count else 0;
    var response: byte := if sense.Some? then 0x01 else 0x00;
    AssembledReadsBack([SCSI_RESPONSE, flags, response, status], |SenseSegment(sense)|, Repeat(0, 8), c.itt,
                       [0, c.expStatSn, U32(c.cmdSn + 1), U32(c.cmdSn + MAX_MSG_DEPTH), 0, 0, count]);
    var h := ResponseHeader(c, sense, status, residual);
    assert h[0] == h[..4][0] && h[1] == h[..4][1] && h[2] == h[..4][2] && h[3] == h[..4][3];
    SenseReadsBack(sense);
  }

  lemma SenseReadsBack(sense: Option<C.Sense>)
    ensures ReadSense(SenseSegment(sense)) ==
            if sense.None? then None else Some(SenseData(Codes(sense.value).0, Codes(sense.value).1, 0))
  {}

  /** Everything in an answer comes back from its bytes, and the numbers that tie it to its command. */
  lemma AnswerReadsBack(c: Command, tag: uint32, out: O.Out)
    requires c.Valid()
    ensures var p := PduOf(c, tag, out);
            F.Describes(p.header, p.data) && ReadTold(p) == Meant(tag, out) &&
            ReadNumbers(p.header) == (c.itt, c.expStatSn, U32(c.cmdSn + 1), U32(c.cmdSn + 128))
  {
    hide R2tHeader, ResponseHeader, ReadTold, ReadNumbers, F.Describes, U32;
    match out
    case ReadyToTransfer(offset, length) => R2tReadsBack(c, tag, offset, length);
    case ScsiResponse(sense, status, residual) => ResponseReadsBack(c, sense, status, residual);
  }

  /**
   An initiator that follows the standard sees the status of a response exactly when there is no sense data: CHECK CONDITION
   and RESERVATION CONFLICT are sent with the response "target failure", where the status does not count.
   */
  lemma StatusSeenIff(c: Command, tag: uint32, sense: Option<C.Sense>, status: byte, residual: Option<I.Residual>)
    requires c.Valid()
    ensures StatusSeen(PduOf(c, tag, O.ScsiResponse(sense, status, residual))) == if sense.None? then Some(status) else None
  {
    hide ReadTold, PduOf;
    AnswerReadsBack(c, tag, O.ScsiResponse(sense, status, residual));
  }

  /**
   A command that meets the reservation of another session: the status RESERVATION CONFLICT is in its response, but for an
   initiator that follows the standard it does not count. What counts is "target failure", with UNIT ATTENTION as sense key.
   */
  lemma ConflictOnTheWire(t: O.Target, r: T.Request, c: Command, announced: uint32, random: uint32)
    requires c.Valid() && t.lun.Valid() && T.Complete(t.lun, r.command) && L.LockedOther(t.lun, r.who) && V.Reaches(t.lun, r.command)
    ensures var itt := C.Be32(c.itt, 0); var (response, l) := T.Execute(t.lun, r);
            var out := O.Respond(t.(lun := l), itt, announced, random, response).0;
            |out| == 1 && ReadTold(PduOf(c, itt, out[0])) == Answered(false, 0x18, None, Some(SenseData(0x06, 0x29, 0x00))) &&
            StatusSeen(PduOf(c, itt, out[0])) == None
  {
    hide T.Execute, T.Complete, V.Reaches, ReadTold, PduOf, O.Respond, C.Be32;
    var itt := C.Be32(c.itt, 0);
    V.ReservedIsAnswered(t, r, itt, announced, random);
    AnswerReadsBack(c, itt, O.ScsiResponse(Some(C.ReservationConflict), 0x18, None));
    StatusSeenIff(c, itt, Some(C.ReservationConflict), 0x18, None);
  }

  // --- from the initiator

  /** Section 11.3 of RFC 7143. */
  function CommandPdu(c: Command, flags: byte, expected: uint32, cdb: seq<byte>, data: seq<byte>): (r: F.Pdu)
    requires c.Valid() && |cdb| == 16
    ensures |r.header| == F.HEADER_SIZE
  {
    F.Pdu([SCSI_COMMAND, flags, 0, 0] + Lengths(|data|) + c.lun + c.itt + Be(expected) + Be(c.cmdSn) + Be(c.expStatSn) + cdb, data)
  }

  /** The getters of `iscsi_pdu_scsi_cmd`. */
  function CommandOf(h: seq<byte>): (r: Command)
    requires |h| == F.HEADER_SIZE
    ensures r.Valid()
  {
    Command(h[8..16], h[16..20], C.Be32(h, 24), C.Be32(h, 28))
  }

  function ExpectedOf(h: seq<byte>): (r: uint32)
    requires |h| == F.HEADER_SIZE
  {
    C.Be32(h, 20)
  }

  function CdbOf(h: seq<byte>): (r: seq<byte>)
    requires |h| == F.HEADER_SIZE
    ensures |r| == 16
  {
    h[32..]
  }

  /** A command comes back from its PDU. */
  lemma CommandReadsBack(c: Command, flags: byte, expected: uint32, cdb: seq<byte>, data: seq<byte>)
    requires c.Valid() && |cdb| == 16 && |data| < MAX_ANNOUNCED
    ensures var p := CommandPdu(c, flags, expected, cdb, data);
            F.Describes(p.header, p.data) && F.Opcode(p.header) == 1 &&
            CommandOf(p.header) == c && ExpectedOf(p.header) == expected && CdbOf(p.header) == cdb
  {
    hide C.Be32, Be;
    var h, n := CommandPdu(c, flags, expected, cdb, data).header, |data|;
    var s := [SCSI_COMMAND, flags, 0, 0] + Lengths(n) + c.lun + c.itt;
    var b0, b1, b2 := Be(expected), Be(c.cmdSn), Be(c.expStatSn);
    assert h[5] == n / 0x1_0000 % 256 && h[6] == n / 256 % 256 && h[7] == n % 256;
    ThreeBytes(n);
    assert h == s + b0 + (b1 + b2 + cdb);
    assert h == (s + b0) + b1 + (b2 + cdb);
    assert h == (s + b0 + b1) + b2 + cdb;
    FieldAt(h, s, expected, b1 + b2 + cdb);
    FieldAt(h, s + b0, c.cmdSn, b2 + cdb);
    FieldAt(h, s + b0 + b1, c.expStatSn, cdb);
    assert h[8..16] == c.lun && h[16..20] == c.itt && h[32..] == cdb;
  }

  /** Section 11.7 of RFC 7143. */
  function DataOutPdu(lun: seq<byte>, expStatSn: uint32, dataSn: uint32, p: O.Pdu): (r: F.Pdu)
    requires |lun| == 8
    ensures |r.header| == F.HEADER_SIZE
  {
    F.Pdu(Assemble([DATA_OUT, if p.final then 128 else 0, 0, 0], |p.data|, lun, Be(p.itt),
                   [p.ttt, 0, expStatSn, 0, dataSn, p.offset, 0]), p.data)
  }

  /** The getters of `iscsi_pdu_scsi_data_out`. */
  function DataOutOf(p: F.Pdu): (r: O.Pdu)
    requires |p.header| == F.HEADER_SIZE
  {
    var h := p.header;
    O.Pdu(C.Be32(h, 16), C.Be32(h, 20), C.Be32(h, 40), p.data, h[1] / 128 == 1)
  }

  /** A Data-Out PDU comes back from its bytes. */
  lemma DataOutReadsBack(lun: seq<byte>, expStatSn: uint32, dataSn: uint32, p: O.Pdu)
    requires |lun| == 8 && |p.data| < MAX_ANNOUNCED
    ensures var q := DataOutPdu(lun, expStatSn, dataSn, p);
            F.Describes(q.header, q.data) && F.Opcode(q.header) == 5 && DataOutOf(q) == p
  {
    hide Assemble, C.Be32, Be, F.DataLength;
    var first := [DATA_OUT, if p.final then 128 else 0, 0, 0];
    var v := [p.ttt, 0, expStatSn, 0, dataSn, p.offset, 0];
    AssembledReadsBack(first, |p.data|, lun, Be(p.itt), v);
    var h := Assemble(first, |p.data|, lun, Be(p.itt), v);
    assert h[0] == h[..4][0] && h[1] == h[..4][1];
    TagReadsBack(h, p.itt);
  }

  lemma TagReadsBack(h: seq<byte>, v: uint32)
    requires |h| == F.HEADER_SIZE && h[16..20] == Be(v)
    ensures C.Be32(h, 16) == v
  {
    hide C.Be32, Be;
    assert h == h[..16] + Be(v) + h[20..];
    FieldAt(h, h[..16], v, h[20..]);
  }

  // --- a whole WRITE on the wire

  function SentPdus(lun: seq<byte>, expStatSn: uint32, dataSn: nat, ps: seq<O.Pdu>): (r: seq<F.Pdu>)
    requires |lun| == 8
    ensures |r| == |ps|
    decreases |ps|
  {
    if ps == [] then [] else [DataOutPdu(lun, expStatSn, U32(dataSn), ps[0])] + SentPdus(lun, expStatSn, dataSn + 1, ps[1..])
  }

  function DataOuts(ps: seq<F.Pdu>): (r: seq<O.Pdu>)
    requires forall k :: 0 <= k < |ps| ==> |ps[k].header| == F.HEADER_SIZE
    ensures |r| == |ps|
  {
    if ps == [] then [] else [DataOutOf(ps[0])] + DataOuts(ps[1..])
  }

  lemma {:induction false} SentReadBack(lun: seq<byte>, expStatSn: uint32, dataSn: nat, ps: seq<O.Pdu>)
    requires |lun| == 8 && forall k :: 0 <= k < |ps| ==> |ps[k].data| < MAX_ANNOUNCED
    ensures var sent := SentPdus(lun, expStatSn, dataSn, ps);
            (forall k :: 0 <= k < |sent| ==> F.Plain(sent[k])) && DataOuts(sent) == ps
    decreases |ps|
  {
    hide DataOutOf, F.DataLength;
    if ps != [] {
      DataOutReadsBack(lun, expStatSn, U32(dataSn), ps[0]);
      SentReadBack(lun, expStatSn, dataSn + 1, ps[1..]);
      var sent, rest := SentPdus(lun, expStatSn, dataSn, ps), SentPdus(lun, expStatSn, dataSn + 1, ps[1..]);
      assert sent[1..] == rest;
      assert forall k :: 0 < k < |sent| ==> sent[k] == rest[k - 1];
      assert ps == [ps[0]] + ps[1..];
    }
  }

  /** What the server makes of a command PDU for a WRITE. */
  function ServeCommand(t: O.Target, who: L.Session, random: uint32, p: F.Pdu): (r: (seq<O.Out>, O.Target))
    requires t.lun.Valid() && |p.header| == F.HEADER_SIZE
  {
    O.WriteCommand(t, who, C.Be32(p.header, 16), ExpectedOf(p.header), random, CdbOf(p.header), if p.data == [] then None else Some(p.data))
  }

  /** The bytes of the command and of the Data-Out PDUs for it. */
  function WireOf(cfg: F.Settings, command: F.Pdu, sent: seq<F.Pdu>): (r: seq<byte>)
    requires F.Plain(command) && forall k :: 0 <= k < |sent| ==> F.Plain(sent[k])
  {
    F.EncodeAll(cfg, [command] + sent)
  }

  /** The command and pieces of its data fit their PDUs. */
  predicate FitsWire(sent: nat, ps: seq<O.Pdu>) {
    sent < MAX_ANNOUNCED && forall k :: 0 <= k < |ps| ==> |ps[k].data| < MAX_ANNOUNCED
  }

  /** One answer, which asks the initiator of `c` for the rest of `total` bytes under its task tag. */
  predicate AsksForRest(c: Command, out: seq<O.Out>, done: nat, total: uint32)
    requires c.Valid() && done <= total
  {
    var itt := C.Be32(c.itt, 0);
    |out| == 1 && ReadTold(PduOf(c, itt, out[0])) == Wanted(itt, done, total - done) && ReadNumbers(PduOf(c, itt, out[0]).header).0 == c.itt
  }

  /** One answer, from which the initiator of `c` learns that the command has succeeded. */
  predicate TellsSuccess(c: Command, out: seq<O.Out>)
    requires c.Valid()
  {
    |out| == 1 && var last := PduOf(c, C.Be32(c.itt, 0), out[0]);
    ReadTold(last) == Answered(true, 0, None, None) && StatusSeen(last) == Some(0) && ReadNumbers(last.header).0 == c.itt
  }

  /** The command with its immediate data. */
  function FirstPdu(c: Command, flags: byte, cdb: seq<byte>, sent: nat, buffer: seq<byte>): (r: F.Pdu)
    requires c.Valid() && |cdb| == 16 && sent <= |buffer| < TWO32
    ensures |r.header| == F.HEADER_SIZE
  {
    CommandPdu(c, flags, |buffer|, cdb, buffer[..sent])
  }

  lemma StartsBounds(t: O.Target, who: L.Session, itt: uint32, cdb: seq<byte>, lba: uint64, len: uint32, sent: nat, buffer: seq<byte>)
    requires W.Starts(t, who, itt, cdb, lba, len, sent, buffer)
    ensures t.lun.Valid() && |cdb| == 16 && sent < |buffer| < TWO32
  {
    hide L.Span;
  }

  /** The receiver takes the command and the Data-Out PDUs from the wire as they were sent. */
  predicate Transmitted(c: Command, command: F.Pdu, ps: seq<O.Pdu>, cfg: F.Settings, check: bool)
    requires c.Valid()
  {
    var outs := SentPdus(c.lun, c.expStatSn, 0, ps);
    F.Plain(command) && (forall k :: 0 <= k < |outs| ==> F.Plain(outs[k])) &&
    F.DecodeMany(cfg, check, WireOf(cfg, command, outs), 1 + |ps|) == ([command] + outs, []) &&
    CommandOf(command.header) == c && DataOuts(outs) == ps
  }

  lemma TakenFromTheWire(c: Command, flags: byte, cdb: seq<byte>, sent: nat, buffer: seq<byte>, ps: seq<O.Pdu>, cfg: F.Settings, check: bool)
    requires c.Valid() && |cdb| == 16 && sent <= |buffer| < TWO32 && FitsWire(sent, ps)
    ensures Transmitted(c, FirstPdu(c, flags, cdb, sent, buffer), ps, cfg, check)
  {
    hide C.Be32, F.EncodeAll, F.DecodeMany, F.DataLength, CommandOf, ExpectedOf, CdbOf, CommandPdu, SentPdus, DataOuts;
    CommandReadsBack(c, flags, |buffer|, cdb, buffer[..sent]);
    SentReadBack(c.lun, c.expStatSn, 0, ps);
    var all := [FirstPdu(c, flags, cdb, sent, buffer)] + SentPdus(c.lun, c.expStatSn, 0, ps);
    assert forall k :: 0 <= k < |all| ==> F.Plain(all[k]);
    F.StreamRoundTrip(cfg, check, all);
  }

  /** The command as it is served, and the R2T for it as it is read. */
  lemma CommandOnTheWire(t: O.Target, who: L.Session, c: Command, flags: byte, random: uint32, cdb: seq<byte>, lba: uint64, len: uint32,
                         sent: nat, buffer: seq<byte>)
    requires c.Valid() && |cdb| == 16 && sent < MAX_ANNOUNCED && sent <= |buffer| < TWO32
    requires W.Starts(t, who, C.Be32(c.itt, 0), cdb, lba, len, sent, buffer)
    ensures var itt := C.Be32(c.itt, 0); var (out, t1) := ServeCommand(t, who, random, FirstPdu(c, flags, cdb, sent, buffer));
            (out, t1) == O.WriteCommand(t, who, itt, |buffer|, random, cdb, W.Immediate(buffer, sent)) &&
            itt in t1.tasks && t1.tasks[itt].bytesDone <= |buffer| && AsksForRest(c, out, t1.tasks[itt].bytesDone, |buffer|)
  {
    hide O.WriteCommand, R.Ready, L.Span, Splice, C.Be32, F.DataLength, PduOf, ReadTold, CommandOf, ExpectedOf, CdbOf, ReadNumbers,
         CommandPdu, W.Trips, Assemble;
    var itt := C.Be32(c.itt, 0);
    CommandReadsBack(c, flags, |buffer|, cdb, buffer[..sent]);
    TagOfCommand(c, flags, |buffer|, cdb, buffer[..sent]);
    W.CommandWaits(t, who, itt, random, cdb, lba, len, sent, buffer);
    var out := O.WriteCommand(t, who, itt, |buffer|, random, cdb, W.Immediate(buffer, sent)).0;
    AnswerReadsBack(c, itt, out[0]);
  }

  lemma SuccessIsTold(c: Command)
    requires c.Valid()
    ensures TellsSuccess(c, [O.GOOD])
  {
    hide C.Be32, PduOf, ReadTold, ReadNumbers;
    AnswerReadsBack(c, C.Be32(c.itt, 0), O.GOOD);
    StatusSeenIff(c, C.Be32(c.itt, 0), None, 0, None);
  }

  /**
   From bytes to bytes: the receiver takes the command and the pieces from the wire as they were sent. The R2T tells the
   initiator under which tag, from where on and how much is missing; after pieces that cover it, under that tag, the disk
   holds the buffer, and the last answer tells of success. Both answers name the task of the command.
   */
  lemma WriteOverTheWire(t: O.Target, who: L.Session, c: Command, flags: byte, random: uint32, cdb: seq<byte>, lba: uint64, len: uint32,
                         sent: nat, buffer: seq<byte>, ps: seq<O.Pdu>, cfg: F.Settings, check: bool)
    requires c.Valid() && |cdb| == 16 && sent <= |buffer| < TWO32 && FitsWire(sent, ps) && ps != [] && ps[|ps| - 1].final
    requires W.Starts(t, who, C.Be32(c.itt, 0), cdb, lba, len, sent, buffer)
    requires var itt := C.Be32(c.itt, 0); var t1 := ServeCommand(t, who, random, FirstPdu(c, flags, cdb, sent, buffer)).1;
             itt in t1.tasks && R.Pieces(ps, itt, buffer, t1.tasks[itt].bytesDone, t.lun.bs) &&
             R.PairwiseApart(ps) && R.CoversAll(ps, t1.tasks[itt].bytesDone, |buffer|)
    ensures Transmitted(c, FirstPdu(c, flags, cdb, sent, buffer), ps, cfg, check)
    ensures var (out, t1) := ServeCommand(t, who, random, FirstPdu(c, flags, cdb, sent, buffer));
            var (replies, t2) := O.PushAll(t1, who, ps); var base := L.Span(lba, t.lun.bs); var s := t1.tasks[C.Be32(c.itt, 0)];
            s.bytesDone <= |buffer| && AsksForRest(c, out, s.bytesDone, |buffer|) &&
            base + |buffer| <= |t.lun.disk| && t2 == O.Target(t.lun.(disk := Splice(t.lun.disk, base, buffer)), t.tasks) &&
            TellsSuccess(c, replies[|ps| - 1].out)
  {
    hide O.WriteCommand, O.PushAll, R.Pieces, R.PairwiseApart, R.CoversAll, W.Starts, L.Span, Splice, C.Be32, ServeCommand, FirstPdu,
         AsksForRest, TellsSuccess, Transmitted, FitsWire;
    var itt := C.Be32(c.itt, 0);
    FitsCommand(sent, ps);
    TakenFromTheWire(c, flags, cdb, sent, buffer, ps, cfg, check);
    CommandOnTheWire(t, who, c, flags, random, cdb, lba, len, sent, buffer);
    W.WriteArrives(t, who, itt, random, cdb, lba, len, sent, buffer, ps);
    SuccessIsTold(c);
  }

  lemma FitsCommand(sent: nat, ps: seq<O.Pdu>)
    requires FitsWire(sent, ps)
    ensures sent < MAX_ANNOUNCED
  {}

  lemma TagOfCommand(c: Command, flags: byte, expected: uint32, cdb: seq<byte>, data: seq<byte>)
    requires c.Valid() && |cdb| == 16
    ensures var p := CommandPdu(c, flags, expected, cdb, data); p.data == data && C.Be32(p.header, 16) == C.Be32(c.itt, 0)
  {
    var h := CommandPdu(c, flags, expected, cdb, data).header;
    hide Be;
    assert h[16..20] == c.itt;
    assert h[16] == c.itt[0] && h[17] == c.itt[1] && h[18] == c.itt[2] && h[19] == c.itt[3];
  }
}

/**
 The commands of `scsi.cpp` that change the disk: WRITE, WRITE SAME, UNMAP and COMPARE AND WRITE,
 from the CDB and the immediate data to the response, with 32- and 64-bit arithmetic as in the code.
 */
module ScsiCommands {
  import opened Bytes
  import opened Lun

  const MAX_WS_LEN: nat := 256
  const MAX_UNMAP_BLOCKS: nat := 8192
  const MAX_CAW_BLOCKS: nat := 1

  const O_WRITE_6: byte := 0x0A
  const O_WRITE_10: byte := 0x2A
  const O_WRITE_VERIFY_10: byte := 0x2E
  const O_WRITE_12: byte := 0xAA
  const O_WRITE_16: byte := 0x8A
  const O_READ_6: byte := 0x08
  const O_READ_10: byte := 0x28
  const O_READ_12: byte := 0xA8
  const O_READ_16: byte := 0x88
  const O_WRITE_SAME_10: byte := 0x41
  const O_WRITE_SAME_16: byte := 0x93

  datatype Sense = OutOfRange | InvalidField | ReservationConflict | WriteError | Miscompare | CompareAndWriteCount

  datatype Reaction = AsIs | EmptySense | R2T

  datatype R2tSession = R2tSession(bufferLba: uint64, bytesLeft: uint32, bytesDone: uint32,
                                   isWriteSame: bool, writeSameIsUnmap: bool, fua: bool)

  datatype Response = Response(reaction: Reaction, sense: Option<Sense>, expected: nat, r2t: R2tSession)

  const NO_R2T: R2tSession := R2tSession(0, 0, 0, false, false, false)

  // --- big-endian fields

  function Be16(b: seq<byte>, at: nat): (r: uint32)
    requires at + 2 <= |b|
  {
    (b[at] as int) * 256 + b[at + 1]
  }

  function Be32(b: seq<byte>, at: nat): (r: uint32)
    requires at + 4 <= |b|
  {
    (Be16(b, at) as int) * 65536 + Be16(b, at + 2)
  }

  function Be64(b: seq<byte>, at: nat): (r: uint64)
    requires at + 8 <= |b|
  {
    (Be32(b, at) as int) * 0x1_0000_0000 + Be32(b, at + 4)
  }

  predicate BitSet(b: byte, k: nat) {
    (b / (if k == 3 then 8 else if k == 4 then 16 else 32)) % 2 == 1
  }

  /** `get_lba_len` for the CDB size that goes with the opcode. */
  function LbaLen(cdb: seq<byte>): (r: (uint64, uint32))
    requires |cdb| == 16
  {
    if cdb[0] == O_WRITE_6 || cdb[0] == O_READ_6 then
      ((cdb[1] % 32) * 65536 + Be16(cdb, 2), if cdb[4] == 0 then 256 else cdb[4])
    else if cdb[0] == O_WRITE_12 || cdb[0] == O_READ_12 then (Be32(cdb, 2), Be32(cdb, 6))
    else if cdb[0] == O_WRITE_16 || cdb[0] == O_READ_16 || cdb[0] == O_WRITE_SAME_16 then (Be64(cdb, 2), Be32(cdb, 10))
    else (Be32(cdb, 2), Be16(cdb, 7))
  }

  // --- validate_request

  /** The two range checks, in 64-bit arithmetic. */
  predicate RangeOk(size: uint64, lba: uint64, n: uint32) {
    lba <= U64(size - n) && U64(lba + n) >= lba
  }

  function ValidateRange(l: Lun, lba: uint64, n: uint32): Option<Sense>
    requires l.Valid()
  {
    if RangeOk(l.Size(), lba, n) then None else Some(OutOfRange)
  }

  function ValidateCdb(cdb: seq<byte>, n: uint32): Option<Sense>
    requires |cdb| == 16
  {
    var opcode, same := cdb[0], cdb[0] == O_WRITE_SAME_10 || cdb[0] == O_WRITE_SAME_16;
    if (opcode == O_READ_10 || opcode == O_READ_16) && cdb[1] / 32 != 0 then Some(InvalidField)
    else if same && BitSet(cdb[1], 4) && !BitSet(cdb[1], 3) then Some(InvalidField)
    else if same && n > MAX_WS_LEN then Some(InvalidField)
    else if (opcode == O_WRITE_10 || opcode == O_WRITE_16 || opcode == O_WRITE_VERIFY_10 || same) && cdb[1] / 32 != 0
    then Some(InvalidField)
    else None
  }

  function ValidateRequest(l: Lun, lba: uint64, n: uint32, cdb: seq<byte>): Option<Sense>
    requires l.Valid() && |cdb| == 16
  {
    var range := ValidateRange(l, lba, n);
    if range.Some? then range else ValidateCdb(cdb, n)
  }

  /**
   The range check is the mathematical one exactly when the request is not larger than the device, or
   ends beyond 2^64; a larger request that does not wrap is accepted although it cannot fit.
   */
  lemma RangeCheckIff(size: uint64, lba: uint64, n: uint32)
    ensures (RangeOk(size, lba, n) <==> lba + n <= size) <==> (n <= size || lba + n >= TWO64)
  {
    if n > size {
      assert U64(size - n) == size - n + TWO64;
    }
  }

  // --- WRITE

  /** The trailing partial block: read the block, overlay the fragment, write the block. */
  function WriteFragment(l: Lun, who: Session, readAt: nat, writeAt: nat, fragment: seq<byte>): (r: (RwResult, Lun))
    requires l.bs > 0 && |fragment| < l.bs
    ensures SameDevice(l, r.1)
  {
    var (rc, block) := Read(l, who, readAt, 1);
    if rc != RwOk then (rc, l)
    else
      assert Span(1, l.bs) == l.bs;
      Write(l, who, writeAt, 1, Splice(block, 0, fragment))
  }

  /** What `write_verify` does with immediate data. */
  function WriteImmediate(l: Lun, who: Session, lba: nat, len: nat, data: seq<byte>): (r: (RwResult, Lun))
    requires l.bs > 0
    ensures SameDevice(l, r.1)
  {
    var received := WholeBlocks(|data|, l.bs);
    BlocksFit(|data|, l.bs, Min(len, received));
    WriteParts(l, who, lba, Min(len, received), received, data)
  }

  /** `work` whole blocks, then what is left if that is less than a block. */
  function WriteParts(l: Lun, who: Session, lba: nat, work: nat, received: nat, data: seq<byte>): (r: (RwResult, Lun))
    requires l.bs > 0 && Span(work, l.bs) <= |data|
    ensures SameDevice(l, r.1)
  {
    var (rc, l1) := if received > 0 then Write(l, who, lba, work, data) else (RwOk, l);
    var fragment := data[Span(work, l.bs)..];
    if rc == RwOk && 0 < |fragment| < l.bs then WriteFragment(l1, who, lba + work, lba + received, fragment) else (rc, l1)
  }

  lemma BlocksFit(n: nat, bs: nat, k: nat)
    requires bs > 0 && k <= WholeBlocks(n, bs)
    ensures Span(k, bs) <= Span(WholeBlocks(n, bs), bs) <= n
  {
    DivisionBounds(n, bs, k);
    SpanGrows(k, n / bs, bs);
  }

  /** The response to a WRITE whose immediate data was stored, or that has none. */
  function WriteResponse(l: Lun, lba: uint64, len: uint32, received: nat, fua: bool): Response
    requires l.bs > 0
  {
    var expected, blocks := Span(len, l.bs), received / l.bs;
    if received == expected then Response(EmptySense, None, expected, NO_R2T)
    else
      var left := if blocks <= len then Span(len - blocks, l.bs) else 0;
      Response(R2T, None, expected, R2tSession(lba, U32(left), U32(Span(blocks, l.bs)), false, false, fua))
  }

  /** `write_verify`; `None` stands for a command without immediate data. */
  function WriteVerify(l: Lun, who: Session, cdb: seq<byte>, data: Option<seq<byte>>): (r: (Response, Lun))
    requires l.Valid() && |cdb| == 16
    ensures SameDevice(l, r.1)
  {
    var (lba, len) := LbaLen(cdb);
    var fua, expected: nat := BitSet(cdb[1], 3), Span(len, l.bs);
    var vr := ValidateRequest(l, lba, len, cdb);
    if vr.Some? then (Response(AsIs, vr, expected, NO_R2T), l)
    else if data.None? then (WriteResponse(l, lba, len, 0, fua), l)
    else
      var (rc, l') := WriteImmediate(l, who, lba, len, data.value);
      if rc == RwOk then (WriteResponse(l, lba, len, |data.value|, fua), l')
      else (Response(AsIs, WriteSense(rc), expected, NO_R2T), l')
  }

  /** A general failure is not reported. */
  function WriteSense(rc: RwResult): Option<Sense> {
    match rc
    case RwFailRw => Some(WriteError)
    case RwFailLocked => Some(ReservationConflict)
    case _ => None
  }

  // --- WRITE SAME

  /** The loop: trim or write the same block `n` times, until a call fails. */
  function SameLoop(l: Lun, who: Session, lba: nat, n: nat, unmap: bool, block: seq<byte>): (r: (RwResult, Lun))
    requires |block| >= l.bs
    ensures SameDevice(l, r.1)
    decreases n
  {
    if n == 0 then (RwOk, l)
    else
      assert Span(1, l.bs) == l.bs;
      var (rc, l1) := if unmap then Trim(l, who, lba, 1) else Write(l, who, lba, 1, block);
      if rc != RwOk then (rc, l1) else SameLoop(l1, who, lba + 1, n - 1, unmap, block)
  }

  /** `write_same`. */
  function WriteSame(l: Lun, who: Session, cdb: seq<byte>, data: Option<seq<byte>>): (r: (Response, Lun))
    requires l.Valid() && |cdb| == 16
    ensures SameDevice(l, r.1)
  {
    var (lba, len) := LbaLen(cdb);
    var unmap := BitSet(cdb[1], 3);
    var r2t, expected: nat := R2tSession(0, 0, 0, true, unmap, false), Span(len, l.bs);
    var vr := ValidateRequest(l, lba, len, cdb);
    if vr.Some? then (Response(AsIs, vr, expected, r2t), l)
    else if data.None? then (Response(if len == l.bs then R2T else EmptySense, None, expected, r2t), l)
    else if !OneBlock(|data.value|, l.bs) then (Response(AsIs, None, expected, r2t), l)
    else WriteSameBlock(l, who, lba, len, unmap, data.value, Response(AsIs, None, expected, r2t))
  }

  predicate OneBlock(n: nat, bs: nat)
    requires bs > 0
    ensures OneBlock(n, bs) <==> bs <= n < 2 * bs
  {
    DivisionBounds(n, bs, 1);
    DivisionBounds(n, bs, 2);
    n / bs == 1
  }

  /** A transfer length of zero stands for the rest of the device. */
  function SameCount(size: nat, lba: nat, len: nat): (r: nat) {
    if len > 0 then len else if lba <= size then size - lba else 0
  }

  function WriteSameBlock(l: Lun, who: Session, lba: uint64, len: uint32, unmap: bool, data: seq<byte>, base: Response): (r: (Response, Lun))
    requires l.Valid() && |data| >= l.bs
    ensures SameDevice(l, r.1)
  {
    if len == 0 && U64(l.Size() - lba) > MAX_WS_LEN then (base.(sense := Some(InvalidField)), l)
    else
      var (rc, l') := SameLoop(l, who, lba, SameCount(l.Size(), lba, len), unmap, data);
      var sense := WriteSense(rc);
      (base.(reaction := if sense.None? then EmptySense else AsIs, sense := sense), l')
  }

  // --- UNMAP

  datatype Extent = Extent(lba: uint64, len: uint32)

  /** Every descriptor that starts inside the data has its LBA and length inside the data too. */
  predicate DescriptorsComplete(data: seq<byte>, i: nat)
    decreases |data| - i
  {
    i < |data| ==> i + 12 <= |data| && DescriptorsComplete(data, i + 16)
  }

  /** The block descriptors from offset `i` on. */
  function Descriptors(data: seq<byte>, i: nat): seq<Extent>
    requires DescriptorsComplete(data, i)
    decreases |data| - i
  {
    if i >= |data| then [] else [Extent(Be64(data, i), Be32(data, i + 8))] + Descriptors(data, i + 16)
  }

  function Rejected(l: Lun, e: Extent): Option<Sense>
    requires l.Valid()
  {
    var vr := ValidateRange(l, e.lba, e.len);
    if vr.Some? then vr else if e.len > MAX_UNMAP_BLOCKS then Some(OutOfRange) else None
  }

  datatype UnmapState = UnmapState(rc: RwResult, sense: Option<Sense>, lun: Lun)

  /** The loop over the descriptors: a rejected one is noted and skipped, a failed trim ends the loop. */
  function UnmapLoop(s: UnmapState, who: Session, es: seq<Extent>): (r: UnmapState)
    requires s.lun.Valid()
    ensures SameDevice(s.lun, r.lun)
    decreases |es|
  {
    if es == [] then s
    else
      var e := es[0];
      if Rejected(s.lun, e).Some? then UnmapLoop(UnmapState(RwFailGeneral, Rejected(s.lun, e), s.lun), who, es[1..])
      else if e.len == 0 then UnmapLoop(s, who, es[1..])
      else
        var (rc, l') := Trim(s.lun, who, e.lba, e.len);
        if rc != RwOk then UnmapState(rc, s.sense, l')
        else UnmapLoop(UnmapState(RwOk, s.sense, l'), who, es[1..])
  }

  /** `unmap`. */
  function Unmap(l: Lun, who: Session, data: seq<byte>): (r: (Response, Lun))
    requires l.Valid() && DescriptorsComplete(data, 8)
    ensures SameDevice(l, r.1)
  {
    var s := UnmapLoop(UnmapState(RwOk, None, l), who, Descriptors(data, 8));
    var sense := if s.rc == RwOk || s.sense.Some? then s.sense
                 else if s.rc == RwFailLocked then Some(ReservationConflict) else Some(WriteError);
    (Response(if s.rc == RwOk then EmptySense else AsIs, sense, 0, NO_R2T), s.lun)
  }

  // --- COMPARE AND WRITE

  /** A request that passes both checks brings the blocks to compare and the blocks to write. */
  predicate CompareDataPresent(l: Lun, cdb: seq<byte>, data: seq<byte>)
    requires l.Valid() && |cdb| == 16
  {
    ValidateRequest(l, Be64(cdb, 2), cdb[13], cdb).None? && cdb[13] <= MAX_CAW_BLOCKS ==> 2 * Span(cdb[13], l.bs) <= |data|
  }

  /** `compare_and_write`: the first half of the data is compared, the second half written. */
  function CompareAndWrite(l: Lun, who: Session, cdb: seq<byte>, data: seq<byte>): (r: (Response, Lun))
    requires l.Valid() && |cdb| == 16 && CompareDataPresent(l, cdb, data)
    ensures SameDevice(l, r.1)
  {
    var lba, count := Be64(cdb, 2), cdb[13];
    var expected: nat := 2 * Span(count, l.bs);
    var vr := ValidateRequest(l, lba, count, cdb);
    if vr.Some? then (Response(AsIs, vr, expected, NO_R2T), l)
    else if count > MAX_CAW_BLOCKS then (Response(AsIs, Some(CompareAndWriteCount), expected, NO_R2T), l)
    else
      assert |data[Span(count, l.bs)..]| >= Span(count, l.bs);
      var (rc, l') := CmpWrite(l, who, lba, count, data[Span(count, l.bs)..], data);
      match rc
      case RwOk => (Response(EmptySense, None, expected, NO_R2T), l')
      case RwFailLocked => (Response(AsIs, Some(ReservationConflict), expected, NO_R2T), l')
      case RwFailMismatch => (Response(AsIs, Some(Miscompare), expected, NO_R2T), l')
      case RwFailRw => (Response(AsIs, Some(WriteError), expected, NO_R2T), l')
      case RwFailGeneral => (Response(AsIs, None, expected, NO_R2T), l')
  }
}

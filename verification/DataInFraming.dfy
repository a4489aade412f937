/**
 The bytes of a Data-In PDU: `iscsi_pdu_scsi_data_in::gen_data_in_pdu` makes the header and the buffer, and
 `server::push_response` puts the data, and the data digest right behind it, into that buffer. A receiver that follows
 the framing of section 11.2 of RFC 7143 gets such PDUs back exactly when their sizes allow it.
 */
module DataInFraming {
  import opened Bytes
  import opened Crc32cTable
  import opened Crc32c
  import F = Framing
  import L = Lun
  import C = ScsiCommands
  import I = DataIn

  const DATA_IN: byte := 0x25
  const MAX_MSG_DEPTH: nat := 128
  const MAX_ANNOUNCED: nat := 0x100_0000  // the length field has 24 bits

  /** What a Data-In header takes over from the command it answers. */
  datatype Command = Command(lun: seq<byte>, itt: seq<byte>, cmdSn: uint32, expStatSn: uint32)
  {
    predicate Valid() {
      |lun| == 8 && |itt| == 4
    }
  }

  // --- the header

  /** `my_HTONL`, stored: four bytes, the most significant first. */
  function Be(v: uint32): (r: seq<byte>)
    ensures |r| == 4
  {
    [v / 0x100_0000, v / 0x1_0000 % 256, v / 256 % 256, v % 256]
  }

  function Flags(p: I.Pdu): (r: byte) {
    (if p.final then 128 else 0) + (if p.status then 1 else 0) +
    match p.residual
    case None => 0
    case Some(Underflow(_)) => 2
    case Some(Overflow(_)) => 4
  }

  function ResidualCount(p: I.Pdu): (r: uint32) {
    if p.residual.Some? then p.residual.value.count else 0
  }

  /** The 48 bytes of the header; the length of the data is cut to 24 bits. */
  function Header(c: Command, p: I.Pdu): (r: seq<byte>)
    requires c.Valid()
    ensures |r| == F.HEADER_SIZE && r[0] == DATA_IN && r[4] == 0
  {
    var n := |p.data|;
    [DATA_IN, Flags(p), 0, 0] + [0, n / 0x1_0000 % 256, n / 256 % 256, n % 256] + c.lun + c.itt + [0, 0, 0, 0] +
    Be(c.expStatSn) + Be(U32(c.cmdSn + 1)) + Be(U32(c.cmdSn + MAX_MSG_DEPTH)) + Be(p.dataSn) + Be(U32(p.offset)) + Be(ResidualCount(p))
  }

  /** The header announces the length of the data modulo 2^24. */
  lemma Announces(c: Command, p: I.Pdu)
    requires c.Valid()
    ensures F.DataLength(Header(c, p)) == |p.data| % MAX_ANNOUNCED
  {
    var h, n := Header(c, p), |p.data|;
    assert h[5] == n / 0x1_0000 % 256 && h[6] == n / 256 % 256 && h[7] == n % 256;
    assert F.DataLength(h) == (n / 0x1_0000 % 256) * 0x1_0000 + (n / 256 % 256) * 256 + n % 256;
    ThreeBytes(n);
  }

  lemma ThreeBytes(n: nat)
    ensures (n / 0x1_0000 % 256) * 0x1_0000 + (n / 256 % 256) * 256 + n % 256 == n % 0x100_0000
  {
    LowTwo(n);
    var q, low := n / 0x1_0000, n % 0x1_0000;
    RemainderOf(q / 256, (q % 256) * 0x1_0000 + low, n);
  }

  lemma LowTwo(n: nat)
    ensures (n / 256 % 256) * 256 + n % 256 == n % 0x1_0000
  {}

  lemma RemainderOf(q: nat, r: nat, n: nat)
    requires r < 0x100_0000 && n == q * 0x100_0000 + r
    ensures n % 0x100_0000 == r
  {}

  // --- the fields come back

  lemma BeReadsBack(v: uint32)
    ensures C.Be32(Be(v), 0) == v
  {
    var a := v / 256;
    var b := a / 256;
    assert v / 0x1_0000 == b && v / 0x100_0000 == b / 256;
    assert v == a * 256 + v % 256 && a == b * 256 + a % 256 && b == (b / 256) * 256 + b % 256;
  }

  function ReadResidual(h: seq<byte>): (r: Option<I.Residual>)
    requires |h| == F.HEADER_SIZE
  {
    if h[1] / 4 % 2 == 1 then Some(I.Overflow(C.Be32(h, 44)))
    else if h[1] / 2 % 2 == 1 then Some(I.Underflow(C.Be32(h, 44)))
    else None
  }

  /** What an initiator makes of a header and the data after it (section 11.7 of RFC 7143). */
  function ReadPdu(h: seq<byte>, data: seq<byte>): (r: I.Pdu)
    requires |h| == F.HEADER_SIZE
  {
    I.Pdu(C.Be32(h, 36), C.Be32(h, 40), data, h[1] / 128 == 1, h[1] % 2 == 1, ReadResidual(h))
  }

  /** The fields that tell the initiator which command is answered, and the numbers of section 11.4 of RFC 7143. */
  datatype Fields = Fields(opcode: nat, lun: seq<byte>, itt: seq<byte>, ttt: uint32, statSn: uint32, expCmdSn: uint32, maxCmdSn: uint32)

  /** Where a Data-In header has them (section 11.7 of RFC 7143). */
  function ReadFields(h: seq<byte>): (r: Fields)
    requires |h| == F.HEADER_SIZE
  {
    Fields(h[0] % 64, h[8..16], h[16..20], C.Be32(h, 20), C.Be32(h, 24), C.Be32(h, 28), C.Be32(h, 32))
  }

  /** What they should be in an answer to `c`. */
  function AnswerTo(c: Command): (r: Fields) {
    Fields(0x25, c.lun, c.itt, 0, c.expStatSn, U32(c.cmdSn + 1), U32(c.cmdSn + 128))
  }

  /** A received PDU that means `p` and answers `c`. */
  predicate Reads(c: Command, frame: F.Pdu, p: I.Pdu) {
    |frame.header| == F.HEADER_SIZE && ReadPdu(frame.header, frame.data) == p && ReadFields(frame.header) == AnswerTo(c)
  }

  lemma FieldAt(h: seq<byte>, before: seq<byte>, v: uint32, after: seq<byte>)
    requires h == before + Be(v) + after
    ensures C.Be32(h, |before|) == v
  {
    BeReadsBack(v);
    hide Be;
    var b := Be(v);
    assert h[|before|] == b[0] && h[|before| + 1] == b[1] && h[|before| + 2] == b[2] && h[|before| + 3] == b[3];
  }

  /** Sequence number, offset, F, S and the residual come back from the header, and what it takes over from the command. */
  lemma HeaderReadsBack(c: Command, p: I.Pdu)
    requires c.Valid() && p.offset < TWO32
    ensures ReadPdu(Header(c, p), p.data) == p
    ensures ReadFields(Header(c, p)) == AnswerTo(c)
  {
    PduReadsBack(c, p);
    FieldsReadBack(c, p);
  }

  lemma FieldsReadBack(c: Command, p: I.Pdu)
    requires c.Valid()
    ensures ReadFields(Header(c, p)) == AnswerTo(c)
  {
    hide C.Be32, Be;
    var h, n := Header(c, p), |p.data|;
    var front := [DATA_IN, Flags(p), 0, 0] + [0, n / 0x1_0000 % 256, n / 256 % 256, n % 256];
    var stat, exp, max := Be(c.expStatSn), Be(U32(c.cmdSn + 1)), Be(U32(c.cmdSn + MAX_MSG_DEPTH));
    var tail := Be(p.dataSn) + Be(U32(p.offset)) + Be(ResidualCount(p));
    NoTransferTag();
    assert h == (front + c.lun + c.itt) + Be(0) + (stat + exp + max + tail);
    assert h == (front + c.lun + c.itt + Be(0)) + stat + (exp + max + tail);
    assert h == (front + c.lun + c.itt + Be(0) + stat) + exp + (max + tail);
    assert h == (front + c.lun + c.itt + Be(0) + stat + exp) + max + tail;
    FieldAt(h, front + c.lun + c.itt, 0, stat + exp + max + tail);
    FieldAt(h, front + c.lun + c.itt + Be(0), c.expStatSn, exp + max + tail);
    FieldAt(h, front + c.lun + c.itt + Be(0) + stat, U32(c.cmdSn + 1), max + tail);
    FieldAt(h, front + c.lun + c.itt + Be(0) + stat + exp, U32(c.cmdSn + MAX_MSG_DEPTH), tail);
    assert h[8..16] == c.lun && h[16..20] == c.itt;
  }

  lemma NoTransferTag()
    ensures Be(0) == [0, 0, 0, 0]
  {}

  lemma PduReadsBack(c: Command, p: I.Pdu)
    requires c.Valid() && p.offset < TWO32
    ensures ReadPdu(Header(c, p), p.data) == p
  {
    hide C.Be32, Be;
    var h, n := Header(c, p), |p.data|;
    var front := [DATA_IN, Flags(p), 0, 0] + [0, n / 0x1_0000 % 256, n / 256 % 256, n % 256] + c.lun + c.itt + [0, 0, 0, 0] +
                 Be(c.expStatSn) + Be(U32(c.cmdSn + 1)) + Be(U32(c.cmdSn + MAX_MSG_DEPTH));
    var sn, at, count := Be(p.dataSn), Be(U32(p.offset)), Be(ResidualCount(p));
    assert h == front + sn + (at + count);
    assert h == (front + sn) + at + count;
    assert h == (front + sn + at) + count + [];
    FieldAt(h, front, p.dataSn, at + count);
    FieldAt(h, front + sn, U32(p.offset), count);
    FieldAt(h, front + sn + at, ResidualCount(p), []);
  }

  // --- a digest right behind the data is not the digest of the padded data

  lemma {:induction false} DigitsOfNumber(bits: seq<bool>)
    ensures Digits(F.Number(bits), |bits|) == bits
  {
    if bits != [] {
      DigitsOfNumber(bits[1..]);
      var n := F.Number(bits);
      assert n % 2 == (if bits[0] then 1 else 0) && n / 2 == F.Number(bits[1..]);
      assert bits == [bits[0]] + bits[1..];
    }
  }

  /** The register after a byte that comes from a bit vector. */
  lemma FoldByte(r: bv32, v: bv8)
    ensures Fold(r, [F.ToByte(v)]) == Xor(Step8(Widen(LowByte(Xor(r, Widen(v))))), DropByte(r))
  {
    hide Bits8, Step8, Widen, LowByte, Xor, DropByte, F.Number, Register, Digits;
    var b := F.ToByte(v);
    DigitsOfNumber(Bits8(v));
    OneByteBits(b);
    ByteStep(r, v);
  }

  lemma OneByteBits(b: byte)
    ensures MessageBits([b]) == Digits(b, 8)
  {
    hide Digits;
    assert [b][1..] == [];
    assert MessageBits([b]) == ByteBits(b) + MessageBits([]);
  }

  /** What an empty register holds after it has met one, two or three bytes of its own complement. */
  const AFTER1: bv32 := 0xAD7D_5351
  const AFTER2: bv32 := 0x0E9E_77D2
  const AFTER3: bv32 := 0x9F9B_5C7A

  function Shift(x: bv32, k: nat): bv32
    requires k < 4
  {
    if k == 0 then x else if k == 1 then x >> 8 else if k == 2 then x >> 16 else x >> 24
  }

  function After(k: nat): bv32
    requires k < 4
  {
    if k == 0 then 0 else if k == 1 then AFTER1 else if k == 2 then AFTER2 else AFTER3
  }

  lemma StepConstants()
    ensures Step8(0xFF) == 0xAD7D_5351
    ensures Xor(Step8(0xAE), 0x00AD_7D53) == AFTER2
    ensures Xor(Step8(0x2D), 0x000E_9E77) == AFTER3
  {
    EightSteps(0xFF);
    EightSteps(0xAE);
    EightSteps(0x2D);
  }

  lemma EightSteps(x: bv32)
    ensures Step8(x) == Step(Step(Step(Step(Step(Step(Step(Step(x))))))))
  {
    hide Step;
    assert Steps(x, 8) == Steps(Step(x), 7);
    assert Steps(Step(x), 7) == Steps(Step(Step(x)), 6);
    assert Steps(Step(Step(x)), 6) == Steps(Step(Step(Step(x))), 5);
    assert Steps(Step(Step(Step(x))), 5) == Steps(Step(Step(Step(Step(x)))), 4);
    assert Steps(Step(Step(Step(Step(x)))), 4) == Steps(Step(Step(Step(Step(Step(x))))), 3);
  }

  lemma Meet0(r: bv32)
    ensures Widen(LowByte(Xor(r, Widen(F.Part(Not(r), 0))))) == 0xFF && Xor(AFTER1, DropByte(r)) == Xor(After(1), Shift(r, 1))
  {}

  lemma Meet1(r: bv32)
    ensures var x := Xor(After(1), Shift(r, 1));
            Widen(LowByte(Xor(x, Widen(F.Part(Not(r), 1))))) == 0xAE && DropByte(x) == Xor(0x00AD_7D53, Shift(r, 2))
  {}

  lemma Meet2(r: bv32)
    ensures var x := Xor(After(2), Shift(r, 2));
            Widen(LowByte(Xor(x, Widen(F.Part(Not(r), 2))))) == 0x2D && DropByte(x) == Xor(0x000E_9E77, Shift(r, 3))
  {}

  /** The register after it has been fed the first bytes of its own complement. */
  lemma FedBack(r: bv32, k: nat)
    requires 1 <= k < 4
    ensures Fold(r, F.InMemory(Not(r))[..k]) == Xor(After(k), Shift(r, k))
    decreases k
  {
    hide Step8, Widen, LowByte, Xor, DropByte, Fold, Shift, Not, F.Part, F.ToByte;
    var c := F.InMemory(Not(r));
    StepConstants();
    var v := F.Part(Not(r), k - 1);
    if k == 1 {
      assert c[..1] == [F.ToByte(v)];
      Meet0(r);
      FoldByte(r, v);
    } else {
      FedBack(r, k - 1);
      assert c[..k] == c[..k - 1] + [F.ToByte(v)];
      Chunks(r, c[..k - 1], [F.ToByte(v)]);
      var x := Xor(After(k - 1), Shift(r, k - 1));
      FoldByte(x, v);
      if k == 2 { Meet1(r); XorAssociative(Step8(0xAE), 0x00AD_7D53, Shift(r, 2)); }
      else { Meet2(r); XorAssociative(Step8(0x2D), 0x000E_9E77, Shift(r, 3)); }
    }
  }

  /** The digest that is read: the rest of the digest that was sent, and zeros. */
  lemma RestInMemory(c: bv32, k: nat)
    requires 1 <= k < 4
    ensures F.InMemory(c)[k..] + Repeat(0, k) == F.InMemory(Shift(c, k))
  {
    hide F.ToByte;
    ZeroByte();
    ShiftedParts(c, k);
  }

  lemma ZeroByte()
    ensures F.ToByte(0) == 0
  {
    var s := Bits8(0);
    assert s == [false, false, false, false, false, false, false, false];
    AllFalse(s);
  }

  lemma {:induction false} AllFalse(s: seq<bool>)
    requires forall i :: 0 <= i < |s| ==> !s[i]
    ensures F.Number(s) == 0
  {
    if s != [] { AllFalse(s[1..]); }
  }

  lemma ShiftedParts(c: bv32, k: nat)
    requires 1 <= k < 4
    ensures forall j :: 0 <= j < 4 ==> F.Part(Shift(c, k), j) == if j + k < 4 then F.Part(c, j + k) else 0
  {
    forall j | 0 <= j < 4 ensures F.Part(Shift(c, k), j) == if j + k < 4 then F.Part(c, j + k) else 0 {
      if k == 1 { Shifted1(c); } else if k == 2 { Shifted2(c); } else { Shifted3(c); }
    }
  }

  lemma Shifted1(c: bv32)
    ensures F.Part(c >> 8, 0) == F.Part(c, 1) && F.Part(c >> 8, 1) == F.Part(c, 2)
    ensures F.Part(c >> 8, 2) == F.Part(c, 3) && F.Part(c >> 8, 3) == 0
  {}

  lemma Shifted2(c: bv32)
    ensures F.Part(c >> 16, 0) == F.Part(c, 2) && F.Part(c >> 16, 1) == F.Part(c, 3)
    ensures F.Part(c >> 16, 2) == 0 && F.Part(c >> 16, 3) == 0
  {}

  lemma Shifted3(c: bv32)
    ensures F.Part(c >> 24, 0) == F.Part(c, 3) && F.Part(c >> 24, 1) == 0
    ensures F.Part(c >> 24, 2) == 0 && F.Part(c >> 24, 3) == 0
  {}

  lemma NeverMeets(r: bv32, k: nat)
    requires 1 <= k < 4
    ensures Not(Xor(After(k), Shift(r, k))) != Shift(Not(r), k)
  {}

  /** Whatever the data, its digest in place of the padding is not taken for the digest of the padded data. */
  lemma MisplacedDigest(data: seq<byte>, k: nat)
    requires 1 <= k < 4
    ensures var c := F.InMemory(Digest(data)); F.InMemory(Digest(data + c[..k])) != c[k..] + Repeat(0, k)
  {
    hide Fold, Not, Xor, Shift, After, F.InMemory;
    var r := Fold(START, data);
    var c := F.InMemory(Not(r));
    Chunks(START, data, c[..k]);
    FedBack(r, k);
    NeverMeets(r, k);
    RestInMemory(Not(r), k);
    if F.InMemory(Digest(data + c[..k])) == F.InMemory(Shift(Not(r), k)) {
      F.InMemoryInjective(Digest(data + c[..k]), Shift(Not(r), k));
    }
  }

  // --- the bytes on the wire

  function Padding(n: nat): (r: nat)
    ensures r < 4 && n + r == F.PaddedLength(n) && (r == 0 <==> n % 4 == 0)
  {
    F.PaddedLength(n) - n
  }

  /** Data, then its digest if negotiated, then the zeros that are left of the buffer. */
  function DataBytes(digest: bool, data: seq<byte>): (r: seq<byte>) {
    data + (if digest then F.InMemory(Digest(data)) else []) + Repeat(0, Padding(|data|))
  }

  function Emit(cfg: F.Settings, c: Command, p: I.Pdu): (r: seq<byte>)
    requires c.Valid()
  {
    F.HeaderPart(cfg.headerDigest, Header(c, p)) + DataBytes(cfg.dataDigest, p.data)
  }

  /** `gen_data_in_pdu` and what `push_response` adds: a zeroed buffer filled in place. */
  method FillPdu(cfg: F.Settings, c: Command, p: I.Pdu) returns (out: array<byte>)
    requires c.Valid()
    ensures fresh(out) && out[..] == Emit(cfg, c, p)
  {
    hide Digest, F.InMemory, Header, Splice, Fold;
    var header, n := Header(c, p), |p.data|;
    var headerDigest, dataDigest := if cfg.headerDigest then 4 else 0, if cfg.dataDigest then 4 else 0;
    PaddingAfterHeader(n);
    out := new byte[F.PaddedLength(F.HEADER_SIZE + n) + headerDigest + dataDigest](i => 0);
    ghost var size := out.Length;
    assert out[..] == L.Zeros(size);
    WithDigest(out, 0, header, cfg.headerDigest);
    WithDigest(out, F.HEADER_SIZE + headerDigest, p.data, cfg.dataDigest);
    ghost var front, back := F.HeaderPart(cfg.headerDigest, header), p.data + if cfg.dataDigest then F.InMemory(Digest(p.data)) else [];
    L.SpliceTwice(L.Zeros(size), 0, front, back);
    FrontOfZeros(size, front + back);
    assert front + (back + Repeat(0, Padding(n))) == (front + back) + Repeat(0, Padding(n));
  }

  /** Copies bytes into the buffer, and their digest right behind them. */
  method WithDigest(out: array<byte>, at: nat, data: seq<byte>, digest: bool)
    requires at + |data| + (if digest then 4 else 0) <= out.Length
    modifies out
    ensures out[..] == Splice(old(out[..]), at, data + if digest then F.InMemory(Digest(data)) else [])
  {
    hide Digest, F.InMemory, Splice, Fold;
    ghost var was: seq<byte> := out[..];
    Memcpy(out, at, data);
    if digest {
      var crc, _ := Compute(data, None);
      Memcpy(out, at + |data|, F.InMemory(crc));
      L.SpliceTwice(was, at, data, F.InMemory(crc));
    } else {
      assert data + [] == data;
    }
  }

  lemma FrontOfZeros(size: nat, s: seq<byte>)
    requires |s| <= size
    ensures Splice(L.Zeros(size), 0, s) == s + Repeat(0, size - |s|)
  {}

  lemma PaddingAfterHeader(n: nat)
    ensures F.PaddedLength(F.HEADER_SIZE + n) == F.HEADER_SIZE + n + Padding(n)
  {}

  // --- one PDU

  /** The sizes for which a receiver gets the data: announced in full, and no digest where padding belongs. */
  predicate Sized(cfg: F.Settings, check: bool, n: nat) {
    n < MAX_ANNOUNCED && (cfg.dataDigest && check ==> n % 4 == 0)
  }

  function Frame(c: Command, p: I.Pdu): (r: F.Pdu)
    requires c.Valid()
  {
    F.Pdu(Header(c, p), p.data)
  }

  /** With at most 2^24 - 1 bytes: accepted in step, or refused for its digest. */
  lemma DataRead(digest: bool, check: bool, data: seq<byte>, f: F.Flow, rest: seq<byte>)
    requires data != [] && f.inbox == DataBytes(digest, data) + rest && f.ok
    ensures var (f', data') := F.ReadData(digest, check, |data|, f);
            if digest && check && |data| % 4 != 0 then !f'.ok else f' == f.(inbox := rest) && data' == data
  {
    hide F.InMemory, Digest;
    var k, n := Padding(|data|), |data|;
    if !digest || k == 0 {
      assert data + [] == data;
      assert DataBytes(digest, data) == F.DataPart(digest, data);
      F.DataAccepted(digest, check, data, f, rest);
    } else {
      var c := F.InMemory(Digest(data));
      var padded, after := data + c[..k], c[k..] + Repeat(0, k);
      SplitInbox(data, c, Repeat(0, k), rest, k);
      assert f.inbox == padded + (after + rest);
      assert f.inbox[..n + k] == padded && f.inbox[n + k..] == after + rest;
      assert (after + rest)[..4] == after && (after + rest)[4..] == rest && padded[..n] == data;
      MisplacedDigest(data, k);
    }
  }

  lemma SplitInbox(data: seq<byte>, c: seq<byte>, zeros: seq<byte>, rest: seq<byte>, k: nat)
    requires k <= |c|
    ensures data + c + zeros + rest == data + c[..k] + (c[k..] + zeros + rest)
  {
    assert c == c[..k] + c[k..];
  }

  /** A receiver takes no more bytes than are announced. */
  lemma ReadLength(digest: bool, check: bool, n: nat, f: F.Flow)
    requires f.ok
    ensures var (f', data') := F.ReadData(digest, check, n, f); f'.ok ==> |data'| == n
  {
    hide F.InMemory, Digest;
  }

  lemma OneArrivesIff(cfg: F.Settings, check: bool, c: Command, p: I.Pdu, rest: seq<byte>)
    requires c.Valid() && p.data != []
    ensures var (r, left) := F.Decode(cfg, check, Emit(cfg, c, p) + rest);
            if Sized(cfg, check, |p.data|) then r.pdu == Some(Frame(c, p)) && left == rest
            else r.pdu != Some(Frame(c, p))
  {
    hide F.ReadAhs, F.ReadData, F.CheckDigest, Digest, DataBytes, F.HeaderPart, Header;
    var header, tail := Header(c, p), DataBytes(cfg.dataDigest, p.data) + rest;
    var inbox := Emit(cfg, c, p) + rest;
    assert inbox == F.HeaderPart(cfg.headerDigest, header) + tail;
    F.HeaderFirst(cfg.headerDigest, header, tail);
    var f0 := F.Flow(true, F.InvalidCommand, inbox[F.HEADER_SIZE..]);
    assert inbox == header + f0.inbox;
    F.HeaderAccepted(cfg.headerDigest, check, header, f0, tail);
    Announces(c, p);
    var f := f0.(inbox := tail);
    if |p.data| < MAX_ANNOUNCED {
      DataRead(cfg.dataDigest, check, p.data, f, rest);
    } else {
      ReadLength(cfg.dataDigest, check, |p.data| % MAX_ANNOUNCED, f);
    }
  }

  // --- the stream

  function EmitAll(cfg: F.Settings, c: Command, ps: seq<I.Pdu>): (r: seq<byte>)
    requires c.Valid()
  {
    if ps == [] then [] else Emit(cfg, c, ps[0]) + EmitAll(cfg, c, ps[1..])
  }

  function Frames(c: Command, ps: seq<I.Pdu>): (r: seq<F.Pdu>)
    requires c.Valid()
    ensures |r| == |ps|
  {
    if ps == [] then [] else [Frame(c, ps[0])] + Frames(c, ps[1..])
  }

  /** The receiver gets every PDU with its header and its data, and nothing is left over. */
  predicate Arrives(cfg: F.Settings, check: bool, c: Command, ps: seq<I.Pdu>)
    requires c.Valid()
  {
    F.DecodeMany(cfg, check, EmitAll(cfg, c, ps), |ps|) == (Frames(c, ps), [])
  }

  predicate AllSized(cfg: F.Settings, check: bool, ps: seq<I.Pdu>) {
    forall i :: 0 <= i < |ps| ==> Sized(cfg, check, |ps[i].data|)
  }

  lemma AllSizedTail(cfg: F.Settings, check: bool, ps: seq<I.Pdu>)
    requires ps != []
    ensures AllSized(cfg, check, ps) <==> Sized(cfg, check, |ps[0].data|) && AllSized(cfg, check, ps[1..])
  {
    hide Sized;
    assert forall i :: 0 < i < |ps| ==> ps[i] == ps[1..][i - 1];
  }

  /** A stream arrives exactly when every segment is below 2^24 bytes and, with data digests, a multiple of four. */
  lemma {:induction false} ArrivesIff(cfg: F.Settings, check: bool, c: Command, ps: seq<I.Pdu>)
    requires c.Valid() && forall i :: 0 <= i < |ps| ==> ps[i].data != []
    ensures Arrives(cfg, check, c, ps) <==> AllSized(cfg, check, ps)
    decreases |ps|
  {
    hide F.Decode, Emit, Frame, Sized;
    if ps != [] {
      var p, more := ps[0], ps[1..];
      OneArrivesIff(cfg, check, c, p, EmitAll(cfg, c, more));
      ArrivesIff(cfg, check, c, more);
      var (list, left) := F.DecodeMany(cfg, check, EmitAll(cfg, c, ps), |ps|);
      assert Frames(c, ps)[0] == Frame(c, p) && Frames(c, ps)[1..] == Frames(c, more);
      AllSizedTail(cfg, check, ps);
      if Sized(cfg, check, |p.data|) {
        var (list', left') := F.DecodeMany(cfg, check, EmitAll(cfg, c, more), |more|);
        assert list == [Frame(c, p)] + list' && left == left';
        assert list[1..] == list';
      } else if list != [] {
        assert list[0] != Frame(c, p);
      }
    }
  }

  /** The data of received PDUs, one after the other. */
  function Reassembled(frames: seq<F.Pdu>): (r: seq<byte>) {
    if frames == [] then [] else frames[0].data + Reassembled(frames[1..])
  }

  lemma {:induction false} FramesCarryPayload(c: Command, ps: seq<I.Pdu>)
    requires c.Valid()
    ensures Reassembled(Frames(c, ps)) == I.Payload(ps)
    decreases |ps|
  {
    hide Header;
    if ps != [] {
      assert Frames(c, ps)[1..] == Frames(c, ps[1..]);
      FramesCarryPayload(c, ps[1..]);
    }
  }

  /** Each frame means the PDU that it was made of, and answers the command. */
  lemma {:induction false} FramesRead(c: Command, ps: seq<I.Pdu>)
    requires c.Valid() && forall i :: 0 <= i < |ps| ==> ps[i].offset < TWO32
    ensures forall i :: 0 <= i < |ps| ==> Reads(c, Frames(c, ps)[i], ps[i])
    decreases |ps|
  {
    hide Header, ReadPdu, ReadFields;
    if ps != [] {
      HeaderReadsBack(c, ps[0]);
      FramesRead(c, ps[1..]);
      var frames := Frames(c, ps);
      assert frames[0] == Frame(c, ps[0]) && frames[1..] == Frames(c, ps[1..]);
      assert forall i :: 1 <= i < |ps| ==> frames[i] == frames[1..][i - 1] && ps[i] == ps[1..][i - 1];
    }
  }

  // --- the segments of a READ

  /** The sizes of a transfer in segments: each is announced in full and, with data digests, a multiple of four. */
  predicate WireFits(cfg: F.Settings, check: bool, total: nat, chunk: nat) {
    Min(chunk, total) < MAX_ANNOUNCED && (cfg.dataDigest && check ==> total % 4 == 0 && (total > chunk ==> chunk % 4 == 0))
  }

  lemma WireFitsStep(cfg: F.Settings, check: bool, rest: nat, chunk: nat)
    requires 0 < chunk && 0 < rest
    ensures WireFits(cfg, check, rest, chunk) <==>
            Sized(cfg, check, Min(chunk, rest)) && (rest > chunk ==> WireFits(cfg, check, rest - chunk, chunk))
  {}

  lemma {:induction false} SegmentsSizedIff(cfg: F.Settings, check: bool, r: I.Reader, lba: nat, offset: nat, sn: uint32)
    requires r.Valid() && offset < r.total && I.Within(r.lun, r.who, lba, r.total - offset)
    ensures var ps := I.Segments(r, lba, offset, sn).pdus;
            (forall i :: 0 <= i < |ps| ==> ps[i].data != []) &&
            (AllSized(cfg, check, ps) <==> WireFits(cfg, check, r.total - offset, r.chunk))
    decreases r.total - offset
  {
    hide I.Segment, I.Within, L.WholeBlocks, I.Segments, U32, I.Payload, Sized, WireFits;
    var n := r.Length(offset);
    var k := L.WholeBlocks(n, r.lun.bs);
    I.FirstSegment(r, lba, offset, sn);
    WireFitsStep(cfg, check, r.total - offset, r.chunk);
    var ps, rest := I.Segments(r, lba, offset, sn).pdus, I.Segments(r, lba + k, offset + n, U32(sn + 1)).pdus;
    if offset + n < r.total {
      SegmentsSizedIff(cfg, check, r, lba + k, offset + n, U32(sn + 1));
    } else {
      I.EmptyStream(r, lba + k, U32(sn + 1));
    }
    AllSizedTail(cfg, check, ps);
    assert forall i :: 0 < i < |ps| ==> ps[i] == rest[i - 1];
  }

  /** The Data-In PDUs of a READ arrive exactly when its sizes fit the wire, and then carry the payload. */
  lemma SegmentsArriveIff(cfg: F.Settings, check: bool, c: Command, r: I.Reader, lba: nat, sn: uint32)
    requires c.Valid() && r.Valid() && 0 < r.total && I.Within(r.lun, r.who, lba, r.total)
    ensures var ps := I.Segments(r, lba, 0, sn).pdus;
            (Arrives(cfg, check, c, ps) <==> WireFits(cfg, check, r.total, r.chunk)) &&
            (WireFits(cfg, check, r.total, r.chunk) ==>
             Reassembled(F.DecodeMany(cfg, check, EmitAll(cfg, c, ps), |ps|).0) == I.Payload(ps))
  {
    hide I.Segments, I.Within, WireFits, EmitAll, F.DecodeMany, AllSized;
    var ps := I.Segments(r, lba, 0, sn).pdus;
    SegmentsSizedIff(cfg, check, r, lba, 0, sn);
    ArrivesIff(cfg, check, c, ps);
    FramesCarryPayload(c, ps);
  }
}

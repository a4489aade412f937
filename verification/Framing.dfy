/**
 PDU framing (section 11.2 of RFC 7143): the sender `iscsi_pdu_bhs::get_helper` and the receiver
 `server::receive_pdu` are separate code that must agree on layout, padding and digests.
 */
module Framing {
  import opened Bytes
  import opened Crc32c

  const HEADER_SIZE: nat := 48
  const LOGIN_REQUEST: nat := 0x03

  /** What the session has negotiated. */
  datatype Settings = Settings(headerDigest: bool, dataDigest: bool)

  datatype Pdu = Pdu(header: seq<byte>, data: seq<byte>)

  function Opcode(header: seq<byte>): nat
    requires |header| == HEADER_SIZE
  {
    header[0] % 64
  }

  /** The opcodes for which `receive_pdu` has a class. */
  predicate Known(opcode: nat) {
    opcode in {0x00, 0x01, 0x02, 0x03, 0x04, 0x05, 0x06, 0x31}
  }

  function DataLength(header: seq<byte>): (n: nat)
    requires |header| == HEADER_SIZE
    ensures n <= MAX_DATA_SEGMENT_SIZE  // a 24-bit length is never refused as too long
  {
    (header[5] as int) * 65536 + (header[6] as int) * 256 + header[7]
  }

  /** A header without additional header segments, for a data segment of this length. */
  predicate Describes(header: seq<byte>, data: seq<byte>) {
    |header| == HEADER_SIZE && header[4] == 0 && DataLength(header) == |data|
  }

  function PaddedLength(n: nat): (r: nat)
    ensures r % 4 == 0 && n <= r < n + 4
  {
    (n + 3) / 4 * 4
  }

  function Padded(data: seq<byte>): (r: seq<byte>)
    ensures |r| == PaddedLength(|data|) && data <= r
  {
    data + Repeat(0, PaddedLength(|data|) - |data|)
  }

  // --- a digest as four bytes in memory order

  function Number(bits: seq<bool>): nat {
    if bits == [] then 0 else (if bits[0] then 1 else 0) + 2 * Number(bits[1..])
  }

  lemma {:induction false} NumberIsSmall(bits: seq<bool>)
    ensures Number(bits) < PowerOfTwo(|bits|)
  {
    if bits != [] {
      NumberIsSmall(bits[1..]);
    }
  }

  lemma {:induction false} NumberInjective(u: seq<bool>, w: seq<bool>)
    requires |u| == |w| && Number(u) == Number(w)
    ensures u == w
  {
    if u != [] {
      NumberInjective(u[1..], w[1..]);
      assert u == [u[0]] + u[1..] && w == [w[0]] + w[1..];
    }
  }

  function ToByte(v: bv8): byte {
    NumberIsSmall(Bits8(v));
    assert PowerOfTwo(8) == 256;
    Number(Bits8(v))
  }

  lemma ToByteInjective(v: bv8, w: bv8)
    requires ToByte(v) == ToByte(w)
    ensures v == w
  {
    hide Bits8, Pack, Number;
    NumberInjective(Bits8(v), Bits8(w));
    PackBits8(v);
    PackBits8(w);
    NarrowAgain(v, w);
  }

  lemma NarrowAgain(v: bv8, w: bv8)
    requires v as bv32 == w as bv32
    ensures v == w
  {}

  function Part(x: bv32, k: nat): bv8
    requires k < 4
  {
    if k == 0 then LowByte(x)
    else if k == 1 then LowByte(x >> 8)
    else if k == 2 then LowByte(x >> 16)
    else LowByte(x >> 24)
  }

  /** The four bytes that `memcpy` moves for a 32-bit digest. */
  function InMemory(x: bv32): (r: seq<byte>)
    ensures |r| == 4
  {
    [ToByte(Part(x, 0)), ToByte(Part(x, 1)), ToByte(Part(x, 2)), ToByte(Part(x, 3))]
  }

  lemma PartsDetermine(x: bv32, y: bv32)
    requires Part(x, 0) == Part(y, 0) && Part(x, 1) == Part(y, 1) && Part(x, 2) == Part(y, 2) && Part(x, 3) == Part(y, 3)
    ensures x == y
  {}

  lemma InMemoryInjective(x: bv32, y: bv32)
    requires InMemory(x) == InMemory(y)
    ensures x == y
  {
    hide ToByte, Part;
    var u, w := InMemory(x), InMemory(y);
    assert u[0] == w[0] && u[1] == w[1] && u[2] == w[2] && u[3] == w[3];
    ToByteInjective(Part(x, 0), Part(y, 0));
    ToByteInjective(Part(x, 1), Part(y, 1));
    ToByteInjective(Part(x, 2), Part(y, 2));
    ToByteInjective(Part(x, 3), Part(y, 3));
    PartsDetermine(x, y);
  }

  // --- sending

  function HeaderPart(digest: bool, header: seq<byte>): (r: seq<byte>)
    ensures |r| == |header| + if digest then 4 else 0
  {
    header + if digest then InMemory(Digest(header)) else []
  }

  function DataPart(digest: bool, data: seq<byte>): (r: seq<byte>)
    ensures |r| == PaddedLength(|data|) + if digest && data != [] then 4 else 0
  {
    Padded(data) + if digest && data != [] then InMemory(Digest(Padded(data))) else []
  }

  /** The bytes of a PDU on the wire. */
  function Encode(cfg: Settings, allowDigest: bool, pdu: Pdu): seq<byte> {
    HeaderPart(cfg.headerDigest && allowDigest, pdu.header) + DataPart(cfg.dataDigest && allowDigest, pdu.data)
  }

  /** `get_helper`: fills a fresh, uninitialised buffer piece by piece. */
  method GetHelper(cfg: Settings, header: seq<byte>, data: seq<byte>, allowDigest: bool) returns (out: array<byte>)
    requires |header| == HEADER_SIZE
    ensures fresh(out) && out[..] == Encode(cfg, allowDigest, Pdu(header, data))
  {
    hide Digest, InMemory, Not;
    var withHeaderDigest, withDataDigest := cfg.headerDigest && allowDigest, cfg.dataDigest && allowDigest;
    var dataOffset := HEADER_SIZE + if withHeaderDigest then 4 else 0;
    var dataPaddedLength := PaddedLength(|data|);
    var dataDigestOffset := dataOffset + dataPaddedLength;
    var outSize := dataDigestOffset + if withDataDigest && |data| > 0 then 4 else 0;
    out := new byte[outSize];
    Memcpy(out, 0, header);
    if withHeaderDigest {
      var crc, _ := Compute(header, None);
      Memcpy(out, HEADER_SIZE, InMemory(crc));
    }
    assert out[..dataOffset] == HeaderPart(withHeaderDigest, header);
    if |data| > 0 {
      FillData(out, dataOffset, data, withDataDigest);
    }
    assert out[..] == out[..dataOffset] + out[dataOffset..];
  }

  /** The data segment: zero the last word, copy the data over it, add the digest of both. */
  method FillData(out: array<byte>, dataOffset: nat, data: seq<byte>, withDigest: bool)
    requires |data| > 0
    requires out.Length == dataOffset + PaddedLength(|data|) + if withDigest then 4 else 0
    modifies out
    ensures out[..dataOffset] == old(out[..dataOffset])
    ensures out[dataOffset..] == DataPart(withDigest, data)
  {
    hide Digest, InMemory, Not, Splice;
    var end := dataOffset + PaddedLength(|data|);
    ghost var was := out[..];
    Memcpy(out, end - 4, [0, 0, 0, 0]);
    Memcpy(out, dataOffset, data);
    PaddedInPlace(was, dataOffset, data);
    if withDigest {
      ghost var before := out[..];
      var crc, _ := Compute(out[dataOffset..end], None);
      Memcpy(out, end, InMemory(crc));
      SpliceTail(before, dataOffset, end, InMemory(crc));
    }
  }

  lemma PaddedInPlace(s: seq<byte>, at: nat, data: seq<byte>)
    requires |data| > 0 && at + PaddedLength(|data|) <= |s|
    ensures var end := at + PaddedLength(|data|);
            var s' := Splice(Splice(s, end - 4, [0, 0, 0, 0]), at, data);
            s'[..at] == s[..at] && s'[at..end] == Padded(data)
  {}

  lemma SpliceTail(s: seq<byte>, at: nat, end: nat, t: seq<byte>)
    requires at <= end && end + |t| == |s|
    ensures var s' := Splice(s, end, t);
            s'[..at] == s[..at] && s'[at..] == s[at..end] + t
  {}

  lemma EncodedLength(cfg: Settings, allowDigest: bool, pdu: Pdu)
    requires |pdu.header| == HEADER_SIZE
    ensures |Encode(cfg, allowDigest, pdu)| % 4 == 0
    ensures |Encode(cfg, allowDigest, pdu)| >= HEADER_SIZE
  {
    hide HeaderPart, DataPart;
  }

  // --- receiving

  datatype Reason = NoError | Connection | InvalidCommand | DigestError

  datatype Received = Received(pdu: Option<Pdu>, reason: Reason)

  /** What `receive_pdu` carries along: the flag `ok`, the reason, and the bytes still to be read. */
  datatype Flow = Flow(ok: bool, reason: Reason, inbox: seq<byte>)

  /** A failed read loses the connection, and with it whatever was still to come. */
  function AfterLoss(): Flow {
    Flow(false, Connection, [])
  }

  /** Read and check four digest bytes. */
  function CheckDigest(check: bool, crc: bv32, f: Flow): Flow {
    if |f.inbox| < 4 then AfterLoss()
    else if f.inbox[..4] != InMemory(crc) && check then Flow(false, DigestError, f.inbox[4..])
    else f.(inbox := f.inbox[4..])
  }

  /** Additional header segments are read and enter the header digest. */
  function ReadAhs(header: seq<byte>, f: Flow): (Flow, bv32)
    requires |header| == HEADER_SIZE
  {
    var n: nat := (header[4] as int) * 4;
    var crc := Fold(START, header);
    if n == 0 then (f, Not(crc))
    else if |f.inbox| < n then (AfterLoss(), Not(Fold(crc, Repeat(0, n))))
    else (f.(inbox := f.inbox[n..]), Not(Fold(crc, f.inbox[..n])))
  }

  /** The data segment with its padding, then its digest. */
  function ReadData(withDigest: bool, check: bool, n: nat, f: Flow): (Flow, seq<byte>) {
    var m := PaddedLength(n);
    if n == 0 then (f, [])
    else if |f.inbox| < m then (AfterLoss(), [])
    else
      var padded, f1 := f.inbox[..m], f.(inbox := f.inbox[m..]);
      (if withDigest then CheckDigest(check, Digest(padded), f1) else f1, padded[..n])
  }

  /** What one call returns for the bytes `inbox`, and the bytes it leaves. */
  function Decode(cfg: Settings, check: bool, inbox: seq<byte>): (Received, seq<byte>) {
    if |inbox| < HEADER_SIZE then (Received(None, Connection), [])
    else
      var header := inbox[..HEADER_SIZE];
      var hasDigest := Opcode(header) != LOGIN_REQUEST;
      var f0 := Flow(true, if Known(Opcode(header)) then NoError else InvalidCommand, inbox[HEADER_SIZE..]);
      var (f1, crc) := ReadAhs(header, f0);
      var f2 := if cfg.headerDigest && hasDigest then CheckDigest(check, crc, f1) else f1;
      var (f3, data) := ReadData(cfg.dataDigest && hasDigest, check, DataLength(header), f2);
      (Received(if f3.ok then Some(Pdu(header, data)) else None, f3.reason), f3.inbox)
  }

  /** The bytes that a peer sends. */
  class Peer {
    var inbox: seq<byte>

    constructor (inbox: seq<byte>)
      ensures this.inbox == inbox
    {
      this.inbox := inbox;
    }

    method Recv(n: nat) returns (ok: bool, bytes: seq<byte>)
      modifies this
      ensures ok == (n <= |old(inbox)|)
      ensures ok ==> bytes == old(inbox)[..n] && inbox == old(inbox)[n..]
      ensures !ok ==> inbox == []
    {
      ok := n <= |inbox|;
      if ok {
        bytes, inbox := inbox[..n], inbox[n..];
      } else {
        bytes, inbox := [], [];
      }
    }

    /** Read a digest and compare it with `crc`. */
    method VerifyDigest(check: bool, crc: bv32, ok: bool, reason: Reason) returns (ok': bool, reason': Reason)
      modifies this
      ensures Flow(ok', reason', inbox) == CheckDigest(check, crc, Flow(ok, reason, old(inbox)))
    {
      hide InMemory;
      ok', reason' := ok, reason;
      var got, remote := Recv(4);
      if !got {
        ok', reason' := false, Connection;
      } else if remote != InMemory(crc) && check {
        ok', reason' := false, DigestError;
      }
    }

    /** Read additional header segments, if any, and continue the header digest over them. */
    method ReceiveAhs(header: seq<byte>, reason: Reason) returns (ok': bool, reason': Reason, crc: bv32)
      requires |header| == HEADER_SIZE
      modifies this
      ensures (Flow(ok', reason', inbox), crc) == ReadAhs(header, Flow(true, reason, old(inbox)))
    {
      hide Digest, Fold, Not;
      ok', reason' := true, reason;
      var first, second := Compute(header, None);
      var ahsLength: nat := (header[4] as int) * 4;
      if ahsLength > 0 {
        var got, ahs := Recv(ahsLength);
        if !got {
          ok', reason', ahs := false, Connection, Repeat(0, ahsLength);
        }
        first, second := Compute(ahs, Some(second));
      }
      crc := first;
    }

    /** Read the data segment, its padding and its digest. */
    method ReceiveData(withDigest: bool, check: bool, n: nat, ok: bool, reason: Reason)
      returns (ok': bool, reason': Reason, data: seq<byte>)
      modifies this
      ensures (Flow(ok', reason', inbox), data) == ReadData(withDigest, check, n, Flow(ok, reason, old(inbox)))
    {
      hide Digest, CheckDigest;
      ok', reason', data := ok, reason, [];
      if n > 0 {
        var got, padded := Recv(PaddedLength(n));
        if got {
          data := padded[..n];
          if withDigest {
            var crc, _ := Compute(padded, None);
            ok', reason' := VerifyDigest(check, crc, ok, reason);
          }
        } else {
          ok', reason' := false, Connection;
        }
      }
    }

    /** The framing part of `receive_pdu`. */
    method ReceivePdu(cfg: Settings, check: bool) returns (r: Received)
      modifies this
      ensures (r, inbox) == Decode(cfg, check, old(inbox))
    {
      hide ReadAhs, ReadData, CheckDigest;
      var got, header := Recv(HEADER_SIZE);
      if !got {
        return Received(None, Connection);
      }
      var hasDigest := Opcode(header) != LOGIN_REQUEST;
      var ok, reason, crc := ReceiveAhs(header, if Known(Opcode(header)) then NoError else InvalidCommand);
      if cfg.headerDigest && hasDigest {
        ok, reason := VerifyDigest(check, crc, ok, reason);
      }
      var data;
      ok, reason, data := ReceiveData(cfg.dataDigest && hasDigest, check, DataLength(header), ok, reason);
      r := Received(if ok then Some(Pdu(header, data)) else None, reason);
    }
  }

  // --- the two agree

  lemma DigestAccepted(check: bool, crc: bv32, f: Flow, rest: seq<byte>)
    requires f.inbox == InMemory(crc) + rest
    ensures CheckDigest(check, crc, f) == f.(inbox := rest)
  {
    hide InMemory;
    assert f.inbox[..4] == InMemory(crc) && f.inbox[4..] == rest;
  }

  lemma DataAccepted(withDigest: bool, check: bool, data: seq<byte>, f: Flow, rest: seq<byte>)
    requires f.inbox == DataPart(withDigest, data) + rest
    ensures ReadData(withDigest, check, |data|, f) == (f.(inbox := rest), data)
  {
    hide InMemory, Digest, CheckDigest;
    if data == [] {
      assert f.inbox == rest;
    } else {
      var m := PaddedLength(|data|);
      var padded, f1 := f.inbox[..m], f.(inbox := f.inbox[m..]);
      assert padded == Padded(data) && padded[..|data|] == data;
      if withDigest {
        assert f1.inbox == InMemory(Digest(padded)) + rest;
        DigestAccepted(check, Digest(padded), f1, rest);
      } else {
        assert f1.inbox == rest;
      }
    }
  }

  lemma HeaderAccepted(withDigest: bool, check: bool, header: seq<byte>, f: Flow, rest: seq<byte>)
    requires |header| == HEADER_SIZE && header[4] == 0
    requires HeaderPart(withDigest, header) + rest == header + f.inbox
    ensures ReadAhs(header, f) == (f, Digest(header))
    ensures (if withDigest then CheckDigest(check, Digest(header), f) else f) == f.(inbox := rest)
  {
    hide InMemory, Fold, Not, CheckDigest;
    if withDigest {
      assert header + f.inbox == header + (InMemory(Digest(header)) + rest);
      AppendInjective(header, f.inbox, InMemory(Digest(header)) + rest);
      DigestAccepted(check, Digest(header), f, rest);
    } else {
      AppendInjective(header, f.inbox, rest);
    }
  }

  lemma AppendInjective(a: seq<byte>, b: seq<byte>, c: seq<byte>)
    requires a + b == a + c
    ensures b == c
  {
    assert b == (a + b)[|a|..] && c == (a + c)[|a|..];
  }

  /**
   Main result. For every PDU without additional header segments and every digest setting, the
   receiver gets the header and the data back, accepts the digests, and leaves what follows alone.
   */
  lemma RoundTrip(cfg: Settings, check: bool, pdu: Pdu, rest: seq<byte>)
    requires Describes(pdu.header, pdu.data)
    ensures var allowDigest := Opcode(pdu.header) != LOGIN_REQUEST;
            Decode(cfg, check, Encode(cfg, allowDigest, pdu) + rest) ==
            (Received(Some(pdu), if Known(Opcode(pdu.header)) then NoError else InvalidCommand), rest)
  {
    hide ReadAhs, ReadData, CheckDigest, Digest, DataPart, HeaderPart;
    var header, hasDigest := pdu.header, Opcode(pdu.header) != LOGIN_REQUEST;
    var hd, dd := cfg.headerDigest && hasDigest, cfg.dataDigest && hasDigest;
    var inbox := Encode(cfg, hasDigest, pdu) + rest;
    HeaderFirst(hd, header, DataPart(dd, pdu.data) + rest);
    assert inbox == HeaderPart(hd, header) + (DataPart(dd, pdu.data) + rest);
    var f0 := Flow(true, if Known(Opcode(header)) then NoError else InvalidCommand, inbox[HEADER_SIZE..]);
    assert inbox == header + f0.inbox;
    HeaderAccepted(hd, check, header, f0, DataPart(dd, pdu.data) + rest);
    DataAccepted(dd, check, pdu.data, f0.(inbox := DataPart(dd, pdu.data) + rest), rest);
  }

  lemma HeaderFirst(withDigest: bool, header: seq<byte>, rest: seq<byte>)
    ensures |HeaderPart(withDigest, header)| >= |header|
    ensures (HeaderPart(withDigest, header) + rest)[..|header|] == header
  {
    hide InMemory, Digest;
  }

  // --- streams

  predicate Plain(pdu: Pdu) {
    Describes(pdu.header, pdu.data)
  }

  function EncodeAll(cfg: Settings, pdus: seq<Pdu>): seq<byte>
    requires forall i :: 0 <= i < |pdus| ==> Plain(pdus[i])
  {
    if pdus == [] then []
    else
      assert Plain(pdus[0]);
      Encode(cfg, Opcode(pdus[0].header) != LOGIN_REQUEST, pdus[0]) + EncodeAll(cfg, pdus[1..])
  }

  /** The first `n` PDUs that repeated calls return; fewer when a call returns none. */
  function DecodeMany(cfg: Settings, check: bool, inbox: seq<byte>, n: nat): (seq<Pdu>, seq<byte>)
    decreases n
  {
    if n == 0 then ([], inbox)
    else
      var (r, rest) := Decode(cfg, check, inbox);
      if r.pdu.None? then ([], rest)
      else
        var (more, left) := DecodeMany(cfg, check, rest, n - 1);
        ([r.pdu.value] + more, left)
  }

  /** A concatenated stream of PDUs parses back to the same list and nothing is left. */
  lemma {:induction false} StreamRoundTrip(cfg: Settings, check: bool, pdus: seq<Pdu>)
    requires forall i :: 0 <= i < |pdus| ==> Plain(pdus[i])
    ensures DecodeMany(cfg, check, EncodeAll(cfg, pdus), |pdus|) == (pdus, [])
  {
    hide Decode, Encode;
    if pdus != [] {
      assert Plain(pdus[0]);
      RoundTrip(cfg, check, pdus[0], EncodeAll(cfg, pdus[1..]));
      StreamRoundTrip(cfg, check, pdus[1..]);
      assert pdus == [pdus[0]] + pdus[1..];
    }
  }

  // --- damage within four consecutive bytes is always noticed

  lemma DigestRefused(crc: bv32, crc': bv32, f: Flow, rest: seq<byte>)
    requires f.inbox == InMemory(crc) + rest && crc != crc'
    ensures CheckDigest(true, crc', f) == Flow(false, DigestError, rest)
  {
    hide InMemory;
    assert f.inbox[..4] == InMemory(crc) && f.inbox[4..] == rest;
    if InMemory(crc) == InMemory(crc') {
      InMemoryInjective(crc, crc');
    }
  }

  /** `b` is `a` with something changed, all within four consecutive bytes from `p` on. */
  predicate Damaged(a: seq<byte>, b: seq<byte>, p: nat, k: nat) {
    && |a| == |b| && a != b && k <= 4 && p + k <= |a|
    && a[..p] == b[..p] && a[p + k..] == b[p + k..]
  }

  lemma DamagedDataRefused(data: seq<byte>, damaged: seq<byte>, p: nat, k: nat, f: Flow, rest: seq<byte>)
    requires data != [] && Damaged(Padded(data), damaged, p, k)
    requires f.inbox == damaged + InMemory(Digest(Padded(data))) + rest
    ensures ReadData(true, true, |data|, f).0 == Flow(false, DigestError, rest)
  {
    hide InMemory, Digest, CheckDigest;
    var m := PaddedLength(|data|);
    var f1 := f.(inbox := f.inbox[m..]);
    assert f.inbox[..m] == damaged && f1.inbox == InMemory(Digest(Padded(data))) + rest;
    BurstDetected(Padded(data), damaged, p, k);
    DigestRefused(Digest(Padded(data)), Digest(damaged), f1, rest);
  }

  /** A PDU whose padded data was damaged on the way is refused, and the stream stays in step. */
  lemma DamagedDataIsRefused(cfg: Settings, pdu: Pdu, damaged: seq<byte>, p: nat, k: nat, rest: seq<byte>)
    requires Describes(pdu.header, pdu.data) && pdu.data != []
    requires cfg.dataDigest && Opcode(pdu.header) != LOGIN_REQUEST
    requires Damaged(Padded(pdu.data), damaged, p, k)
    ensures Decode(cfg, true, HeaderPart(cfg.headerDigest, pdu.header) + (damaged + InMemory(Digest(Padded(pdu.data))) + rest))
            == (Received(None, DigestError), rest)
  {
    hide ReadAhs, ReadData, CheckDigest, Digest, HeaderPart, InMemory;
    var header, tail := pdu.header, damaged + InMemory(Digest(Padded(pdu.data))) + rest;
    var inbox := HeaderPart(cfg.headerDigest, header) + tail;
    HeaderFirst(cfg.headerDigest, header, tail);
    var f0 := Flow(true, if Known(Opcode(header)) then NoError else InvalidCommand, inbox[HEADER_SIZE..]);
    assert inbox == header + f0.inbox;
    HeaderAccepted(cfg.headerDigest, true, header, f0, tail);
    DamagedDataRefused(pdu.data, damaged, p, k, f0.(inbox := tail), rest);
  }

  /** A failed check stays failed. */
  lemma FailureSticks(withDigest: bool, n: nat, f: Flow)
    requires !f.ok
    ensures !ReadData(withDigest, true, n, f).0.ok
  {
    hide InMemory, Digest;
  }

  /**
   A header that was damaged without getting additional header segments is refused, whatever follows it, unless the damage
   turns it into a login request, whose digests are not read, and the bytes it announces are there.
   */
  lemma DamagedHeaderRefusedIff(cfg: Settings, header: seq<byte>, damaged: seq<byte>, p: nat, k: nat, rest: seq<byte>)
    requires |header| == HEADER_SIZE && Damaged(header, damaged, p, k) && cfg.headerDigest && damaged[4] == 0
    ensures Decode(cfg, true, damaged + InMemory(Digest(header)) + rest).0.pdu.None? <==>
            Opcode(damaged) != LOGIN_REQUEST || PaddedLength(DataLength(damaged)) > 4 + |rest|
  {
    hide CheckDigest, Digest, InMemory, Fold, Not;
    var inbox := damaged + InMemory(Digest(header)) + rest;
    assert inbox[..HEADER_SIZE] == damaged && inbox[HEADER_SIZE..] == InMemory(Digest(header)) + rest;
    if Opcode(damaged) != LOGIN_REQUEST {
      var f0 := Flow(true, if Known(Opcode(damaged)) then NoError else InvalidCommand, inbox[HEADER_SIZE..]);
      DigestOf(damaged);
      BurstDetected(header, damaged, p, k);
      DigestRefused(Digest(header), Digest(damaged), f0, rest);
      FailureSticks(cfg.dataDigest, DataLength(damaged), Flow(false, DigestError, rest));
    }
  }

  /**
   Damage that announces additional header segments makes the receiver take the digest for part of them: for every such
   header there are bytes to follow with which it is accepted. (A digest that starts with two zero bytes would be the
   length of an empty segment, over which the code that parses the segments does not get on.)
   */
  lemma DamageIntoAhsCanPass(cfg: Settings, header: seq<byte>, damaged: seq<byte>) returns (rest: seq<byte>)
    requires |header| == |damaged| == HEADER_SIZE && cfg.headerDigest
    requires InMemory(Digest(header))[0] != 0 || InMemory(Digest(header))[1] != 0
    requires damaged[4] != 0 && Opcode(damaged) != LOGIN_REQUEST && DataLength(damaged) == 0
    ensures Decode(cfg, true, damaged + InMemory(Digest(header)) + rest).0.pdu == Some(Pdu(damaged, []))
  {
    hide CheckDigest, Digest, InMemory, Fold, Not;
    var n: nat := (damaged[4] as int) * 4;
    var ahs := InMemory(Digest(header)) + Repeat(0, n - 4);
    var crc := Not(Fold(Fold(START, damaged), ahs));
    rest := Repeat(0, n - 4) + InMemory(crc);
    var inbox := damaged + InMemory(Digest(header)) + rest;
    assert inbox == damaged + (ahs + InMemory(crc));
    assert inbox[..HEADER_SIZE] == damaged && inbox[HEADER_SIZE..] == ahs + InMemory(crc);
    assert (ahs + InMemory(crc))[..n] == ahs && (ahs + InMemory(crc))[n..] == InMemory(crc);
    var f := Flow(true, if Known(Opcode(damaged)) then NoError else InvalidCommand, InMemory(crc));
    assert InMemory(crc) + [] == InMemory(crc);
    DigestAccepted(true, crc, f, []);
  }

  lemma DigestOf(data: seq<byte>)
    ensures Digest(data) == Not(Fold(START, data))
  {
    hide Not, Fold;
  }
}

/** The elements of an SNMP message and what `get_payload` of `snmp_elem.cpp` makes of them. */
module BerElements {
  import opened Bytes
  import BerOid

  const INTEGER: byte := 0x02
  const OCTET_STRING: byte := 0x04
  const NULL: byte := 0x05
  const OBJECT_ID: byte := 0x06
  const SEQUENCE: byte := 0x30
  const COUNTER32: byte := 0x41
  const TICKS: byte := 0x43
  const COUNTER64: byte := 0x46
  const GET: byte := 0xa0
  const GET_NEXT: byte := 0xa1
  const RESPONSE: byte := 0xa2
  const SET: byte := 0xa3

  datatype Elem =
    | Integer(kind: byte, v: uint64)
    | Null
    | OctetString(bytes: seq<byte>)
    | Oid(text: string)
    | Sequence(tag: byte, elems: seq<Elem>)

  /** Conversion to `uint8_t`. */
  function U8(x: int): (r: byte)
    ensures 0 <= x < 256 ==> r == x
  {
    x % 256
  }

  // --- what the wire format asks for

  function IntegerLength(v: uint64): (r: nat) {
    if v <= 0xffff_ffff then 4 else 8
  }

  function Tag(e: Elem): (r: byte) {
    match e
    case Integer(kind, _) => kind
    case Null => NULL
    case OctetString(_) => OCTET_STRING
    case Oid(_) => OBJECT_ID
    case Sequence(tag, _) => tag
  }

  function Contents(e: Elem): (r: seq<byte>)
    decreases e, 0
  {
    match e
    case Integer(_, v) => BigEndian(v, IntegerLength(v))
    case Null => []
    case OctetString(bytes) => bytes
    case Oid(text) => BerOid.Encode(text)
    case Sequence(_, elems) => TlvAll(elems)
  }

  /** Type, length, value. */
  function Tlv(e: Elem): (r: seq<byte>)
    decreases e, 1
  {
    [Tag(e), U8(|Contents(e)|)] + Contents(e)
  }

  function TlvAll(es: seq<Elem>): (r: seq<byte>)
    decreases es
  {
    if es == [] then [] else Tlv(es[0]) + TlvAll(es[1..])
  }

  // --- what the code makes

  /** The buffer of a sequence and the write position, an 8-bit counter, after the elements that still fit. */
  function Pack(payloads: seq<seq<byte>>, buffer: seq<byte>, o: byte): (r: (seq<byte>, byte))
    requires |buffer| == 258
    ensures |r.0| == 258
    decreases |payloads|
  {
    if payloads == [] || o + |payloads[0]| >= 257 then (buffer, o)
    else Pack(payloads[1..], Splice(buffer, o, payloads[0]), U8(o + |payloads[0]|))
  }

  /** `snmp_sequence::get_payload`, from the payloads of its elements; `memory` is the uninitialised buffer. */
  function PackSequence(tag: byte, payloads: seq<seq<byte>>, memory: seq<byte>): (r: seq<byte>)
    requires |memory| == 258
  {
    var (buffer, o) := Pack(payloads, memory[0 := SEQUENCE], 2);
    buffer[1 := U8(o - 2)][0 := tag][..o]
  }

  function Joined(payloads: seq<seq<byte>>): (r: seq<byte>) {
    if payloads == [] then [] else payloads[0] + Joined(payloads[1..])
  }

  lemma {:induction false} PackFits(payloads: seq<seq<byte>>, buffer: seq<byte>, o: byte)
    requires |buffer| == 258 && o + |Joined(payloads)| <= 255
    ensures Pack(payloads, buffer, o) == (Splice(buffer, o, Joined(payloads)), o + |Joined(payloads)|)
    decreases |payloads|
  {
    if payloads == [] {
      assert Splice(buffer, o, Joined(payloads)) == buffer;
    } else {
      var p, rest := payloads[0], Joined(payloads[1..]);
      assert Joined(payloads) == p + rest;
      PackFits(payloads[1..], Splice(buffer, o, p), o + |p|);
      assert Splice(Splice(buffer, o, p), o + |p|, rest) == Splice(buffer, o, p + rest);
    }
  }

  /** A sequence is emitted whole exactly when all of it takes at most 255 bytes; otherwise elements are dropped. */
  lemma SequenceWholeIff(tag: byte, payloads: seq<seq<byte>>, memory: seq<byte>)
    requires |memory| == 258
    ensures PackSequence(tag, payloads, memory) == [tag, U8(|Joined(payloads)|)] + Joined(payloads) <==> 2 + |Joined(payloads)| <= 255
  {
    hide Pack;
    var all := Joined(payloads);
    if 2 + |all| <= 255 {
      PackFits(payloads, memory[0 := SEQUENCE], 2);
      var buffer := Splice(memory[0 := SEQUENCE], 2, all)[1 := U8(|all|)][0 := tag];
      assert buffer[..2 + |all|] == [tag, U8(|all|)] + all;
    }
  }

  /** `get_payload` of an element, given uninitialised memory for each sequence. */
  function Payload(e: Elem, memory: seq<byte>): (r: seq<byte>)
    requires |memory| == 258
    decreases e, 0
  {
    match e
    case Sequence(tag, elems) => PackSequence(tag, Payloads(elems, memory), memory)
    case _ => [Tag(e), U8(|Contents(e)|)] + Contents(e)
  }

  function Payloads(es: seq<Elem>, memory: seq<byte>): (r: seq<seq<byte>>)
    requires |memory| == 258
    ensures |r| == |es|
    decreases es
  {
    if es == [] then [] else [Payload(es[0], memory)] + Payloads(es[1..], memory)
  }

  /** No value is too long for a one-byte length. */
  predicate Fits(e: Elem) {
    |Contents(e)| <= 253
  }

  lemma TlvParts(es: seq<Elem>)
    requires es != []
    ensures TlvAll(es) == Tlv(es[0]) + TlvAll(es[1..])
    ensures |Tlv(es[0])| == 2 + |Contents(es[0])| && |TlvAll(es[1..])| <= |TlvAll(es)|
  {
    hide Contents, Tag;
  }

  /** For a message of at most 255 bytes in all, the code emits type, length and value of every element. */
  lemma {:induction false} PayloadIsTlv(e: Elem, memory: seq<byte>)
    requires |memory| == 258 && Fits(e)
    ensures Payload(e, memory) == Tlv(e)
    decreases e, 0
  {
    hide PackSequence, BigEndian, BerOid.Encode;
    match e
    case Sequence(tag, elems) =>
      PayloadsAreTlv(elems, memory);
      SequenceWholeIff(tag, Payloads(elems, memory), memory);
    case _ =>
  }

  lemma {:induction false} PayloadsAreTlv(es: seq<Elem>, memory: seq<byte>)
    requires |memory| == 258 && |TlvAll(es)| <= 253
    ensures Joined(Payloads(es, memory)) == TlvAll(es)
    decreases es
  {
    hide Payload, Contents, Tag;
    if es != [] {
      TlvParts(es);
      PayloadIsTlv(es[0], memory);
      PayloadsAreTlv(es[1..], memory);
      assert Payloads(es, memory)[1..] == Payloads(es[1..], memory);
    }
  }

  // --- integers

  /** The loop of `get_INTEGER`. */
  function IntegerFrom(b: seq<byte>, v: uint64): (r: uint64)
    decreases |b|
  {
    if b == [] then v else IntegerFrom(b[1..], U64(v * 256 + b[0]))
  }

  lemma {:induction false} IntegerSnoc(b: seq<byte>, d: byte, v: uint64)
    ensures IntegerFrom(b + [d], v) == U64(IntegerFrom(b, v) * 256 + d)
    decreases |b|
  {
    if b == [] {
      assert (b + [d])[1..] == [];
    } else {
      assert (b + [d])[1..] == b[1..] + [d];
      IntegerSnoc(b[1..], d, U64(v * 256 + b[0]));
    }
  }

  lemma {:induction false} BigEndianReadsBack(v: nat, n: nat)
    requires v < TWO64 && v < Power256(n)
    ensures IntegerFrom(BigEndian(v, n), 0) == v
    decreases n
  {
    if n > 0 {
      BigEndianReadsBack(v / 256, n - 1);
      IntegerSnoc(BigEndian(v / 256, n - 1), v % 256, 0);
    }
  }

  /** Every 64-bit integer comes back from its 4 or 8 bytes. */
  lemma IntegerRoundTrip(v: uint64)
    ensures IntegerFrom(BigEndian(v, IntegerLength(v)), 0) == v
  {
    PowersOf256();
    BigEndianReadsBack(v, IntegerLength(v));
  }
}

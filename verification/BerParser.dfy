/**
 The parser of `snmp.cpp`, `process_BER` and `process_PDU`, as a function of the bytes; and what a message means as a
 tree of elements. The two agree on everything the encoder emits.
 */
module BerParser {
  import opened Bytes
  import opened BerElements
  import BerOid

  datatype Request = Request(oids: seq<string>, reqId: uint64, err: int, errIdx: int, version: int, community: seq<byte>)

  const EMPTY_REQUEST: Request := Request([], 0, 0, 0, 0, [])

  /** `Thrown` is a range error of the cursor, which drops the packet. */
  datatype Outcome = Parsed(ok: bool, req: Request) | Thrown

  /** `find_next_oid`; the empty text when there is no next one. */
  type NextOid = string -> string

  datatype Context = Context(getNext: bool, top: int, firstInteger: bool, firstString: bool)

  /** Conversion of a 64-bit value to `int`. */
  function I32(v: uint64): (r: int)
    ensures v < 0x8000_0000 ==> r == v
  {
    var low := U32(v);
    if low < 0x8000_0000 then low else low - TWO32
  }

  // --- the effect of one element

  function WithInteger(req: Request, ctx: Context, v: uint64): (r: Request) {
    if ctx.top != 0 && ctx.firstInteger then req.(version := I32(v)) else req
  }

  function WithString(req: Request, ctx: Context, bytes: seq<byte>): (r: Request) {
    if ctx.top != 0 && ctx.firstString then req.(community := bytes) else req
  }

  function WithOid(req: Request, getNext: bool, next: NextOid, oid: string): (r: Request) {
    if !getNext then req.(oids := req.oids + [oid])
    else if next(oid) == "" then req.(err := 2, errIdx := 1)
    else req.(oids := req.oids + [next(oid)])
  }

  function After(ctx: Context, tag: byte): (r: Context) {
    ctx.(firstInteger := ctx.firstInteger && tag != INTEGER, firstString := ctx.firstString && tag != OCTET_STRING)
  }

  function Inside(ctx: Context): (r: Context) {
    Context(ctx.getNext, ctx.top - 1, true, true)
  }

  function BindContext(getNext: bool): (r: Context) {
    Context(getNext, 0, true, true)
  }

  // --- the parser on bytes

  /** Type, length and that many bytes are there. */
  predicate HasElement(b: seq<byte>) {
    |b| >= 2 && 2 + b[1] <= |b|
  }

  function Value(b: seq<byte>): (r: seq<byte>)
    requires HasElement(b)
    ensures |r| < |b|
  {
    b[2..2 + b[1]]
  }

  function Rest(b: seq<byte>): (r: seq<byte>)
    requires HasElement(b)
    ensures |r| < |b|
  {
    b[2 + b[1]..]
  }

  function ProcessBer(next: NextOid, b: seq<byte>, req: Request, ctx: Context): (r: Outcome)
    decreases |b|, 1
  {
    if b == [] then Parsed(true, req)
    else if !HasElement(b) then Thrown
    else
      var r := Element(next, b[0], Value(b), req, ctx);
      if r.Thrown? || !r.ok then r else ProcessBer(next, Rest(b), r.req, After(ctx, b[0]))
  }

  function Element(next: NextOid, tag: byte, value: seq<byte>, req: Request, ctx: Context): (r: Outcome)
    decreases |value|, 2
  {
    if tag == INTEGER then Parsed(true, WithInteger(req, ctx, IntegerFrom(value, 0)))
    else if tag == OCTET_STRING then Parsed(true, WithString(req, ctx, value))
    else if tag == NULL then Parsed(true, req)
    else if tag == OBJECT_ID then
      var oid := BerOid.GetOid(value);
      if oid.None? then Parsed(false, req) else Parsed(true, WithOid(req, ctx.getNext, next, oid.value))
    else if tag == SEQUENCE then ProcessBer(next, value, req, Inside(ctx))
    else if tag == GET || tag == SET then ProcessPdu(next, value, req, ctx.getNext)
    else if tag == GET_NEXT then ProcessPdu(next, value, req, true)
    else Parsed(false, req)
  }

  /** An integer at the front: the type is checked before its bytes are taken. */
  datatype Field = NoField | WrongField | IntegerField(value: seq<byte>, rest: seq<byte>)

  function IntegerAt(b: seq<byte>): (r: Field)
    ensures r.IntegerField? ==> |r.rest| < |b|
  {
    if |b| < 2 then NoField
    else if b[0] != INTEGER then WrongField
    else if !HasElement(b) then NoField
    else IntegerField(Value(b), Rest(b))
  }

  function ProcessPdu(next: NextOid, b: seq<byte>, req: Request, getNext: bool): (r: Outcome)
    decreases |b|, 1
  {
    match IntegerAt(b)
    case NoField => Thrown
    case WrongField => Parsed(false, req)
    case IntegerField(id, b1) =>
      var req' := req.(reqId := IntegerFrom(id, 0));
      match IntegerAt(b1)
      case NoField => Thrown
      case WrongField => Parsed(false, req')
      case IntegerField(_, b2) =>
        match IntegerAt(b2)
        case NoField => Thrown
        case WrongField => Parsed(false, req')
        case IntegerField(_, b3) => BindList(next, b3, req', getNext)
  }

  function BindList(next: NextOid, b: seq<byte>, req: Request, getNext: bool): (r: Outcome)
    decreases |b|, 1
  {
    if |b| < 1 then Thrown
    else if b[0] != SEQUENCE then Parsed(false, req)
    else if |b| < 2 then Thrown
    else if b[1] == 0 then Parsed(true, req)
    else if !HasElement(b) then Thrown
    else Binds(next, Value(b), req, getNext)
  }

  /** The loop over the bindings; what the parser says of a single one is not looked at. */
  function Binds(next: NextOid, b: seq<byte>, req: Request, getNext: bool): (r: Outcome)
    decreases |b|, 1
  {
    if b == [] then Parsed(true, req)
    else if !HasElement(b) then Thrown
    else if b[0] != SEQUENCE then Parsed(false, req)
    else
      var r := ProcessBer(next, Value(b), req, BindContext(getNext));
      if r.Thrown? then r else Binds(next, Rest(b), r.req, getNext)
  }

  // --- the meaning of a tree of elements

  function Means(next: NextOid, es: seq<Elem>, req: Request, ctx: Context): (r: Outcome)
    decreases es, 1
  {
    if es == [] then Parsed(true, req)
    else
      var r := ElementMeans(next, es[0], req, ctx);
      if r.Thrown? || !r.ok then r else Means(next, es[1..], r.req, After(ctx, Tag(es[0])))
  }

  function ElementMeans(next: NextOid, e: Elem, req: Request, ctx: Context): (r: Outcome)
    decreases e, 2
  {
    match e
    case Integer(kind, v) => if kind == INTEGER then Parsed(true, WithInteger(req, ctx, v)) else Parsed(false, req)
    case Null => Parsed(true, req)
    case OctetString(bytes) => Parsed(true, WithString(req, ctx, bytes))
    case Oid(text) => Parsed(true, WithOid(req, ctx.getNext, next, text))
    case Sequence(tag, elems) =>
      if tag == SEQUENCE then Means(next, elems, req, Inside(ctx))
      else if tag == GET || tag == SET then PduMeans(next, elems, req, ctx.getNext)
      else if tag == GET_NEXT then PduMeans(next, elems, req, true)
      else Parsed(false, req)
  }

  predicate IsInteger(es: seq<Elem>, i: nat) {
    i < |es| && es[i].Integer? && es[i].kind == INTEGER
  }

  predicate IsList(e: Elem) {
    e.Sequence? && e.tag == SEQUENCE
  }

  /** Request id, error, error index and the list of bindings; anything after that is ignored. */
  function PduMeans(next: NextOid, es: seq<Elem>, req: Request, getNext: bool): (r: Outcome)
    decreases es, 1
  {
    if es == [] then Thrown
    else if !IsInteger(es, 0) then Parsed(false, req)
    else
      var req' := req.(reqId := es[0].v);
      if |es| == 1 then Thrown
      else if !IsInteger(es, 1) then Parsed(false, req')
      else if |es| == 2 then Thrown
      else if !IsInteger(es, 2) then Parsed(false, req')
      else if |es| == 3 then Thrown
      else if !IsList(es[3]) then Parsed(false, req')
      else BindsMean(next, es[3].elems, req', getNext)
  }

  function BindsMean(next: NextOid, es: seq<Elem>, req: Request, getNext: bool): (r: Outcome)
    decreases es, 1
  {
    if es == [] then Parsed(true, req)
    else if !IsList(es[0]) then Parsed(false, req)
    else
      var r := Means(next, es[0].elems, req, BindContext(getNext));
      if r.Thrown? then r else BindsMean(next, es[1..], r.req, getNext)
  }

  // --- parsing what was encoded

  /** The tags of the element classes, and OIDs that survive the wire (see `BerOid.OidRoundTripIff`). */
  predicate Good(e: Elem)
    decreases e
  {
    match e
    case Integer(kind, _) => kind == INTEGER || kind == COUNTER32 || kind == COUNTER64 || kind == TICKS
    case Oid(text) => BerOid.GetOid(BerOid.Encode(text)) == Some(text)
    case Sequence(tag, elems) => (tag == SEQUENCE || GET <= tag <= SET) && forall i :: 0 <= i < |elems| ==> Good(elems[i])
    case _ => true
  }

  predicate AllGood(es: seq<Elem>) {
    forall i :: 0 <= i < |es| ==> Good(es[i])
  }

  /** The bytes of a list of elements start with the first element. */
  lemma FirstElement(es: seq<Elem>)
    requires es != [] && |TlvAll(es)| <= 255
    ensures var b := TlvAll(es);
            HasElement(b) && b[0] == Tag(es[0]) && Value(b) == Contents(es[0]) && Rest(b) == TlvAll(es[1..]) &&
            b[1] == |Contents(es[0])| && |Contents(es[0])| <= 253 && |TlvAll(es[1..])| <= 255
  {
    hide Contents, Tag, TlvAll;
    TlvParts(es);
    var b, c, rest := TlvAll(es), Contents(es[0]), TlvAll(es[1..]);
    assert b == [Tag(es[0]), |c|] + c + rest;
  }

  /** On the bytes of well-typed elements the parser does what the elements mean. */
  lemma {:induction false} ParserMeans(next: NextOid, es: seq<Elem>, req: Request, ctx: Context)
    requires AllGood(es) && |TlvAll(es)| <= 255
    ensures ProcessBer(next, TlvAll(es), req, ctx) == Means(next, es, req, ctx)
    decreases es, 1
  {
    hide Contents, Tag, TlvAll, Element, ElementMeans, HasElement, Value, Rest, Good, After;
    if es == [] {
      NoBytes();
    } else {
      FirstElement(es);
      assert Good(es[0]);
      ElementAgrees(next, es[0], req, ctx);
      var r := ElementMeans(next, es[0], req, ctx);
      if r.Parsed? && r.ok {
        assert AllGood(es[1..]);
        ParserMeans(next, es[1..], r.req, After(ctx, Tag(es[0])));
      }
    }
  }

  lemma NoBytes()
    ensures TlvAll([]) == []
  {}

  lemma {:induction false} ElementAgrees(next: NextOid, e: Elem, req: Request, ctx: Context)
    requires Good(e) && |Contents(e)| <= 253
    ensures Element(next, Tag(e), Contents(e), req, ctx) == ElementMeans(next, e, req, ctx)
    decreases e, 0
  {
    hide TlvAll, BigEndian, BerOid.GetOid, BerOid.Encode, ProcessBer, ProcessPdu, Means, PduMeans, WithInteger, WithString, WithOid;
    match e
    case Integer(kind, v) =>
      IntegerRoundTrip(v);
    case Sequence(tag, elems) =>
      assert AllGood(elems);
      if tag == SEQUENCE {
        ParserMeans(next, elems, req, Inside(ctx));
      } else if tag != RESPONSE {
        PduAgrees(next, elems, req, tag == GET_NEXT || ctx.getNext);
      }
    case _ =>
  }

  lemma IntegerAtAgrees(es: seq<Elem>)
    requires AllGood(es) && |TlvAll(es)| <= 255
    ensures var f := IntegerAt(TlvAll(es));
            if es == [] then f == NoField
            else if IsInteger(es, 0) then f.IntegerField? && IntegerFrom(f.value, 0) == es[0].v && f.rest == TlvAll(es[1..])
            else f == WrongField
    ensures es != [] ==> |TlvAll(es[1..])| <= 255
  {
    hide TlvAll, HasElement, Value, Rest, BigEndian;
    if es == [] {
      NoBytes();
    } else {
      FirstElement(es);
      assert Good(es[0]);
      LongEnough(TlvAll(es));
      if es[0].Integer? { IntegerRoundTrip(es[0].v); }
    }
  }

  lemma LongEnough(b: seq<byte>)
    requires HasElement(b)
    ensures |b| >= 2
  {}

  lemma {:induction false} PduAgrees(next: NextOid, es: seq<Elem>, req: Request, getNext: bool)
    requires AllGood(es) && |TlvAll(es)| <= 255
    ensures ProcessPdu(next, TlvAll(es), req, getNext) == PduMeans(next, es, req, getNext)
    decreases es, 1
  {
    hide TlvAll, IntegerAt, BindList, BindsMean, IsList, IntegerFrom, Good;
    IntegerAtAgrees(es);
    if IsInteger(es, 0) {
      var e1 := es[1..];
      IntegerAtAgrees(e1);
      if IsInteger(e1, 0) {
        var e2 := e1[1..];
        assert e2 == es[2..];
        IntegerAtAgrees(e2);
        if IsInteger(e2, 0) {
          assert e2[1..] == es[3..];
          BindListAgrees(next, es, req.(reqId := es[0].v), getNext);
        }
      }
    }
  }

  lemma {:induction false} BindListAgrees(next: NextOid, es: seq<Elem>, req: Request, getNext: bool)
    requires |es| >= 3 && AllGood(es) && |TlvAll(es[3..])| <= 255
    ensures BindList(next, TlvAll(es[3..]), req, getNext) ==
            if |es| == 3 then Thrown else if !IsList(es[3]) then Parsed(false, req) else BindsMean(next, es[3].elems, req, getNext)
    decreases es, 0
  {
    hide TlvAll, HasElement, Value, Rest, Binds, BindsMean, BigEndian, BerOid.Encode, BerOid.GetOid;
    var list := es[3..];
    if list == [] {
      NoBytes();
    } else {
      FirstElement(list);
      LongEnough(TlvAll(list));
      assert Good(es[3]);
      if IsList(es[3]) {
        var inner := es[3].elems;
        assert AllGood(inner);
        if |TlvAll(inner)| == 0 {
          EmptyListIff(inner);
          NoBinds(next, req, getNext);
        } else {
          BindsAgree(next, inner, req, getNext);
        }
      }
    }
  }

  lemma EmptyListIff(es: seq<Elem>)
    ensures |TlvAll(es)| == 0 <==> es == []
  {
    hide Contents, Tag;
  }

  lemma NoBinds(next: NextOid, req: Request, getNext: bool)
    ensures BindsMean(next, [], req, getNext) == Parsed(true, req)
  {}

  lemma {:induction false} BindsAgree(next: NextOid, es: seq<Elem>, req: Request, getNext: bool)
    requires AllGood(es) && |TlvAll(es)| <= 255
    ensures Binds(next, TlvAll(es), req, getNext) == BindsMean(next, es, req, getNext)
    decreases es, 1
  {
    hide TlvAll, HasElement, Value, Rest, ProcessBer, Means, BigEndian, BerOid.Encode, BerOid.GetOid;
    if es == [] {
      NoBytes();
    } else {
      FirstElement(es);
      assert Good(es[0]);
      assert AllGood(es[1..]);
      if IsList(es[0]) {
        var inner := es[0].elems;
        assert AllGood(inner);
        ParserMeans(next, inner, req, BindContext(getNext));
        var r := Means(next, inner, req, BindContext(getNext));
        if r.Parsed? {
          BindsAgree(next, es[1..], r.req, getNext);
        }
      }
    }
  }
}

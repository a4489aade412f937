/** Whole SNMP requests: a message built with the encoder of `snmp_elem.cpp`, given to the parser of `snmp.cpp`. */
module SnmpMessage {
  import opened Bytes
  import opened OidText
  import opened BerElements
  import opened BerParser
  import BerOid

  /** A binding of a request: an OID and a null. */
  function Bind(oid: string): (r: Elem) {
    Sequence(SEQUENCE, [Oid(oid), Null])
  }

  function BindAll(oids: seq<string>): (r: seq<Elem>) {
    if oids == [] then [] else [Bind(oids[0])] + BindAll(oids[1..])
  }

  function Pdu(tag: byte, reqId: uint64, oids: seq<string>): (r: Elem) {
    Sequence(tag, [Integer(INTEGER, reqId), Integer(INTEGER, 0), Integer(INTEGER, 0), Sequence(SEQUENCE, BindAll(oids))])
  }

  function Message(version: uint64, community: seq<byte>, tag: byte, reqId: uint64, oids: seq<string>): (r: Elem) {
    Sequence(SEQUENCE, [Integer(INTEGER, version), OctetString(community), Pdu(tag, reqId, oids)])
  }

  /** The texts of OIDs below "1.3". */
  function Texts(paths: seq<Path>): (r: seq<string>) {
    if paths == [] then [] else [BerOid.Below13(paths[0])] + Texts(paths[1..])
  }

  /** Not empty, and every component below 2^31. */
  predicate Sendable(p: Path) {
    p != [] && BerOid.Small(p, 0x8000_0000)
  }

  /** The request after the OIDs have been taken up one after the other. */
  function Collect(next: NextOid, oids: seq<string>, req: Request, getNext: bool): (r: Request)
    decreases |oids|
  {
    if oids == [] then req else Collect(next, oids[1..], WithOid(req, getNext, next, oids[0]), getNext)
  }

  lemma {:induction false} BindsCollect(next: NextOid, oids: seq<string>, req: Request, getNext: bool)
    ensures BindsMean(next, BindAll(oids), req, getNext) == Parsed(true, Collect(next, oids, req, getNext))
    decreases |oids|
  {
    hide WithOid;
    if oids != [] {
      var es := BindAll(oids);
      var req1 := WithOid(req, getNext, next, oids[0]);
      OneBind(next, oids[0], req, getNext);
      assert es[0] == Bind(oids[0]) && es[1..] == BindAll(oids[1..]);
      BindsCollect(next, oids[1..], req1, getNext);
    }
  }

  lemma OneBind(next: NextOid, oid: string, req: Request, getNext: bool)
    ensures Means(next, Bind(oid).elems, req, BindContext(getNext)) == Parsed(true, WithOid(req, getNext, next, oid))
  {
    hide WithOid;
    var ctx, req1 := BindContext(getNext), WithOid(req, getNext, next, oid);
    var es := [Oid(oid), Null];
    assert es[1..] == [Null] && [Null][1..] == [];
    assert ElementMeans(next, es[0], req, ctx) == Parsed(true, req1);
    assert Means(next, [Null], req1, After(ctx, OBJECT_ID)) == Parsed(true, req1);
  }

  /** What the parser should make of a message. */
  function Expected(next: NextOid, version: uint64, community: seq<byte>, tag: byte, reqId: uint64, oids: seq<string>): (r: Outcome) {
    Parsed(true, Collect(next, oids, Request([], reqId, 0, 0, I32(version), community), tag == GET_NEXT))
  }

  lemma PduMeansCollect(next: NextOid, tag: byte, reqId: uint64, oids: seq<string>, req: Request, ctx: Context)
    requires (tag == GET || tag == GET_NEXT || tag == SET) && !ctx.getNext
    ensures ElementMeans(next, Pdu(tag, reqId, oids), req, ctx) == Parsed(true, Collect(next, oids, req.(reqId := reqId), tag == GET_NEXT))
  {
    hide BindsMean, BindAll, Collect;
    BindsCollect(next, oids, req.(reqId := reqId), tag == GET_NEXT);
  }

  lemma MessageMeans(next: NextOid, version: uint64, community: seq<byte>, tag: byte, reqId: uint64, oids: seq<string>)
    requires tag == GET || tag == GET_NEXT || tag == SET
    ensures Means(next, [Message(version, community, tag, reqId, oids)], EMPTY_REQUEST, Context(false, 2, true, true)) ==
            Expected(next, version, community, tag, reqId, oids)
  {
    hide PduMeans, BindsMean, BindAll, Collect, Pdu, I32;
    var outer, inner := Context(false, 2, true, true), Context(false, 1, true, true);
    var es := [Integer(INTEGER, version), OctetString(community), Pdu(tag, reqId, oids)];
    var req1 := EMPTY_REQUEST.(version := I32(version));
    var req2 := req1.(community := community);
    var ctx1 := After(inner, INTEGER);
    var ctx2 := After(ctx1, OCTET_STRING);
    assert es[1..] == [es[1], es[2]] && es[1..][1..] == [es[2]] && [es[2]][1..] == [];
    PduMeansCollect(next, tag, reqId, oids, req2, ctx2);
    var r := ElementMeans(next, es[2], req2, ctx2);
    assert Means(next, [es[2]], req2, ctx2) == r;
    assert Means(next, es[1..], req1, ctx1) == r;
    assert Means(next, es, EMPTY_REQUEST, inner) == r;
    var message := Message(version, community, tag, reqId, oids);
    assert [message][1..] == [];
    assert ElementMeans(next, message, EMPTY_REQUEST, outer) == r;
    assert r.ok;
  }

  lemma {:induction false} BindsGood(paths: seq<Path>)
    requires forall i :: 0 <= i < |paths| ==> Sendable(paths[i])
    ensures AllGood(BindAll(Texts(paths)))
    decreases |paths|
  {
    hide BerOid.GetOid, BerOid.Encode, BerOid.Below13;
    if paths != [] {
      var p := paths[0];
      BerOid.OidRoundTripIff(p);
      BindsGood(paths[1..]);
      var oid := BerOid.Below13(p);
      assert Good(Oid(oid));
      assert Good(Bind(oid));
      assert Texts(paths)[1..] == Texts(paths[1..]);
    }
  }

  lemma MessageGood(version: uint64, community: seq<byte>, tag: byte, reqId: uint64, paths: seq<Path>)
    requires (tag == GET || tag == GET_NEXT || tag == SET) && forall i :: 0 <= i < |paths| ==> Sendable(paths[i])
    ensures Good(Message(version, community, tag, reqId, Texts(paths)))
  {
    hide BindAll, Texts, Good;
    var oids := Texts(paths);
    BindsGood(paths);
    SequenceGood(SEQUENCE, BindAll(oids));
    IntegerGood(reqId);
    IntegerGood(0);
    SequenceGood(tag, Pdu(tag, reqId, oids).elems);
    IntegerGood(version);
    StringGood(community);
    SequenceGood(SEQUENCE, Message(version, community, tag, reqId, oids).elems);
  }

  lemma SequenceGood(tag: byte, es: seq<Elem>)
    requires AllGood(es) && (tag == SEQUENCE || GET <= tag <= SET)
    ensures Good(Sequence(tag, es))
  {}

  lemma IntegerGood(v: uint64)
    ensures Good(Integer(INTEGER, v))
  {}

  lemma StringGood(bytes: seq<byte>)
    ensures Good(OctetString(bytes))
  {}

  /**
   A GET, GET NEXT or SET request of at most 255 bytes for OIDs below "1.3": the parser gets from the encoder's bytes
   the version, the community, the request id and, in order, every OID or its successor.
   */
  lemma RequestRoundTrip(next: NextOid, version: uint64, community: seq<byte>, tag: byte, reqId: uint64, paths: seq<Path>, memory: seq<byte>)
    requires (tag == GET || tag == GET_NEXT || tag == SET) && |memory| == 258
    requires forall i :: 0 <= i < |paths| ==> Sendable(paths[i])
    requires Fits(Message(version, community, tag, reqId, Texts(paths)))
    ensures var bytes := Payload(Message(version, community, tag, reqId, Texts(paths)), memory);
            ProcessBer(next, bytes, EMPTY_REQUEST, Context(false, 2, true, true)) ==
            Expected(next, version, community, tag, reqId, Texts(paths))
  {
    hide Message, ProcessBer, Means, Expected, Payload, Contents, Good, Tag;
    var message := Message(version, community, tag, reqId, Texts(paths));
    MessageGood(version, community, tag, reqId, paths);
    PayloadIsTlv(message, memory);
    TlvParts([message]);
    assert [message][1..] == [];
    NoBytes();
    ParserMeans(next, [message], EMPTY_REQUEST, Context(false, 2, true, true));
    MessageMeans(next, version, community, tag, reqId, Texts(paths));
    assert TlvAll([message]) == Tlv(message);
  }

  /** GET and SET: exactly the OIDs asked for, in order. */
  lemma {:induction false} CollectKeepsOids(next: NextOid, oids: seq<string>, req: Request)
    ensures Collect(next, oids, req, false) == req.(oids := req.oids + oids)
    decreases |oids|
  {
    if oids == [] {
      assert req.oids + oids == req.oids;
    } else {
      CollectKeepsOids(next, oids[1..], req.(oids := req.oids + [oids[0]]));
      assert req.oids + [oids[0]] + oids[1..] == req.oids + oids;
    }
  }

  /** The successors of the OIDs that have one. */
  function Successors(next: NextOid, oids: seq<string>): (r: seq<string>) {
    if oids == [] then [] else (if next(oids[0]) == "" then [] else [next(oids[0])]) + Successors(next, oids[1..])
  }

  predicate SomeLast(next: NextOid, oids: seq<string>) {
    exists i :: 0 <= i < |oids| && next(oids[i]) == ""
  }

  /** GET NEXT: the successors in order, and the "no such name" error exactly when some OID has none. */
  lemma {:induction false} CollectTakesSuccessors(next: NextOid, oids: seq<string>, req: Request)
    ensures Collect(next, oids, req, true) ==
            (if SomeLast(next, oids) then req.(err := 2, errIdx := 1) else req).(oids := req.oids + Successors(next, oids))
    decreases |oids|
  {
    if oids == [] {
      assert req.oids + [] == req.oids;
    } else {
      var first, rest := next(oids[0]), oids[1..];
      assert SomeLast(next, oids) <==> first == "" || SomeLast(next, rest) by {
        if SomeLast(next, rest) {
          var i :| 0 <= i < |rest| && next(rest[i]) == "";
          assert oids[i + 1] == rest[i];
        }
        if SomeLast(next, oids) {
          var i :| 0 <= i < |oids| && next(oids[i]) == "";
          assert i > 0 ==> rest[i - 1] == oids[i];
        }
      }
      CollectTakesSuccessors(next, rest, WithOid(req, true, next, oids[0]));
      assert first != "" ==> req.oids + [first] + Successors(next, rest) == req.oids + Successors(next, oids);
      assert first == "" ==> Successors(next, oids) == Successors(next, rest);
    }
  }
}

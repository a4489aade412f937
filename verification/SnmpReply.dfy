/**
 The reply of the agent, `snmp::gen_reply`, and what a client makes of its bytes: one that takes a length as one byte, as the
 agent's own parser does, and one that follows section 8.1.3 of ITU-T X.690, where lengths from 128 on are written otherwise.
 */
module SnmpReply {
  import opened Bytes
  import opened OidText
  import opened BerElements
  import P = BerParser
  import BerOid

  // --- the reply

  /** The default community, "public", in ASCII. */
  const PUBLIC: seq<byte> := [112, 117, 98, 108, 105, 99]

  lemma PublicIsText()
    ensures |PUBLIC| == |"public"| && forall i :: 0 <= i < |PUBLIC| ==> PUBLIC[i] == "public"[i] as int
  {}

  /** A binding: the OID, and what was found for it (a null if nothing was). */
  function Bindings(oids: seq<string>, found: string -> Elem): (r: seq<Elem>) {
    if oids == [] then [] else [Sequence(SEQUENCE, [Oid(oids[0]), found(oids[0])])] + Bindings(oids[1..], found)
  }

  function Pdu(req: P.Request, found: string -> Elem): (r: Elem) {
    Sequence(RESPONSE, [Integer(INTEGER, req.reqId), Integer(INTEGER, U64(req.err)), Integer(INTEGER, U64(req.errIdx)),
                        Sequence(SEQUENCE, Bindings(req.oids, found))])
  }

  function Reply(req: P.Request, found: string -> Elem): (r: Elem) {
    Sequence(SEQUENCE, [Integer(INTEGER, U64(req.version)), OctetString(if req.community == [] then PUBLIC else req.community),
                        Pdu(req, found)])
  }

  // --- reading type, length and value

  datatype Node = Leaf(tag: byte, bytes: seq<byte>) | Branch(tag: byte, nodes: seq<Node>)

  predicate Constructed(tag: byte) {
    tag / 32 % 2 == 1
  }

  /** The sizes of header and value at the front; `standard` is whether lengths from 128 on have their own form. */
  function SizesAt(standard: bool, b: seq<byte>): (r: Option<(nat, nat)>)
    requires |b| >= 2
    ensures r.Some? ==> r.value.0 >= 2
  {
    if !standard || b[1] < 128 then Some((2, b[1]))
    else
      var k := b[1] - 128;
      if k == 0 || 2 + k > |b| then None else Some((2 + k, Unsigned(b[2..2 + k])))
  }

  function ReadAll(standard: bool, b: seq<byte>): (r: Option<seq<Node>>)
    decreases |b|, 1
  {
    if b == [] then Some([])
    else if |b| < 2 then None
    else
      var sizes := SizesAt(standard, b);
      if sizes.None? || sizes.value.0 + sizes.value.1 > |b| then None
      else
        var at, end := sizes.value.0, sizes.value.0 + sizes.value.1;
        var node, rest := ReadOne(standard, b[0], b[at..end]), ReadAll(standard, b[end..]);
        if node.None? || rest.None? then None else Some([node.value] + rest.value)
  }

  function ReadOne(standard: bool, tag: byte, value: seq<byte>): (r: Option<Node>)
    decreases |value|, 2
  {
    if !Constructed(tag) then Some(Leaf(tag, value))
    else
      var nodes := ReadAll(standard, value);
      if nodes.None? then None else Some(Branch(tag, nodes.value))
  }

  // --- a reader takes at least as many bytes as the nodes it finds need

  function Weight(n: Node): (r: nat)
    decreases n, 0
  {
    match n
    case Leaf(_, bytes) => 2 + |bytes|
    case Branch(_, nodes) => 2 + WeightAll(nodes)
  }

  function WeightAll(ns: seq<Node>): (r: nat)
    decreases ns
  {
    if ns == [] then 0 else Weight(ns[0]) + WeightAll(ns[1..])
  }

  lemma {:induction false} ReadAllWeighs(standard: bool, b: seq<byte>)
    requires ReadAll(standard, b).Some?
    ensures WeightAll(ReadAll(standard, b).value) <= |b|
    decreases |b|, 1
  {
    hide SizesAt, ReadOne, Weight;
    if b != [] {
      var sizes := SizesAt(standard, b).value;
      var at, end := sizes.0, sizes.0 + sizes.1;
      ReadOneWeighs(standard, b[0], b[at..end]);
      ReadAllWeighs(standard, b[end..]);
      var ns := ReadAll(standard, b).value;
      assert ns[1..] == ReadAll(standard, b[end..]).value;
    }
  }

  lemma {:induction false} ReadOneWeighs(standard: bool, tag: byte, value: seq<byte>)
    requires ReadOne(standard, tag, value).Some?
    ensures Weight(ReadOne(standard, tag, value).value) <= 2 + |value|
    decreases |value|, 2
  {
    hide ReadAll;
    if Constructed(tag) {
      ReadAllWeighs(standard, value);
    }
  }

  // --- the nodes of an element

  /** The tags of values and of sequences are told apart by their bit for it. */
  predicate Typed(e: Elem)
    decreases e
  {
    match e
    case Integer(kind, _) => !Constructed(kind)
    case Sequence(tag, elems) => Constructed(tag) && forall i :: 0 <= i < |elems| ==> Typed(elems[i])
    case _ => true
  }

  predicate AllTyped(es: seq<Elem>) {
    forall i :: 0 <= i < |es| ==> Typed(es[i])
  }

  function NodeOf(e: Elem): (r: Node)
    decreases e, 0
  {
    match e
    case Sequence(tag, elems) => Branch(tag, NodesOf(elems))
    case _ => Leaf(Tag(e), Contents(e))
  }

  function NodesOf(es: seq<Elem>): (r: seq<Node>)
    ensures |r| == |es|
    decreases es
  {
    if es == [] then [] else [NodeOf(es[0])] + NodesOf(es[1..])
  }

  lemma {:induction false} WeightOfNode(e: Elem)
    ensures Weight(NodeOf(e)) == 2 + |Contents(e)|
    decreases e, 0
  {
    hide BigEndian, BerOid.Encode;
    match e
    case Sequence(_, elems) => WeightOfNodes(elems);
    case _ =>
  }

  lemma {:induction false} WeightOfNodes(es: seq<Elem>)
    ensures WeightAll(NodesOf(es)) == |TlvAll(es)|
    decreases es
  {
    hide Contents, Tag, Weight, NodeOf;
    if es != [] {
      WeightOfNode(es[0]);
      WeightOfNodes(es[1..]);
      TlvParts(es);
      assert NodesOf(es)[1..] == NodesOf(es[1..]);
    }
  }

  /** The largest length that both sides take for the same. */
  function Limit(standard: bool): (r: nat) {
    if standard then 127 else 255
  }

  lemma {:induction false} ReadsElements(standard: bool, es: seq<Elem>)
    requires AllTyped(es) && |TlvAll(es)| <= Limit(standard)
    ensures ReadAll(standard, TlvAll(es)) == Some(NodesOf(es))
    decreases es, 1
  {
    hide TlvAll, Contents, Tag, ReadOne, NodeOf, Typed, P.Value, P.Rest, P.HasElement;
    if es == [] {
      P.NoBytes();
    } else {
      var b := TlvAll(es);
      P.FirstElement(es);
      ValueIs(b);
      assert Typed(es[0]) && AllTyped(es[1..]);
      TlvParts(es);
      ReadsElement(standard, es[0]);
      ReadsElements(standard, es[1..]);
    }
  }

  lemma ValueIs(b: seq<byte>)
    requires P.HasElement(b)
    ensures |b| >= 2 && 2 + b[1] <= |b| && P.Value(b) == b[2..2 + b[1]] && P.Rest(b) == b[2 + b[1]..]
  {}

  lemma {:induction false} ReadsElement(standard: bool, e: Elem)
    requires Typed(e) && |Contents(e)| <= Limit(standard)
    ensures ReadOne(standard, Tag(e), Contents(e)) == Some(NodeOf(e))
    decreases e, 0
  {
    hide TlvAll, BigEndian, BerOid.Encode, ReadAll;
    match e
    case Sequence(_, elems) =>
      assert AllTyped(elems);
      ReadsElements(standard, elems);
    case _ =>
  }

  // --- exactly which messages can be read

  /** Longer contents than 127 bytes announce, to a reader of the standard, a length of several bytes: none is read back. */
  lemma LongFormMisreads(e: Elem)
    requires 128 <= |Contents(e)| <= 253
    ensures ReadAll(true, Tlv(e)) != Some([NodeOf(e)])
  {
    hide Contents, Tag, ReadOne, NodeOf, Weight;
    var b, n := Tlv(e), |Contents(e)|;
    assert b[1] == n && |b| == 2 + n;
    WeightOfNode(e);
    if ReadAll(true, b) == Some([NodeOf(e)]) {
      SingleRead(true, b, NodeOf(e));
      var sizes := SizesAt(true, b).value;
      ReadOneWeighs(true, b[0], b[sizes.0..sizes.0 + sizes.1]);
    }
  }

  lemma SingleRead(standard: bool, b: seq<byte>, node: Node)
    requires |b| >= 2 && ReadAll(standard, b) == Some([node])
    ensures var sizes := SizesAt(standard, b);
            sizes.Some? && sizes.value.0 + sizes.value.1 == |b| &&
            ReadOne(standard, b[0], b[sizes.value.0..sizes.value.0 + sizes.value.1]) == Some(node)
  {
    hide SizesAt, ReadOne;
    var sizes := SizesAt(standard, b).value;
    var first := ReadOne(standard, b[0], b[sizes.0..sizes.0 + sizes.1]).value;
    var rest := ReadAll(standard, b[sizes.0 + sizes.1..]).value;
    assert ([first] + rest)[0] == first && |[first] + rest| == 1 + |rest|;
  }

  lemma OneWeight(n: Node)
    ensures WeightAll([n]) == Weight(n)
  {
    hide Weight;
    assert [n][1..] == [];
    assert WeightAll([n]) == Weight(n) + WeightAll([n][1..]);
  }

  /**
   The message as emitted is read back as the tree that was built exactly when its contents take at most 253 bytes, for
   a reader that takes a length as one byte, and at most 127 bytes for a reader of the standard.
   */
  lemma MessageReadsIff(standard: bool, e: Elem, memory: seq<byte>)
    requires e.Sequence? && Typed(e) && |memory| == 258
    ensures ReadAll(standard, Payload(e, memory)) == Some([NodeOf(e)]) <==> |Contents(e)| <= if standard then 127 else 253
  {
    hide Contents, Tag, ReadOne, NodeOf, Weight, Payload, Typed, SizesAt;
    var n := |Contents(e)|;
    if n > 253 {
      PayloadIsShort(e, memory);
      WeightOfNode(e);
      OneWeight(NodeOf(e));
      if ReadAll(standard, Payload(e, memory)) == Some([NodeOf(e)]) {
        ReadAllWeighs(standard, Payload(e, memory));
      }
    } else {
      PayloadIsTlv(e, memory);
      if standard && n > 127 {
        LongFormMisreads(e);
      } else {
        ReadsMessage(standard, e);
      }
    }
  }

  lemma PayloadIsShort(e: Elem, memory: seq<byte>)
    requires e.Sequence? && |memory| == 258
    ensures |Payload(e, memory)| <= 255
  {
    hide Pack;
  }

  lemma ReadsMessage(standard: bool, e: Elem)
    requires Typed(e) && |Contents(e)| <= if standard then 127 else 253
    ensures ReadAll(standard, Tlv(e)) == Some([NodeOf(e)])
  {
    hide Contents, Tag, ReadOne, NodeOf, Typed;
    var b, n := Tlv(e), |Contents(e)|;
    assert b[1] == n && b[2..2 + n] == Contents(e) && b[2 + n..] == [];
    ReadsElement(standard, e);
    assert [NodeOf(e)] + [] == [NodeOf(e)];
  }

  // --- what a client takes from a reply

  /** An OID and the node of its value. */
  datatype Binding = Binding(oid: Path, value: Node)

  datatype Answer = Answer(version: nat, community: seq<byte>, reqId: nat, err: nat, errIdx: nat, bindings: seq<Binding>)

  function ReadBindings(ns: seq<Node>): (r: Option<seq<Binding>>) {
    if ns == [] then Some([])
    else if ns[0].Branch? && ns[0].tag == SEQUENCE && |ns[0].nodes| == 2 && ns[0].nodes[0].Leaf? && ns[0].nodes[0].tag == OBJECT_ID then
      var oid, rest := BerOid.Denotes(ns[0].nodes[0].bytes), ReadBindings(ns[1..]);
      if oid.None? || rest.None? then None else Some([Binding(oid.value, ns[0].nodes[1])] + rest.value)
    else None
  }

  predicate IsInteger(n: Node) {
    n.Leaf? && n.tag == INTEGER
  }

  /** The message of section 3 of RFC 1901 with the PDU of section 3 of RFC 3416. */
  function AnswerOf(ns: seq<Node>): (r: Option<Answer>) {
    if |ns| == 1 && ns[0].Branch? && ns[0].tag == SEQUENCE && |ns[0].nodes| == 3 && IsInteger(ns[0].nodes[0])
       && ns[0].nodes[1].Leaf? && ns[0].nodes[1].tag == OCTET_STRING
    then PduAnswer(Unsigned(ns[0].nodes[0].bytes), ns[0].nodes[1].bytes, ns[0].nodes[2])
    else None
  }

  function PduAnswer(version: nat, community: seq<byte>, n: Node): (r: Option<Answer>) {
    if n.Branch? && n.tag == RESPONSE && |n.nodes| == 4 && IsInteger(n.nodes[0]) && IsInteger(n.nodes[1]) && IsInteger(n.nodes[2])
       && n.nodes[3].Branch? && n.nodes[3].tag == SEQUENCE then
      var bindings := ReadBindings(n.nodes[3].nodes);
      if bindings.None? then None
      else Some(Answer(version, community, Unsigned(n.nodes[0].bytes), Unsigned(n.nodes[1].bytes), Unsigned(n.nodes[2].bytes),
                       bindings.value))
    else None
  }

  /** The texts of OIDs below "1.3" whose components fit in 63 bits. */
  predicate TextsOf(oids: seq<string>, paths: seq<Path>)
    requires |oids| == |paths|
  {
    forall i :: 0 <= i < |oids| ==> BelowWith(paths[i], oids[i])
  }

  predicate BelowWith(p: Path, oid: string) {
    |p| > 2 && p[0] == 1 && p[1] == 3 && BerOid.Small(p[2..], BerOid.LLONG_MAX + 1) && oid == Dotted(p)
  }

  /** Each OID with what was found for it. */
  function Told(oids: seq<string>, paths: seq<Path>, found: string -> Elem): (r: seq<Binding>)
    requires |oids| == |paths|
  {
    seq(|oids|, i requires 0 <= i < |oids| => Binding(paths[i], NodeOf(found(oids[i]))))
  }

  lemma {:induction false} BindingsAnswer(oids: seq<string>, paths: seq<Path>, found: string -> Elem)
    requires |oids| == |paths| && TextsOf(oids, paths)
    ensures ReadBindings(NodesOf(Bindings(oids, found))) == Some(Told(oids, paths, found))
    decreases |oids|
  {
    hide BerOid.Denotes, BelowWith, NodeOf;
    if oids == [] {
      assert Told(oids, paths, found) == [];
    } else {
      assert BelowWith(paths[0], oids[0]);
      BindingsAnswer(oids[1..], paths[1..], found);
      var es := Bindings(oids, found);
      assert es[1..] == Bindings(oids[1..], found) && NodesOf(es)[1..] == NodesOf(es[1..]);
      OneBinding(oids[0], found(oids[0]));
      OidReads(paths[0], oids[0]);
      assert Told(oids, paths, found) == [Binding(paths[0], NodeOf(found(oids[0])))] + Told(oids[1..], paths[1..], found);
    }
  }

  lemma OidReads(p: Path, oid: string)
    requires BelowWith(p, oid)
    ensures BerOid.Denotes(BerOid.Encode(oid)) == Some(p)
  {
    hide BerOid.Encode, BerOid.Denotes, Dotted;
    BerOid.BelowIs(p);
    BerOid.EncodeDenotesIff(p[2..]);
    assert [1, 3] + p[2..] == p;
  }

  lemma OneBinding(oid: string, value: Elem)
    ensures var n := NodeOf(Sequence(SEQUENCE, [Oid(oid), value]));
            n.Branch? && n.tag == SEQUENCE && |n.nodes| == 2 && n.nodes[0] == Leaf(OBJECT_ID, BerOid.Encode(oid)) &&
            n.nodes[1] == NodeOf(value)
  {
    hide BerOid.Encode;
    var es := [Oid(oid), value];
    assert es[1..] == [value] && [value][1..] == [];
    assert NodesOf(es) == [NodeOf(es[0])] + NodesOf(es[1..]);
    assert NodesOf([value]) == [NodeOf(value)] + NodesOf([value][1..]);
  }

  lemma NumberReads(v: uint64)
    ensures Unsigned(BigEndian(v, IntegerLength(v))) == v
  {
    PowersOf256();
    BigEndianIff(BigEndian(v, IntegerLength(v)), v);
  }

  lemma IntegerNode(v: uint64)
    ensures var n := NodeOf(Integer(INTEGER, v)); IsInteger(n) && Unsigned(n.bytes) == v
  {
    hide BigEndian, Unsigned;
    NumberReads(v);
  }

  /** The answer that a reply is to give: the request id, the errors, and for each OID what was found. */
  function AnswerTo(req: P.Request, found: string -> Elem, paths: seq<Path>): (r: Answer)
    requires |req.oids| == |paths|
  {
    Answer(U64(req.version), if req.community == [] then PUBLIC else req.community, req.reqId, U64(req.err), U64(req.errIdx),
           Told(req.oids, paths, found))
  }

  /** A client that reads the tree of the reply gets the request id, the errors, and every OID with what was found for it. */
  lemma ReplyAnswers(req: P.Request, found: string -> Elem, paths: seq<Path>)
    requires |req.oids| == |paths| && TextsOf(req.oids, paths)
    ensures AnswerOf([NodeOf(Reply(req, found))]) == Some(AnswerTo(req, found, paths))
  {
    hide ReadBindings, Bindings, TextsOf, BigEndian, Unsigned, U64, Told, IsInteger;
    BindingsAnswer(req.oids, paths, found);
    var es := Pdu(req, found).elems;
    FourNodes(es[0], es[1], es[2], es[3]);
    IntegerNode(req.reqId);
    IntegerNode(U64(req.err));
    IntegerNode(U64(req.errIdx));
    var top := Reply(req, found).elems;
    ThreeNodes(top[0], top[1], top[2]);
    IntegerNode(U64(req.version));
  }

  lemma FourNodes(a: Elem, b: Elem, c: Elem, d: Elem)
    ensures NodesOf([a, b, c, d]) == [NodeOf(a), NodeOf(b), NodeOf(c), NodeOf(d)]
  {
    hide NodeOf;
    var es := [a, b, c, d];
    assert es[1..] == [b, c, d];
    ThreeNodes(b, c, d);
  }

  lemma ThreeNodes(a: Elem, b: Elem, c: Elem)
    ensures NodesOf([a, b, c]) == [NodeOf(a), NodeOf(b), NodeOf(c)]
  {
    hide NodeOf;
    var es := [a, b, c];
    assert es[1..] == [b, c] && [b, c][1..] == [c] && [c][1..] == [];
    assert NodesOf([c]) == [NodeOf(c)] + NodesOf([c][1..]);
    assert NodesOf([b, c]) == [NodeOf(b)] + NodesOf([b, c][1..]);
  }

  lemma {:induction false} BindingsTyped(oids: seq<string>, found: string -> Elem)
    requires forall oid :: Typed(found(oid))
    ensures AllTyped(Bindings(oids, found))
    decreases |oids|
  {
    if oids != [] {
      BindingsTyped(oids[1..], found);
      assert Typed(Sequence(SEQUENCE, [Oid(oids[0]), found(oids[0])]));
    }
  }

  lemma ReplyTyped(req: P.Request, found: string -> Elem)
    requires forall oid :: Typed(found(oid))
    ensures Typed(Reply(req, found))
  {
    hide Bindings;
    BindingsTyped(req.oids, found);
    assert Typed(Sequence(SEQUENCE, Bindings(req.oids, found)));
    assert Typed(Pdu(req, found));
  }

  /** What a client gets from the bytes of the reply. */
  function ClientGets(standard: bool, req: P.Request, found: string -> Elem, memory: seq<byte>): (r: Option<Answer>)
    requires |memory| == 258
  {
    var nodes := ReadAll(standard, Payload(Reply(req, found), memory));
    if nodes.None? then None else AnswerOf(nodes.value)
  }

  /** A reply within the limits reaches the client. */
  lemma ReplyReaches(standard: bool, req: P.Request, found: string -> Elem, memory: seq<byte>, paths: seq<Path>)
    requires |memory| == 258 && (forall oid :: Typed(found(oid))) && |req.oids| == |paths| && TextsOf(req.oids, paths)
    requires |Contents(Reply(req, found))| <= if standard then 127 else 253
    ensures ClientGets(standard, req, found, memory) == Some(AnswerTo(req, found, paths))
  {
    hide Reply, Payload, ReadAll, AnswerOf, AnswerTo, Typed, Contents, TextsOf;
    ReplyTyped(req, found);
    ReplyIsSequence(req, found);
    MessageReadsIff(standard, Reply(req, found), memory);
    ReplyAnswers(req, found, paths);
  }

  lemma ReplyIsSequence(req: P.Request, found: string -> Elem)
    ensures Reply(req, found).Sequence?
  {}

  // --- values

  /** The elements that registered data can give: `snmp_data_type::get_data` and its overrides; OIDs are those below "1.3". */
  ghost predicate IsValue(e: Elem) {
    match e
    case Integer(kind, _) => kind == INTEGER || kind == COUNTER32 || kind == COUNTER64 || kind == TICKS
    case Null => true
    case OctetString(_) => true
    case Oid(text) => exists p :: BelowWith(p, text)
    case Sequence(_, _) => false
  }

  /** A value read from its node, by the tags of section 2 of RFC 2578. */
  function ValueAt(n: Node): (r: Option<Elem>) {
    if n.Branch? then None
    else if n.tag in {0x02, 0x41, 0x43, 0x46} then
      var v := Unsigned(n.bytes);
      if v < TWO64 then Some(Integer(n.tag, v)) else None
    else if n.tag == 0x04 then Some(OctetString(n.bytes))
    else if n.tag == 0x05 then if n.bytes == [] then Some(Null) else None
    else if n.tag == 0x06 then
      var p := BerOid.Denotes(n.bytes);
      if p.None? then None else Some(Oid(Dotted(p.value)))
    else None
  }

  /** Every value comes back from its node. */
  lemma ValueReadsBack(e: Elem)
    requires IsValue(e)
    ensures Typed(e) && ValueAt(NodeOf(e)) == Some(e)
  {
    hide BigEndian, Unsigned, BerOid.Encode, BerOid.Denotes, Dotted;
    match e
    case Integer(_, v) => NumberReads(v);
    case Oid(text) =>
      var p :| BelowWith(p, text);
      OidReads(p, text);
    case _ =>
  }

  /** The number that bytes stand for in two's complement (section 8.3 of ITU-T X.690). */
  function Signed(b: seq<byte>): (r: int) {
    if b != [] && b[0] >= 128 then Unsigned(b) - Power256(|b|) else Unsigned(b)
  }

  /**
   A reader that takes the contents of an integer for two's complement, as the standard has it, gets the number exactly
   when it is below 2^31, or needs eight bytes and is below 2^63: others show as negative.
   */
  lemma SignedReadsIff(v: uint64)
    ensures Signed(BigEndian(v, IntegerLength(v))) == v <==> v < 0x8000_0000 || 0x1_0000_0000 <= v < 0x8000_0000_0000_0000
  {
    hide BigEndian, Unsigned;
    NumberReads(v);
    var n := IntegerLength(v);
    PowersOf256();
    ByteOf(v, n, 0);
    assert Power256(4) == 256 * Power256(3) && Power256(8) == 256 * Power256(7);
    assert Power256(7) == 0x100_0000_0000_0000;
  }
}

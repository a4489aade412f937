/**
 The agent as a client sees it: GET and GET NEXT messages, encoded, parsed and answered from the tree of registered OIDs. A GET
 is told the value of every OID it names; asking on with each answer to a GET NEXT walks all of them.
 */
module SnmpAgent {
  import opened Bytes
  import opened OidText
  import opened OidTree
  import opened SnmpData
  import opened SnmpWalk
  import opened SnmpLookup
  import E = BerElements
  import P = BerParser
  import M = SnmpMessage
  import R = SnmpReply
  import BerOid

  /** What stays the same in the messages of a client, and how it reads lengths. */
  datatype Client = Client(version: uint64, community: seq<byte>, reqId: uint64, memory: seq<byte>, standard: bool)

  /** The search of the agent, for the parser. */
  ghost function NextIn(t: Tree): (r: P.NextOid) {
    oid => if WellFormed(t) then Search(t, oid) else ""
  }

  function Question(c: Client, oid: string): (r: E.Elem) {
    M.Message(c.version, c.community, E.GET_NEXT, c.reqId, [oid])
  }

  /** What the agent makes of a GET NEXT message for `oid`. */
  ghost function Ask(t: Tree, c: Client, oid: string): (r: P.Outcome)
    requires |c.memory| == 258
  {
    P.ProcessBer(NextIn(t), E.Payload(Question(c, oid), c.memory), P.EMPTY_REQUEST, P.Context(false, 2, true, true))
  }

  /** An OID below "1.3" that survives the wire, in a message of at most 255 bytes. */
  predicate Askable(c: Client, q: Path) {
    |c.memory| == 258 && |q| > 2 && q[0] == 1 && q[1] == 3 && BerOid.Small(q[2..], 0x8000_0000) && E.Fits(Question(c, Dotted(q)))
  }

  /** The request as the agent should understand it: with the next OID, or the error "no such name". */
  function Understood(c: Client, next: Option<Path>): (r: P.Request) {
    P.Request(if next.Some? then [Dotted(next.value)] else [], c.reqId, if next.Some? then 0 else 2, if next.Some? then 0 else 1,
              P.I32(c.version), c.community)
  }

  /** A GET NEXT for the OID of a node is understood as a question for its successor. */
  lemma AskAnswers(t: Tree, c: Client, q: Path, next: Option<Path>)
    requires WellFormed(t) && q in t && Askable(c, q) && Successor(t, q, next) && (next.Some? ==> next.value != [])
    ensures Ask(t, c, Dotted(q)) == P.Parsed(true, Understood(c, next))
  {
    hide WellFormed, Dotted, Successor, Search, P.ProcessBer, E.Payload, M.Message, E.Fits;
    var p: Path, oid := q[2..], Dotted(q);
    BelowText(q);
    OneText(p);
    M.RequestRoundTrip(NextIn(t), c.version, c.community, E.GET_NEXT, c.reqId, [p], c.memory);
    SearchOfNode(t, q, next);
    NotEmptyText(next);
    var req := P.Request([], c.reqId, 0, 0, P.I32(c.version), c.community);
    OneCollected(NextIn(t), oid, req);
    assert [] + [Search(t, oid)] == [Search(t, oid)];
  }

  /** What the client hears: the answer in the bytes of the reply. */
  ghost function Hear(t: Tree, elements: Elements, c: Client, asked: P.Outcome): (r: Option<R.Answer>)
    requires |c.memory| == 258
  {
    if asked.Parsed? && asked.ok then R.ClientGets(c.standard, asked.req, LookupIn(t, elements), c.memory) else None
  }

  /** The reply to a request can be read by the client (see `SnmpReply.MessageReadsIff`). */
  ghost predicate Readable(t: Tree, elements: Elements, c: Client, req: P.Request) {
    |E.Contents(R.Reply(req, LookupIn(t, elements)))| <= if c.standard then 127 else 253
  }

  /** The reply that names `next` can be read. */
  ghost predicate Answerable(t: Tree, elements: Elements, c: Client, next: Option<Path>) {
    Readable(t, elements, c, Understood(c, next))
  }

  /** An answer with these OIDs and what they ask for. */
  function Answered(t: Tree, elements: Elements, c: Client, err: nat, errIdx: nat, paths: seq<Path>): (r: R.Answer) {
    R.Answer(U64(P.I32(c.version)), if c.community == [] then R.PUBLIC else c.community, c.reqId, err, errIdx,
             seq(|paths|, i requires 0 <= i < |paths| => R.Binding(paths[i], R.NodeOf(ValueOf(t, elements, paths[i])))))
  }

  /** The next OID with its value, or the error. */
  function AnswerFor(t: Tree, elements: Elements, c: Client, next: Option<Path>): (r: R.Answer) {
    if next.Some? then Answered(t, elements, c, 0, 0, [next.value]) else Answered(t, elements, c, 2, 1, [])
  }

  /** The reply to a request with these OIDs tells what they ask for. */
  lemma HearsRequest(t: Tree, elements: Elements, c: Client, req: P.Request, paths: seq<Path>)
    requires |c.memory| == 258 && AllValues(elements) && |req.oids| == |paths| && R.TextsOf(req.oids, paths)
    requires Readable(t, elements, c, req) && 0 <= req.err < TWO64 && 0 <= req.errIdx < TWO64
    requires req.version == P.I32(c.version) && req.community == c.community && req.reqId == c.reqId
    ensures Hear(t, elements, c, P.Parsed(true, req)) == Some(Answered(t, elements, c, req.err, req.errIdx, paths))
  {
    hide R.ClientGets, R.Reply, E.Contents, Lookup, ValueOf, R.NodeOf, R.BelowWith, AllValues, P.I32;
    FoundIsTyped(t, elements);
    R.ReplyReaches(c.standard, req, LookupIn(t, elements), c.memory, paths);
    forall i | 0 <= i < |paths| ensures LookupIn(t, elements)(req.oids[i]) == ValueOf(t, elements, paths[i]) {
      assert R.BelowWith(paths[i], req.oids[i]);
      TextBelow(paths[i], req.oids[i]);
      LookupIs(t, elements, paths[i]);
    }
    assert R.AnswerTo(req, LookupIn(t, elements), paths) == Answered(t, elements, c, req.err, req.errIdx, paths);
  }

  lemma TextBelow(p: Path, oid: string)
    requires R.BelowWith(p, oid)
    ensures oid == Dotted(p)
  {}

  /** The client hears the successor of the node it asks for. */
  lemma HearsSuccessor(t: Tree, elements: Elements, c: Client, q: Path, next: Option<Path>)
    requires WellFormed(t) && q in t && Askable(c, q) && Successor(t, q, next) && (next.Some? ==> Askable(c, next.value))
    requires AllValues(elements) && Answerable(t, elements, c, next)
    ensures Hear(t, elements, c, Ask(t, c, Dotted(q))) == Some(AnswerFor(t, elements, c, next))
  {
    hide WellFormed, Dotted, Successor, Hear, Ask, E.Fits, Readable, Answered, AllValues;
    AskAnswers(t, c, q, next);
    var paths := if next.Some? then [next.value] else [];
    if next.Some? { SmallerBound(next.value[2..]); }
    HearsRequest(t, elements, c, Understood(c, next), paths);
  }

  // --- GET

  /** OIDs below "1.3". */
  function Below(rests: seq<Path>): (r: seq<Path>) {
    seq(|rests|, i requires 0 <= i < |rests| => [1, 3] + rests[i])
  }

  /** What the agent makes of a GET message. */
  ghost function AskGet(t: Tree, c: Client, rests: seq<Path>): (r: P.Outcome)
    requires |c.memory| == 258
  {
    P.ProcessBer(NextIn(t), E.Payload(M.Message(c.version, c.community, E.GET, c.reqId, M.Texts(rests)), c.memory),
                 P.EMPTY_REQUEST, P.Context(false, 2, true, true))
  }

  function UnderstoodGet(c: Client, rests: seq<Path>): (r: P.Request) {
    P.Request(M.Texts(rests), c.reqId, 0, 0, P.I32(c.version), c.community)
  }

  lemma {:induction false} TextsAreBelow(rests: seq<Path>)
    requires forall i :: 0 <= i < |rests| ==> M.Sendable(rests[i])
    ensures |M.Texts(rests)| == |rests| && R.TextsOf(M.Texts(rests), Below(rests))
    decreases |rests|
  {
    hide Dotted;
    if rests != [] {
      TextsAreBelow(rests[1..]);
      SmallerBound(rests[0]);
      assert R.BelowWith([1, 3] + rests[0], M.Texts(rests)[0]) by {
        assert ([1, 3] + rests[0])[2..] == rests[0];
      }
      forall i | 1 <= i < |rests| ensures R.BelowWith(Below(rests)[i], M.Texts(rests)[i]) {
        assert R.BelowWith(Below(rests[1..])[i - 1], M.Texts(rests[1..])[i - 1]);
      }
    }
  }

  /**
   A client that asks for OIDs below "1.3" hears each of them with the element registered for it, or for its parent if it
   ends in ".0" and is no node, and otherwise with a null; it can read those values.
   */
  lemma GetHears(t: Tree, elements: Elements, c: Client, rests: seq<Path>)
    requires |c.memory| == 258 && AllValues(elements) && forall i :: 0 <= i < |rests| ==> M.Sendable(rests[i])
    requires E.Fits(M.Message(c.version, c.community, E.GET, c.reqId, M.Texts(rests)))
    requires Readable(t, elements, c, UnderstoodGet(c, rests))
    ensures Hear(t, elements, c, AskGet(t, c, rests)) == Some(Answered(t, elements, c, 0, 0, Below(rests)))
    ensures forall q :: R.ValueAt(R.NodeOf(ValueOf(t, elements, q))) == Some(ValueOf(t, elements, q))
  {
    hide M.Message, P.ProcessBer, E.Payload, E.Fits, Readable, Hear, Answered, AllValues, M.Sendable, ValueOf, R.ValueAt, R.NodeOf;
    var oids := M.Texts(rests);
    var req := P.Request([], c.reqId, 0, 0, P.I32(c.version), c.community);
    M.RequestRoundTrip(NextIn(t), c.version, c.community, E.GET, c.reqId, rests, c.memory);
    M.CollectKeepsOids(NextIn(t), oids, req);
    assert [] + oids == oids;
    TextsAreBelow(rests);
    HearsRequest(t, elements, c, UnderstoodGet(c, rests), Below(rests));
    forall q ensures R.ValueAt(R.NodeOf(ValueOf(t, elements, q))) == Some(ValueOf(t, elements, q)) {
      ValueOfReadsBack(t, elements, q);
    }
  }

  lemma SmallerBound(p: Path)
    requires BerOid.Small(p, 0x8000_0000)
    ensures BerOid.Small(p, BerOid.LLONG_MAX + 1)
  {}

  lemma OneCollected(next: P.NextOid, oid: string, req: P.Request)
    ensures M.Collect(next, [oid], req, true) == P.WithOid(req, true, next, oid)
  {
    hide P.WithOid;
    var oids: seq<string> := [oid];
    assert oids[1..] == [];
    assert M.Collect(next, oids, req, true) == M.Collect(next, oids[1..], P.WithOid(req, true, next, oid), true);
  }

  lemma OneText(p: Path)
    ensures M.Texts([p]) == [BerOid.Below13(p)]
  {
    var paths: seq<Path> := [p];
    assert paths[1..] == [];
    assert M.Texts(paths) == [BerOid.Below13(p)] + M.Texts(paths[1..]);
  }

  lemma BelowText(q: Path)
    requires |q| > 2 && q[0] == 1 && q[1] == 3
    ensures Dotted(q) == BerOid.Below13(q[2..])
  {
    hide Dotted;
    assert q == [1, 3] + q[2..];
  }

  lemma NotEmptyText(next: Option<Path>)
    requires next.Some? ==> next.value != []
    ensures next.Some? ==> Dotted(next.value) != []
  {}

  lemma SearchOfNode(t: Tree, q: Path, next: Option<Path>)
    requires WellFormed(t) && q in t && q != [] && Successor(t, q, next)
    ensures Search(t, Dotted(q)) == if next.Some? then Dotted(next.value) else []
  {
    hide WellFormed, Dotted, Successor, Stopped, Search;
    NodeStops(t, q);
    SearchIs(t, Dotted(q), q, next);
  }

  lemma NodeStops(t: Tree, q: Path)
    requires q in t
    ensures Stopped(t, Split(Dotted(q)), q)
  {
    hide Dotted, Split;
    SplitDotted(q);
    assert Parts(q)[..|q|] == Parts(q);
  }

  // --- asking on

  /** `w` are the OIDs that the client hears, with their values, each asked for with the one before, until the error. */
  ghost predicate MessageWalk(t: Tree, elements: Elements, c: Client, start: Path, w: seq<Path>)
    requires |c.memory| == 258
    decreases |w|
  {
    if w == [] then Hear(t, elements, c, Ask(t, c, Dotted(start))) == Some(AnswerFor(t, elements, c, None))
    else Hear(t, elements, c, Ask(t, c, Dotted(start))) == Some(AnswerFor(t, elements, c, Some(w[0]))) &&
         MessageWalk(t, elements, c, w[0], w[1..])
  }

  /** Question and reply for this OID fit their messages. */
  ghost predicate Speakable(t: Tree, elements: Elements, c: Client, q: Path) {
    Askable(c, q) && Answerable(t, elements, c, Some(q))
  }

  lemma {:induction false} WalkByMessages(t: Tree, elements: Elements, c: Client, start: Path, w: seq<Path>)
    requires WellFormed(t) && start in t && IsWalk(t, start, w) && |c.memory| == 258 && AllValues(elements)
    requires Askable(c, start) && Answerable(t, elements, c, None) && forall i :: 0 <= i < |w| ==> Speakable(t, elements, c, w[i])
    ensures MessageWalk(t, elements, c, start, w)
    decreases |w|
  {
    hide WellFormed, Hear, Ask, Askable, Answerable, Less, AllValues, AnswerFor;
    if w == [] {
      HearsSuccessor(t, elements, c, start, None);
    } else {
      assert Speakable(t, elements, c, w[0]);
      HearsSuccessor(t, elements, c, start, Some(w[0]));
      assert forall i :: 0 <= i < |w[1..]| ==> w[1..][i] == w[i + 1];
      WalkByMessages(t, elements, c, w[0], w[1..]);
    }
  }

  lemma {:induction false} WalkExists(t: Tree, q: Path) returns (w: seq<Path>)
    requires WellFormed(t) && q in t && q != []
    ensures IsWalk(t, q, w)
    decreases |Later(t, q)|
  {
    hide WellFormed, Less;
    var next := SuccessorExists(t, q);
    if next.None? {
      w := [];
    } else {
      LaterShrinks(t, q, next.value);
      var rest := WalkExists(t, next.value);
      w := [next.value] + rest;
    }
  }

  /**
   A client that starts at a node above all registered OIDs and asks on with every OID it reads in a reply gets all of
   them with their elements, each once, in ascending order, and then the error.
   */
  lemma GetNextWalks(t: Tree, elements: Elements, c: Client, oids: set<Path>, q: Path) returns (w: seq<Path>)
    requires Holds(t, oids) && [] !in oids && PrefixFree(oids) && q in t && q != [] && AllValues(elements) && oids <= elements.Keys
    requires forall m :: m in oids ==> q <= m && q != m && Speakable(t, elements, c, m)
    requires Askable(c, q) && Answerable(t, elements, c, None)
    ensures |c.memory| == 258 && MessageWalk(t, elements, c, q, w)
    ensures forall i, j :: 0 <= i < j < |w| ==> Less(w[i], w[j])
    ensures forall m :: m in w <==> m in oids
    ensures forall m :: m in w ==> ValueOf(t, elements, m) == elements[m] && R.ValueAt(R.NodeOf(elements[m])) == Some(elements[m])
  {
    hide WellFormed, Less, PrefixFree, IsWalk, MessageWalk, Askable, Answerable, Speakable, R.IsValue, R.ValueAt, R.NodeOf;
    w := WalkExists(t, q);
    WalkFromAbove(t, oids, q, w);
    MemoryOf(c, q);
    WalkByMessages(t, elements, c, q, w);
    forall m | m in w ensures ValueOf(t, elements, m) == elements[m] && R.ValueAt(R.NodeOf(elements[m])) == Some(elements[m]) {
      R.ValueReadsBack(elements[m]);
    }
  }

  lemma MemoryOf(c: Client, q: Path)
    requires Askable(c, q)
    ensures |c.memory| == 258
  {}
}

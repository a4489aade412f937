/**
 What `gen_reply` finds for an OID: the element of its node, or of its parent's when it ends in ".0" and is no node itself; and
 the reply that is made of what was found.
 */
module SnmpLookup {
  import opened Bytes
  import opened OidText
  import opened OidTree
  import opened SnmpData
  import E = BerElements
  import P = BerParser
  import R = SnmpReply

  type Elements = map<Path, E.Elem>

  /** The element that was registered at a node; a null for one that was just passed through. */
  function ElementAt(elements: Elements, p: Path): (r: E.Elem) {
    if p in elements then elements[p] else E.Null
  }

  ghost predicate Names(t: Tree, oid: string, p: Path) {
    p != [] && p in t && Dotted(p) == oid
  }

  /** `find_by_oid`, for any text. */
  ghost function Find(t: Tree, elements: Elements, oid: string): (r: Option<E.Elem>) {
    if exists p :: Names(t, oid, p) then
      var p :| Names(t, oid, p);
      Some(ElementAt(elements, p))
    else None
  }

  /** The text in front of the last dot, if just a zero follows it. */
  function WithoutZero(oid: string): (r: Option<string>) {
    if |oid| >= 2 && oid[|oid| - 2..] == ".0" then Some(oid[..|oid| - 2]) else None
  }

  ghost function Lookup(t: Tree, elements: Elements, oid: string): (r: E.Elem) {
    var first := Find(t, elements, oid);
    if first.Some? then first.value
    else if WithoutZero(oid).None? then E.Null
    else
      var second := Find(t, elements, WithoutZero(oid).value);
      if second.Some? then second.value else E.Null
  }

  ghost function LookupIn(t: Tree, elements: Elements): (r: string -> E.Elem) {
    oid => Lookup(t, elements, oid)
  }

  // --- in terms of components

  /** What is asked for by an OID: a node, or the only instance, number 0, of a node that has no child 0. */
  function ValueOf(t: Tree, elements: Elements, q: Path): (r: E.Elem) {
    if q in t && q != [] then ElementAt(elements, q)
    else if |q| > 1 && Last(q) == 0 && Parent(q) in t then ElementAt(elements, Parent(q))
    else E.Null
  }

  lemma FindIs(t: Tree, elements: Elements, q: Path)
    ensures Find(t, elements, Dotted(q)) == if q in t && q != [] then Some(ElementAt(elements, q)) else None
  {
    hide Dotted;
    forall p | Names(t, Dotted(q), p) ensures p == q {
      DottedInjective(p, q);
    }
    assert q in t && q != [] ==> Names(t, Dotted(q), q);
  }

  lemma WithoutZeroIs(q: Path)
    ensures WithoutZero(Dotted(q)) == if |q| > 1 && Last(q) == 0 then Some(Dotted(Parent(q))) else None
  {
    var s := Dotted(q);
    if |q| == 1 {
      DecimalIsDigits(q[0]);
      assert |s| >= 2 ==> s[|s| - 2..][0] == s[|s| - 2];
    } else if |q| > 1 {
      EndsInZeroIff(Dotted(Parent(q)), Last(q));
    }
  }

  lemma EndsInZeroIff(front: string, c: nat)
    ensures WithoutZero(front + "." + Decimal(c)) == if c == 0 then Some(front) else None
  {
    var d := Decimal(c);
    var s := front + "." + d;
    if c == 0 {
      assert d == "0";
      assert s[|s| - 2..] == ".0" && s[..|s| - 2] == front;
    } else {
      DecimalIsDigits(c);
      hide Decimal, DigitChar;
      assert s[|s| - 2..][0] == s[|s| - 2] && s[|s| - 2..][1] == s[|s| - 1] == d[|d| - 1];
      if |d| == 1 {
        assert d == "0" ==> AtoiFrom(d, 0) == AtoiFrom(d[1..], 0);
        AtoiDecimal(c);
      } else {
        assert s[|s| - 2] == d[|d| - 2];
      }
    }
  }

  /** The lookup by text finds what the components ask for. */
  lemma LookupIs(t: Tree, elements: Elements, q: Path)
    ensures Lookup(t, elements, Dotted(q)) == ValueOf(t, elements, q)
  {
    hide Find, WithoutZero, Dotted, ElementAt;
    FindIs(t, elements, q);
    WithoutZeroIs(q);
    if |q| > 1 && Last(q) == 0 {
      FindIs(t, elements, Parent(q));
    }
  }

  // --- the code

  method FindValue(data: SnmpData<E.Elem>, oid: string) returns (value: Option<E.Elem>)
    requires data.Valid()
    ensures value == Find(data.tree, data.elements, oid)
  {
    hide Dotted, WellFormed;
    var found, e := data.FindByOid(oid);
    if !found {
      assert forall p :: !Names(data.tree, oid, p);
      return None;
    }
    ghost var p :| p != [] && p in data.tree && Dotted(p) == oid;
    assert Names(data.tree, oid, p);
    value := Some(if e.Some? then e.value else E.Null);
  }

  /** Looked up once more without the zero if there is no such node. */
  method FindElement(data: SnmpData<E.Elem>, oid: string) returns (element: E.Elem)
    requires data.Valid()
    ensures element == Lookup(data.tree, data.elements, oid)
  {
    hide Find, WithoutZero;
    var value := FindValue(data, oid);
    var shorter := WithoutZero(oid);
    if value.None? && shorter.Some? {
      value := FindValue(data, shorter.value);
    }
    element := if value.Some? then value.value else E.Null;
  }

  /** The loop over the OIDs of the request. */
  method GenBindings(data: SnmpData<E.Elem>, oids: seq<string>) returns (bindings: seq<E.Elem>)
    requires data.Valid()
    ensures bindings == R.Bindings(oids, LookupIn(data.tree, data.elements))
  {
    hide Lookup, R.Bindings, WellFormed;
    ghost var found := LookupIn(data.tree, data.elements);
    bindings := [];
    assert oids[0..] == oids;
    for i := 0 to |oids|
      invariant bindings + R.Bindings(oids[i..], found) == R.Bindings(oids, found)
    {
      var element := FindElement(data, oids[i]);
      BindingsStep(oids, i, found);
      bindings := bindings + [E.Sequence(E.SEQUENCE, [E.Oid(oids[i]), element])];
    }
    assert oids[|oids|..] == [];
    NoBindings(found);
  }

  method GenReply(data: SnmpData<E.Elem>, req: P.Request) returns (reply: E.Elem)
    requires data.Valid()
    ensures reply == R.Reply(req, LookupIn(data.tree, data.elements))
  {
    hide Lookup, LookupIn, R.Bindings, WellFormed, U64;
    var community := if req.community == [] then R.PUBLIC else req.community;
    var bindings := GenBindings(data, req.oids);
    var pdu := E.Sequence(E.RESPONSE, [E.Integer(E.INTEGER, req.reqId), E.Integer(E.INTEGER, U64(req.err)),
                                       E.Integer(E.INTEGER, U64(req.errIdx)), E.Sequence(E.SEQUENCE, bindings)]);
    reply := E.Sequence(E.SEQUENCE, [E.Integer(E.INTEGER, U64(req.version)), E.OctetString(community), pdu]);
  }

  lemma NoBindings(found: string -> E.Elem)
    ensures R.Bindings([], found) == []
  {}

  lemma BindingsStep(oids: seq<string>, i: nat, found: string -> E.Elem)
    requires i < |oids|
    ensures R.Bindings(oids[i..], found) ==
            [E.Sequence(E.SEQUENCE, [E.Oid(oids[i]), found(oids[i])])] + R.Bindings(oids[i + 1..], found)
  {
    assert oids[i..][0] == oids[i] && oids[i..][1..] == oids[i + 1..];
  }

  // --- what is found can be told apart

  ghost predicate AllValues(elements: Elements) {
    forall p :: p in elements ==> R.IsValue(elements[p])
  }

  lemma FoundIsTyped(t: Tree, elements: Elements)
    requires AllValues(elements)
    ensures forall oid :: R.Typed(LookupIn(t, elements)(oid))
  {
    hide R.IsValue, Names;
    forall p ensures R.Typed(ElementAt(elements, p)) {
      if p in elements {
        R.ValueReadsBack(elements[p]);
      }
    }
  }

  /** A client can read what an OID asks for. */
  lemma ValueOfReadsBack(t: Tree, elements: Elements, q: Path)
    requires AllValues(elements)
    ensures R.ValueAt(R.NodeOf(ValueOf(t, elements, q))) == Some(ValueOf(t, elements, q))
  {
    hide R.ValueAt, R.NodeOf;
    R.ValueReadsBack(ValueOf(t, elements, q));
  }
}

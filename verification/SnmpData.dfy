/**
 `snmp_data`: registration of OIDs, lookup, and the search for the next OID. Pointers to nodes are
 modelled by the paths of the nodes, which are unique.
 */
module SnmpData {
  import opened Bytes
  import opened OidText
  import opened OidTree

  /** `cur_oid` after the next part. */
  function Extend(cur: string, part: string): string {
    if cur == [] then part else cur + "." + part
  }

  lemma ExtendDotted(p: Path, c: nat, part: string)
    ensures Extend(Dotted(p), part) == Dotted(p + [c]) <==> part == Decimal(c)
  {
    if p == [] {
      assert p + [c] == [c];
    } else {
      assert (p + [c])[..|p + [c]| - 1] == p;
      assert Dotted(p + [c]) == Dotted(p) + "." + Decimal(c);
      if Extend(Dotted(p), part) == Dotted(p + [c]) {
        var k := |Dotted(p)| + 1;
        assert (Dotted(p) + "." + part)[k..] == part && (Dotted(p) + "." + Decimal(c))[k..] == Decimal(c);
      }
    }
  }

  // --- set_tree_data

  /** The text after the last dot, if there is a dot. */
  function AfterLastDot(s: string): Option<string> {
    if s == [] then None
    else
      var rest := AfterLastDot(s[1..]);
      if rest.Some? then rest else if s[0] == '.' then Some(s[1..]) else None
  }

  /** `oid_idx`: the number after the last dot; it stays 0 for an OID of one component. */
  function OidIdx(oid: string): nat {
    match AfterLastDot(oid)
    case Some(s) => Atoi(s)
    case None => 0
  }

  lemma {:induction false} LastDot(a: string, b: string)
    requires '.' !in b
    ensures AfterLastDot(b) == None
    ensures AfterLastDot(a + "." + b) == Some(b)
    decreases |a| + |b|
  {
    if b != [] {
      LastDot([], b[1..]);
    }
    if a != [] {
      assert (a + "." + b)[1..] == a[1..] + "." + b;
      LastDot(a[1..], b);
    } else {
      assert (a + "." + b)[1..] == b;
    }
  }

  /** The sort key of a node: its last component, but 0 directly below the root. */
  function SortKey(p: Path): nat {
    if |p| <= 1 then 0 else Last(p)
  }

  lemma OidIdxIsSortKey(p: Path)
    requires p != []
    ensures OidIdx(Dotted(p)) == SortKey(p)
  {
    DecimalHasNoDot(Last(p));
    AtoiDecimal(Last(p));
    if |p| == 1 {
      LastDot([], Decimal(p[0]));
    } else {
      LastDot(Dotted(Parent(p)), Decimal(Last(p)));
    }
  }

  // --- insertion into a vector of children

  function Insert(s: seq<nat>, at: nat, c: nat): seq<nat>
    requires at <= |s|
  {
    s[..at] + [c] + s[at..]
  }

  function WithChild(t: Tree, p: Path, at: nat, c: nat): Tree
    requires p in t && at <= |t[p]|
  {
    t[p := Insert(t[p], at, c)][p + [c] := []]
  }

  /** The place in front of the first child with a larger key. */
  predicate Place(s: seq<nat>, at: nat, c: nat) {
    at <= |s| && (forall i :: 0 <= i < at ==> s[i] <= c) && (at < |s| ==> c < s[at])
  }

  lemma InsertSorted(s: seq<nat>, at: nat, c: nat)
    requires Ascending(s) && Place(s, at, c) && c !in s
    ensures Ascending(Insert(s, at, c))
  {
    forall i | 0 <= i < at ensures s[i] < c {
      assert s[i] in s;
    }
  }

  lemma InsertDistinct(s: seq<nat>, at: nat, c: nat)
    requires Distinct(s) && at <= |s| && c !in s
    ensures Distinct(Insert(s, at, c))
  {
    forall i | 0 <= i < |s| ensures s[i] != c {
      assert s[i] in s;
    }
  }

  lemma ParentStaysGood(t: Tree, p: Path, at: nat, c: nat)
    requires WellFormed(t) && p in t && at <= |t[p]| && c !in t[p]
    requires p != [] ==> Place(t[p], at, c)
    ensures GoodChildren(WithChild(t, p, at, c), p)
  {
    var t' := WithChild(t, p, at, c);
    assert GoodChildren(t, p);
    hide WellFormed;
    InsertDistinct(t[p], at, c);
    if p != [] {
      InsertSorted(t[p], at, c);
    }
    assert t'[p] == Insert(t[p], at, c);
    hide Insert;
    forall i | 0 <= i < |t'[p]| ensures p + [t'[p][i]] in t' {
      InsertedAre(t[p], at, c, i);
    }
  }

  lemma InsertedAre(s: seq<nat>, at: nat, c: nat, i: nat)
    requires at <= |s| && i < |Insert(s, at, c)|
    ensures Insert(s, at, c)[i] == c || Insert(s, at, c)[i] in s
  {}

  lemma NodeStaysAttached(t: Tree, p: Path, at: nat, c: nat, x: Path)
    requires p in t && at <= |t[p]| && x in t && Attached(t, x) && p + [c] !in t
    ensures Attached(WithChild(t, p, at, c), x)
  {
    var t' := WithChild(t, p, at, c);
    if x != [] && Parent(x) == p {
      var i :| 0 <= i < |t[p]| && t[p][i] == Last(x);
      assert t'[p][if i < at then i else i + 1] == Last(x);
    }
  }

  lemma InsertKeepsWellFormed(t: Tree, p: Path, at: nat, c: nat)
    requires WellFormed(t) && p in t && at <= |t[p]| && c !in t[p] && p + [c] !in t
    requires p != [] ==> Place(t[p], at, c)
    ensures WellFormed(WithChild(t, p, at, c))
  {
    var t', q := WithChild(t, p, at, c), p + [c];
    ParentStaysGood(t, p, at, c);
    hide Insert;
    forall x | x in t' ensures Attached(t', x) && GoodChildren(t', x) {
      if x == q {
        assert Parent(q) == p && Last(q) == c;
        InsertedIsThere(t[p], at, c);
      } else {
        assert Attached(t, x) && GoodChildren(t, x);
        NodeStaysAttached(t, p, at, c, x);
      }
    }
  }

  lemma InsertedIsThere(s: seq<nat>, at: nat, c: nat)
    requires at <= |s|
    ensures c in Insert(s, at, c)
  {
    assert Insert(s, at, c)[at] == c;
  }

  // --- the class

  /** The descent along `parts` stopped at node `p`: no child of it matches the next part. */
  predicate Stopped(t: Tree, parts: seq<string>, p: Path) {
    && p in t && |p| <= |parts| && Parts(p) == parts[..|p|]
    && (|p| < |parts| ==> forall k :: 0 <= k < |t[p]| ==> Decimal(t[p][k]) != parts[|p|])
  }

  /** `text` is the OID that follows `q`, empty if there is none. */
  ghost predicate NextText(t: Tree, q: Path, text: string)
    requires q != []
  {
    (text == [] && Successor(t, q, None)) || exists x :: text == Dotted(x) && Successor(t, q, Some(x))
  }

  lemma NextTextIs(t: Tree, q: Path, r: Option<Path>)
    requires q != [] && Successor(t, q, r)
    ensures NextText(t, q, if r.Some? then Dotted(r.value) else [])
  {
    hide Successor, Dotted;
  }

  /** Where the descent along the parts of a text stops, from node `p` on. */
  ghost function StopNode(t: Tree, parts: seq<string>, p: Path): (r: Path)
    requires WellFormed(t) && p in t
    ensures r in t
    decreases |parts| - |p|
  {
    if |p| < |parts| && exists k :: 0 <= k < |t[p]| && Decimal(t[p][k]) == parts[|p|] then
      var k :| 0 <= k < |t[p]| && Decimal(t[p][k]) == parts[|p|];
      ChildIsNode(t, p, k);
      StopNode(t, parts, p + [t[p][k]])
    else p
  }

  lemma {:induction false} StoppedIsStopNode(t: Tree, parts: seq<string>, p: Path, at: Path)
    requires WellFormed(t) && Stopped(t, parts, at) && p in t && p <= at
    ensures StopNode(t, parts, p) == at
    decreases |at| - |p|
  {
    hide WellFormed, Decimal;
    if p != at {
      var i := ThroughChild(t, p, at);
      assert Parts(at)[|p|] == Decimal(at[|p|]) == parts[|p|];
      var child := at[..|p| + 1];
      assert child == p + [t[p][i]];
      ChildIsNode(t, p, i);
      forall k | 0 <= k < |t[p]| && Decimal(t[p][k]) == parts[|p|] ensures p + [t[p][k]] == child {
        DecimalInjective(t[p][k], at[|p|]);
      }
      StoppedIsStopNode(t, parts, child, at);
    }
  }

  /** The first leaf after `q` below the same root arc. */
  ghost function NextLeaf(t: Tree, q: Path): (r: Option<Path>)
    requires q != []
  {
    if exists x :: Successor(t, q, Some(x)) then
      var x :| Successor(t, q, Some(x));
      Some(x)
    else None
  }

  lemma SuccessorIsNextLeaf(t: Tree, q: Path, r: Option<Path>)
    requires q != [] && Successor(t, q, r)
    ensures NextLeaf(t, q) == r
  {
    hide Less;
    var other := NextLeaf(t, q);
    if r.Some? && other.Some? && r != other {
      LessTransitive(r.value, other.value, r.value);
      PrefixLess(r.value, r.value);
    }
  }

  /** `find_next_oid` as a function of the tree and any text. */
  ghost function Search(t: Tree, oid: string): (r: string)
    requires WellFormed(t)
  {
    RootIsNode(t);
    var at := StopNode(t, Split(oid), []);
    if at != [] && Dotted(at) == oid then
      var next := NextLeaf(t, at);
      if next.Some? then Dotted(next.value) else []
    else Dotted(FirstLeaf(t, at))
  }

  /** A node whose text is the one that was split is where the descent stops. */
  lemma StopsAtNode(t: Tree, oid: string, p: Path, q: Path)
    requires WellFormed(t) && Stopped(t, Split(oid), p) && q in t && Dotted(q) == oid
    ensures p == q
  {
    hide WellFormed, Dotted, Decimal, Split;
    var parts := Split(oid);
    SplitDotted(q);
    assert Parts(q[..|p|]) == parts[..|p|];
    assert |p| < |q| ==> parts[|p|] == Decimal(q[|p|]);
    PartsInjective(p, q[..|p|]);
    if |p| < |q| {
      var i := ThroughChild(t, p, q);
      assert false;
    }
  }

  lemma PartsSnoc(p: Path, c: nat)
    ensures Parts(p + [c]) == Parts(p) + [Decimal(c)]
  {}

  /** The nonempty prefixes of `p`, up to length `n`. */
  function Prefixes(p: Path, n: nat): set<Path>
    requires n <= |p|
  {
    set k | 1 <= k <= n :: p[..k]
  }

  lemma PrefixesGrow(p: Path, n: nat)
    requires n < |p|
    ensures Prefixes(p, n + 1) == Prefixes(p, n) + {p[..n + 1]}
  {}

  /** An entry of the `branch` stack: the parent (null above the root arcs) and a position in its vector. */
  datatype Turn = Turn(parent: Option<Path>, index: nat)

  /** The stack records the way from the root vector to `q`. */
  predicate WayTo(t: Tree, branch: seq<Turn>, q: Path) {
    |branch| == |q| &&
    forall d :: 0 <= d < |q| ==>
      branch[d].parent == (if d == 0 then None else Some(q[..d])) && At(t, q, d, branch[d].index)
  }

  lemma WayGoesOn(t: Tree, branch: seq<Turn>, q: Path, i: nat)
    requires WayTo(t, branch, q) && q in t && i < |t[q]|
    ensures WayTo(t, branch + [Turn(if q == [] then None else Some(q), i)], q + [t[q][i]])
  {
    var b, p := branch + [Turn(if q == [] then None else Some(q), i)], q + [t[q][i]];
    forall d | 0 <= d < |p|
      ensures b[d].parent == (if d == 0 then None else Some(p[..d])) && At(t, p, d, b[d].index)
    {
      if d < |q| {
        assert p[..d] == q[..d] && At(t, q, d, branch[d].index);
      } else {
        assert p[..d] == q;
      }
    }
  }

  class SnmpData<Element> {
    var tree: Tree
    var elements: map<Path, Element>  // the nodes that were registered themselves, not just passed through

    ghost predicate Valid()
      reads this
    {
      WellFormed(tree) && elements.Keys <= tree.Keys && [] !in elements
    }

    constructor ()
      ensures Valid() && tree == map[[] := []] && elements == map[]
    {
      tree, elements := map[[] := []], map[];
    }

    /** The position of the child of `p` whose OID is `oid`, or -1. */
    method FindOidInVector(p: Path, oid: string) returns (idx: int)
      requires p in tree
      ensures idx == -1 ==> forall k :: 0 <= k < |tree[p]| ==> Dotted(p + [tree[p][k]]) != oid
      ensures idx != -1 ==> 0 <= idx < |tree[p]| && Dotted(p + [tree[p][idx]]) == oid
    {
      for i := 0 to |tree[p]|
        invariant forall k :: 0 <= k < i ==> Dotted(p + [tree[p][k]]) != oid
      {
        if Dotted(p + [tree[p][i]]) == oid {
          return i;
        }
      }
      return -1;
    }

    /** The same, for `oid` being the OID of `p` followed by `part`. */
    method FindPart(p: Path, oid: string, part: string) returns (idx: int)
      requires p in tree && oid == Extend(Dotted(p), part)
      ensures idx == -1 ==> forall k :: 0 <= k < |tree[p]| ==> Decimal(tree[p][k]) != part
      ensures idx != -1 ==> 0 <= idx < |tree[p]| && Decimal(tree[p][idx]) == part && Dotted(p + [tree[p][idx]]) == oid
    {
      hide Dotted, Decimal, Extend;
      idx := FindOidInVector(p, oid);
      forall k | 0 <= k < |tree[p]| ensures Dotted(p + [tree[p][k]]) == oid <==> Decimal(tree[p][k]) == part {
        ExtendDotted(p, tree[p][k], part);
      }
    }

    /** The place in front of the first child with a larger sort key; below the root vector keys are all 0. */
    method FindPlace(p: Path, oidIdx: nat) returns (at: nat)
      requires p in tree
      ensures at <= |tree[p]|
      ensures p != [] ==> Place(tree[p], at, oidIdx)
    {
      at := 0;
      while at < |tree[p]|
        invariant at <= |tree[p]|
        invariant p != [] ==> forall i :: 0 <= i < at ==> tree[p][i] <= oidIdx
      {
        if oidIdx < SortKey(p + [tree[p][at]]) {
          return;
        }
        at := at + 1;
      }
    }

    /**
     Registration of the OID with components `p`. All prefixes become nodes; the element is kept only
     when the last node is new.
     */
    method RegisterOid(oid: string, e: Element, ghost p: Path)
      requires Valid() && p != [] && oid == Dotted(p)
      requires forall i :: 0 <= i < |p| ==> p[i] < 0x8000_0000  // `atoi` yields an int
      modifies this
      ensures Valid()
      ensures tree.Keys == old(tree.Keys) + Prefixes(p, |p|)
      ensures elements == if p in old(tree) then old(elements) else old(elements)[p := e]
    {
      hide Dotted, Decimal, WellFormed, Split;
      var parts := SplitLoop(oid);
      SplitDotted(p);
      var lut: Path, cur: string := [], [];
      DottedOfNothing();
      RootIsNode(tree);
      for i := 0 to |parts|
        invariant Valid() && lut == p[..i] && cur == Dotted(lut) && lut in tree
        invariant tree.Keys == old(tree.Keys) + Prefixes(p, i)
        invariant elements == if i == |p| && p !in old(tree) then old(elements)[p := e] else old(elements)
      {
        lut, cur := RegisterPart(lut, cur, parts[i], i == |parts| - 1, e, p, i);
        PrefixesGrow(p, i);
        assert p[..|p|] == p;
        assert i == |p| - 1 ==> p !in Prefixes(p, i);
      }
    }

    /** One turn of the loop: find the next node on the way, or create it in its sorted place. */
    method RegisterPart(lut: Path, cur: string, part: string, last: bool, e: Element, ghost p: Path, ghost i: nat)
      returns (lut': Path, cur': string)
      requires Valid() && i < |p| && lut == p[..i] && lut in tree && cur == Dotted(lut) && part == Decimal(p[i])
      modifies this
      ensures Valid() && lut' == p[..i + 1] && lut' in tree && cur' == Dotted(lut')
      ensures tree.Keys == old(tree.Keys) + {lut'}
      ensures elements == if last && lut' !in old(tree) then old(elements)[lut' := e] else old(elements)
    {
      hide Dotted, Decimal, Extend, WellFormed, Atoi, OidIdx;
      cur' := Extend(cur, part);
      lut' := lut + [Atoi(part)];
      AtoiDecimal(p[i]);
      assert lut' == p[..i + 1];
      ExtendDotted(lut, p[i], part);
      var idx := FindPart(lut, cur', part);
      if idx == -1 {
        if lut' in tree {
          var k := ThroughChild(tree, lut, lut');
          assert false;
        }
        var oidIdx := OidIdx(cur');
        OidIdxIsSortKey(lut');
        var at := FindPlace(lut, oidIdx);
        assert p[i] !in tree[lut];
        InsertKeepsWellFormed(tree, lut, at, p[i]);
        tree := WithChild(tree, lut, at, Atoi(part));
        if last {
          elements := elements[lut' := e];
        }
      } else {
        DecimalInjective(tree[lut][idx], p[i]);
        ChildIsNode(tree, lut, idx);
      }
    }

    /** Lookup of any text: found exactly when it is the OID of a node, with the element registered there. */
    method FindByOid(oid: string) returns (found: bool, e: Option<Element>)
      requires Valid()
      ensures found <==> exists p :: p != [] && p in tree && Dotted(p) == oid
      ensures forall p :: p != [] && p in tree && Dotted(p) == oid ==>
                e == if p in elements then Some(elements[p]) else None
    {
      hide Dotted, Decimal, Extend, WellFormed, Split;
      var parts := SplitLoop(oid);
      var lut: Path, cur: string := [], [];
      DottedOfNothing();
      RootIsNode(tree);
      for i := 0 to |parts|
        invariant |parts| > 0 ==> i < |parts|
        invariant lut in tree && |lut| == i && cur == Dotted(lut) && Parts(lut) == parts[..i]
      {
        cur := Extend(cur, parts[i]);
        var idx := FindPart(lut, cur, parts[i]);
        if idx == -1 {
          NotANode(oid, lut);
          return false, None;
        }
        PartsSnoc(lut, tree[lut][idx]);
        ChildIsNode(tree, lut, idx);
        lut := lut + [tree[lut][idx]];
        if i == |parts| - 1 {
          IsTheNode(oid, lut);
          return true, if lut in elements then Some(elements[lut]) else None;
        }
      }
      SplitEmpty(oid);
      return false, None;
    }

    /**
     The search for the next OID, for any text. `at` is the node where the descent along the text stops.
     When the text is the OID of a node, the result is its successor; otherwise it is the first leaf
     below `at`, wherever that lies.
     */
    method FindNextOid(oid: string) returns (next: string, ghost at: Path, ghost r: Option<Path>)
      requires Valid() && tree[[]] != []  // with nothing registered the code has no node to look at
      ensures Stopped(tree, Split(oid), at)
      ensures next == if r.Some? then Dotted(r.value) else []
      ensures at != [] && Dotted(at) == oid ==> Successor(tree, at, r)
      ensures at == [] || Dotted(at) != oid ==> r == Some(FirstLeaf(tree, at))
      ensures forall q :: q != [] && q in tree && Dotted(q) == oid ==> NextText(tree, q, next)
      ensures next == Search(tree, oid)
    {
      hide Dotted, Decimal, Extend, WellFormed, Split, Less, Successor, NextText, Search;
      var lut, branch := Descend(oid);
      at := lut;
      lut, branch := DescendToLeaf(lut, branch);
      next, r := Dotted(lut), Some(lut);
      if Dotted(lut) != oid {
        if at != [] && Dotted(at) == oid {
          InnerSuccessor(tree, at);
        }
      } else {
        StopsAtNode(tree, oid, at, lut);
        next, r := GoToSibling(lut, branch);
      }
      forall q | q != [] && q in tree && Dotted(q) == oid ensures NextText(tree, q, next) {
        StopsAtNode(tree, oid, at, q);
        NextTextIs(tree, q, r);
      }
      SearchIs(tree, oid, at, r);
    }

    /** Follow the parts of the text as far as there are nodes for them. */
    method Descend(oid: string) returns (lut: Path, branch: seq<Turn>)
      requires Valid()
      ensures Stopped(tree, Split(oid), lut) && WayTo(tree, branch, lut)
    {
      hide Dotted, Decimal, Extend, WellFormed, Split;
      var parts := SplitLoop(oid);
      var cur: string := [];
      lut, branch := [], [];
      DottedOfNothing();
      RootIsNode(tree);
      for i := 0 to |parts|
        invariant lut in tree && |lut| == i && cur == Dotted(lut) && Parts(lut) == parts[..i]
        invariant WayTo(tree, branch, lut)
      {
        cur := Extend(cur, parts[i]);
        var idx := FindPart(lut, cur, parts[i]);
        if idx == -1 {
          return;
        }
        WayGoesOn(tree, branch, lut, idx);
        branch := branch + [Turn(if lut == [] then None else Some(lut), idx)];
        PartsSnoc(lut, tree[lut][idx]);
        ChildIsNode(tree, lut, idx);
        lut := lut + [tree[lut][idx]];
      }
    }

    /** Follow first children to the end of the branch. */
    method DescendToLeaf(from: Path, branch: seq<Turn>) returns (lut: Path, branch': seq<Turn>)
      requires Valid() && tree[[]] != [] && from in tree && WayTo(tree, branch, from)
      ensures lut == FirstLeaf(tree, from) && Leaf(tree, lut) && WayTo(tree, branch', lut)
    {
      hide WellFormed;
      lut, branch' := from, branch;
      while tree[lut] != []
        invariant lut in tree && WayTo(tree, branch', lut) && FirstLeaf(tree, lut) == FirstLeaf(tree, from)
        decreases |Deeper(tree, |lut|)|
      {
        ChildIsNode(tree, lut, 0);
        WayGoesOn(tree, branch', lut, 0);
        branch' := branch' + [Turn(if lut == [] then None else Some(lut), 0)];
        DeeperShrinks(tree, lut + [tree[lut][0]]);
        lut := lut + [tree[lut][0]];
      }
    }

    /** Unwind the stack to the deepest place with a later sibling, and go down to its first leaf. */
    method GoToSibling(q: Path, way: seq<Turn>) returns (next: string, ghost r: Option<Path>)
      requires Valid() && Leaf(tree, q) && WayTo(tree, way, q)
      ensures Successor(tree, q, r) && next == if r.Some? then Dotted(r.value) else []
    {
      hide WellFormed, Dotted, Less, FirstLeaf;
      var branch := way + [Turn(Some(q), 0)];
      while branch != []
        invariant 1 <= |branch| <= |q| + 1 && branch == (way + [Turn(Some(q), 0)])[..|branch|]
        invariant Exhausted(tree, q, |branch|)
        decreases |branch|
      {
        var d := |branch| - 1;
        var Turn(element, index) := branch[d];
        if element == None {
          assert d == 0;
          break;
        }
        branch := branch[..d];
        var p := element.value;
        if d < |q| {
          assert way[d] == Turn(element, index) && At(tree, q, d, index) && p == q[..d];
        } else {
          assert p == q;
        }
        if index + 1 < |tree[p]| {
          SiblingSuccessor(tree, q, d, index);
          var leaf := FirstLeafFrom(p + [tree[p][index + 1]]);
          return Dotted(leaf), Some(leaf);
        }
        assert d < |q| ==> LastChild(tree, q, d);
      }
      NoSuccessor(tree, q);
      return [], None;
    }

    /** The do-while loop at the end: from a node down its first children. */
    method FirstLeafFrom(from: Path) returns (element: Path)
      requires Valid() && from in tree
      ensures element == FirstLeaf(tree, from)
    {
      hide WellFormed;
      element := from;
      while tree[element] != []
        invariant element in tree && FirstLeaf(tree, element) == FirstLeaf(tree, from)
        decreases |Deeper(tree, |element|)|
      {
        ChildIsNode(tree, element, 0);
        DeeperShrinks(tree, element + [tree[element][0]]);
        element := element + [tree[element][0]];
      }
    }

    lemma NotANode(oid: string, lut: Path)
      requires Valid() && Stopped(tree, Split(oid), lut) && |lut| < |Split(oid)|
      ensures !exists p :: p != [] && p in tree && Dotted(p) == oid
    {
      hide Dotted, Decimal, WellFormed, Split;
      if p :| p != [] && p in tree && Dotted(p) == oid {
        StopsAtNode(tree, oid, lut, p);
        SplitDotted(p);
        assert false;
      }
    }

    lemma IsTheNode(oid: string, lut: Path)
      requires Valid() && lut in tree && Parts(lut) == Split(oid)
      ensures Dotted(lut) == oid
      ensures forall p :: Dotted(p) == oid ==> p == lut
    {
      hide Dotted, Decimal, WellFormed, Split, Join;
      DottedIsJoin(lut);
      JoinSplit(oid);
      forall p | Dotted(p) == oid ensures p == lut {
        DottedInjective(p, lut);
      }
    }
  }

  lemma SearchIs(t: Tree, oid: string, at: Path, r: Option<Path>)
    requires WellFormed(t) && Stopped(t, Split(oid), at)
    requires at != [] && Dotted(at) == oid ==> Successor(t, at, r)
    requires at == [] || Dotted(at) != oid ==> r == Some(FirstLeaf(t, at))
    ensures Search(t, oid) == if r.Some? then Dotted(r.value) else []
  {
    hide WellFormed, Dotted, Split, Successor, Stopped, FirstLeaf;
    RootIsNode(t);
    StoppedIsStopNode(t, Split(oid), [], at);
    if at != [] && Dotted(at) == oid {
      SuccessorIsNextLeaf(t, at, r);
    }
  }

  lemma RootIsNode(t: Tree)
    requires WellFormed(t)
    ensures [] in t
  {}

  lemma DottedOfNothing()
    ensures Dotted([]) == [] && Parts([]) == []
  {}

  lemma SplitEmpty(oid: string)
    requires Split(oid) == []
    ensures forall p :: p != [] ==> Dotted(p) != oid
  {
    forall p | p != [] && Dotted(p) == oid ensures false {
      SplitDotted(p);
    }
  }
}

/**
 What the tree and the search amount to together: after any registrations, repeated GetNext requests
 enumerate the registered OIDs in order (section 4.2.2 of RFC 3416), and exactly when they do not.
 */
module SnmpWalk {
  import opened Bytes
  import opened OidText
  import opened OidTree
  import opened SnmpData
  import BerOid

  // --- which nodes and leaves there are

  /** The nodes are the root and the prefixes of the registered OIDs. */
  ghost predicate Holds(t: Tree, oids: set<Path>) {
    WellFormed(t) && forall p :: p in t <==> p == [] || exists q :: q in oids && p <= q
  }

  /** No registered OID extends another. */
  predicate PrefixFree(oids: set<Path>) {
    forall p, q :: p in oids && q in oids && p <= q ==> p == q
  }

  /** The leaves are the registered OIDs that no other registered OID extends. */
  lemma LeavesAreMaximal(t: Tree, oids: set<Path>, p: Path)
    requires Holds(t, oids) && [] !in oids
    ensures Leaf(t, p) <==> p in oids && forall q :: q in oids && p <= q ==> q == p
  {
    hide WellFormed;
    if Leaf(t, p) {
      var q :| q in oids && p <= q;
      NothingBelowLeaf(t, p, q);
      forall q' | q' in oids && p <= q' ensures q' == p {
        NothingBelowLeaf(t, p, q');
      }
    }
    if p in oids && t[p] != [] {
      var q := SomethingBelow(t, oids, p);
    }
  }

  lemma SomethingBelow(t: Tree, oids: set<Path>, p: Path) returns (q: Path)
    requires Holds(t, oids) && p in t && t[p] != []
    ensures q in oids && p <= q && q != p
  {
    hide WellFormed;
    ChildIsNode(t, p, 0);
    var c := p + [t[p][0]];
    q :| q in oids && c <= q;
  }

  lemma LeavesAreRegistered(t: Tree, oids: set<Path>, p: Path)
    requires Holds(t, oids) && [] !in oids && PrefixFree(oids)
    ensures Leaf(t, p) <==> p in oids
  {
    LeavesAreMaximal(t, oids, p);
  }

  // --- walking

  /** `w` is what repeated searches return, from `start` until there is no next OID. */
  ghost predicate IsWalk(t: Tree, start: Path, w: seq<Path>)
    decreases |w|
  {
    start != [] &&
    if w == [] then Successor(t, start, None)
    else Successor(t, start, Some(w[0])) && IsWalk(t, w[0], w[1..])
  }

  /** A walk is ascending and visits exactly the leaves after its start, below the same root arc. */
  lemma {:induction false} WalkVisits(t: Tree, start: Path, w: seq<Path>)
    requires IsWalk(t, start, w)
    ensures forall m :: m in w <==> Leaf(t, m) && m[0] == start[0] && Less(start, m)
    ensures forall i, j :: 0 <= i < j < |w| ==> Less(w[i], w[j])
    decreases |w|
  {
    hide Less;
    if w != [] {
      WalkVisits(t, w[0], w[1..]);
      assert w == [w[0]] + w[1..];
      forall m ensures m in w <==> Leaf(t, m) && m[0] == start[0] && Less(start, m) {
        if m in w && m != w[0] {
          LessTransitive(start, w[0], m);
        }
      }
      forall i, j | 0 <= i < j < |w| ensures Less(w[i], w[j]) {
        if i == 0 {
          assert w[j] in w[1..];
        } else {
          assert w[i] == w[1..][i - 1] && w[j] == w[1..][j - 1];
        }
      }
    }
  }

  /**
   Main result. A walk from the inner node of a root arc is strictly ascending, so that it visits no
   OID twice, and it visits every registered OID exactly when all of them are below that root arc.
   */
  lemma WalkFromRootArc(t: Tree, oids: set<Path>, a: nat, w: seq<Path>)
    requires Holds(t, oids) && [] !in oids && PrefixFree(oids)
    requires [a] in t && t[[a]] != [] && IsWalk(t, [a], w)
    ensures forall i, j :: 0 <= i < j < |w| ==> Less(w[i], w[j])
    ensures forall m :: m in w <==> m in oids && m[0] == a
    ensures (forall m :: m in oids ==> m in w) <==> (forall m :: m in oids ==> m[0] == a)
  {
    hide Less, WellFormed;
    WalkVisits(t, [a], w);
    forall m ensures m in w <==> m in oids && m[0] == a {
      LeavesAreRegistered(t, oids, m);
      if m in oids && m[0] == a {
        assert [a] <= m && [a] != m;
        PrefixLess([a], m);
      }
    }
  }

  /** From an inner node above all registered OIDs the walk visits all of them. */
  lemma WalkFromAbove(t: Tree, oids: set<Path>, q: Path, w: seq<Path>)
    requires Holds(t, oids) && [] !in oids && PrefixFree(oids) && IsWalk(t, q, w)
    requires forall m :: m in oids ==> q <= m && q != m
    ensures forall i, j :: 0 <= i < j < |w| ==> Less(w[i], w[j])
    ensures forall m :: m in w <==> m in oids
  {
    hide Less, WellFormed;
    WalkVisits(t, q, w);
    forall m ensures m in w <==> m in oids {
      LeavesAreRegistered(t, oids, m);
      if m in oids {
        PrefixLess(q, m);
      }
    }
  }

  // --- against the standard

  /** What section 4.2.2 of RFC 3416 asks for: the first registered OID after `q`, over all of them. */
  ghost predicate NextOf(t: Tree, q: Path, r: Option<Path>) {
    match r
    case Some(x) => Leaf(t, x) && Less(q, x) && forall m :: Leaf(t, m) && Less(q, m) ==> m == x || Less(x, m)
    case None => forall m :: Leaf(t, m) ==> !Less(q, m)
  }

  /**
   For the OID of a node, the search meets the standard except at the end of a root arc: it reports
   the end of the tree there, also when OIDs with a larger first component are registered.
   */
  lemma SuccessorMeetsStandardIff(t: Tree, q: Path, r: Option<Path>)
    requires q != [] && Successor(t, q, r)
    ensures NextOf(t, q, r) <==> r.Some? || forall m :: Leaf(t, m) ==> m[0] <= q[0]
  {
    forall m | Leaf(t, m) && m[0] != q[0] ensures Less(q, m) == (q[0] < m[0]) {
      LessAt(q, m, 0);
    }
    if r.Some? {
      forall m | Leaf(t, m) && Less(q, m) ensures m == r.value || Less(r.value, m) {
        if m[0] != q[0] {
          LessAt(r.value, m, 0);
        }
      }
    }
  }

  /**
   For any other OID `q`, whose descent stops at node `at`, the search returns the first leaf below
   `at`. That is what the standard asks for exactly when `q` continues with a component smaller than
   the first child of `at`.
   */
  lemma UnknownOidMeetsStandardIff(t: Tree, at: Path, q: Path)
    requires WellFormed(t) && at in t && at != [] && at <= q && q != at
    requires q[..|at| + 1] !in t
    ensures NextOf(t, q, Some(FirstLeaf(t, at))) <==> t[at] != [] && q[|at|] < t[at][0]
  {
    hide WellFormed, Less;
    var r, k := FirstLeaf(t, at), |at|;
    assert q[..k] == at;
    if t[at] == [] {
      PrefixLess(at, q);
    } else {
      ChildIsNode(t, at, 0);
      var child := at + [t[at][0]];
      assert child <= r && r[k] == t[at][0];
      assert q[..k + 1] == at + [q[k]];
      if q[k] < t[at][0] {
        LessBelow(at, q, r);
        forall m | Leaf(t, m) && Less(q, m) ensures m == r || Less(r, m) {
          if at <= m {
            FirstLeafIsLeast(t, at, m);
          } else {
            LessTrim(at, q, m);
            AfterSubtree(at, r, m);
          }
        }
      } else {
        LessBelow(at, r, q);
        LessTotal(r, q);
      }
    }
  }

  /** No registered OID comes between `q` and the first leaf of the arc that was registered first. */
  ghost predicate MeetsAtTop(t: Tree, q: Path)
    requires WellFormed(t) && t[[]] != []
  {
    Less(q, FirstLeaf(t, [])) && forall m :: Leaf(t, m) && m[0] < t[[]][0] ==> !Less(q, m)
  }

  /**
   When the search stops at the top it returns the first leaf of the arc that was registered first. That is what the
   standard asks for exactly when this leaf comes after `q` and no smaller arc has one: the top level is kept in the order
   of registration, not sorted.
   */
  lemma TopMeetsStandardIff(t: Tree, q: Path)
    requires WellFormed(t) && t[[]] != [] && q != []
    ensures NextOf(t, q, Some(FirstLeaf(t, []))) <==> MeetsAtTop(t, q)
  {
    hide WellFormed, Less;
    RootIsNode(t);
    var r, first := FirstLeaf(t, []), t[[]][0];
    FirstLeafBelowArc(t);
    forall m | Leaf(t, m) ensures if m[0] < first then Less(m, r) && !Less(r, m) && m != r else m == r || Less(r, m) {
      if m[0] == first {
        FirstLeafIsLeast(t, [first], m);
      } else {
        LessAt(r, m, 0);
        LessAt(m, r, 0);
      }
    }
  }

  /** The first leaf of all is the first leaf of the arc at the front. */
  lemma FirstLeafBelowArc(t: Tree)
    requires WellFormed(t) && t[[]] != []
    ensures [t[[]][0]] in t && FirstLeaf(t, []) == FirstLeaf(t, [t[[]][0]])
    ensures Leaf(t, FirstLeaf(t, [])) && FirstLeaf(t, [])[0] == t[[]][0]
  {
    ChildIsNode(t, [], 0);
    assert [] + [t[[]][0]] == [t[[]][0]];
  }

  lemma SplitLeadingDot(oid: string)
    requires oid == [] || oid[0] == '.'
    ensures oid == [] ==> Split(oid) == []
    ensures oid != [] ==> |Split(oid)| > 0 && Split(oid)[0] == []
  {
    if oid != [] {
      assert FirstDot(oid) == 0;
      assert oid[..0] == [];
    }
  }

  /** Text that starts with a dot, or none at all, leads nowhere: the descent stops at the top. */
  lemma StopsAtTop(t: Tree, oid: string)
    requires WellFormed(t) && (oid == [] || oid[0] == '.')
    ensures StopNode(t, Split(oid), []) == []
  {
    hide WellFormed, Decimal, Split;
    RootIsNode(t);
    SplitLeadingDot(oid);
  }

  /**
   Every OID on the wire that does not start with byte 43, whatever it denotes, is answered with the first leaf of the
   arc that was registered first, which is right exactly under the condition at the top.
   */
  lemma OtherOidsMeetStandardIff(t: Tree, bytes: seq<byte>, oid: string, q: Path)
    requires WellFormed(t) && t[[]] != [] && bytes != [] && bytes[0] != 43
    requires BerOid.GetOid(bytes) == Some(oid) && BerOid.Denotes(bytes) == Some(q)
    ensures Search(t, oid) == Dotted(FirstLeaf(t, []))
    ensures NextOf(t, q, Some(FirstLeaf(t, []))) <==> MeetsAtTop(t, q)
  {
    hide BerOid.GetOid, BerOid.Denotes, WellFormed, Split, NextOf, MeetsAtTop;
    RootIsNode(t);
    BerOid.OtherTextsStartWithDot(bytes);
    StopsAtTop(t, oid);
    TopMeetsStandardIff(t, q);
  }

  // --- one statement for every OID

  /** What the search finds for the text of `q`. */
  ghost function Found(t: Tree, q: Path): (r: Option<Path>)
    requires WellFormed(t) && q != []
  {
    RootIsNode(t);
    if q in t then NextLeaf(t, q) else Some(FirstLeaf(t, StopNode(t, Parts(q), [])))
  }

  /** Whether that is what the standard asks for, by the place of `q` in the tree. */
  ghost predicate Meets(t: Tree, q: Path)
    requires WellFormed(t) && t[[]] != [] && q != []
  {
    RootIsNode(t);
    if q in t then NextLeaf(t, q).Some? || forall m :: Leaf(t, m) ==> m[0] <= q[0]
    else
      var at := StopNode(t, Parts(q), []);
      if at == [] then MeetsAtTop(t, q) else t[at] != [] && |at| < |q| && q[|at|] < t[at][0]
  }

  /** For every OID: what `find_next_oid` returns for its text, and exactly when that is the lexicographic successor. */
  lemma SearchMeetsStandardIff(t: Tree, q: Path)
    requires WellFormed(t) && t[[]] != [] && q != []
    ensures var r := Found(t, q);
            Search(t, Dotted(q)) == (if r.Some? then Dotted(r.value) else []) && (NextOf(t, q, r) <==> Meets(t, q))
  {
    hide WellFormed, Dotted, Split, NextOf, MeetsAtTop, FirstLeaf, Less;
    RootIsNode(t);
    SplitDotted(q);
    var at := StopNode(t, Parts(q), []);
    StopNodeIsPrefix(t, q, []);
    if q in t {
      NodeIsStop(t, q);
      var r := SuccessorExists(t, q);
      SuccessorIsNextLeaf(t, q, r);
      SuccessorMeetsStandardIff(t, q, r);
    } else {
      NotItsText(at, q);
      if at == [] {
        TopMeetsStandardIff(t, q);
      } else {
        UnknownOidMeetsStandardIff(t, at, q);
      }
    }
  }

  lemma NotItsText(at: Path, q: Path)
    requires at != q
    ensures Dotted(at) != Dotted(q)
  {
    if Dotted(at) == Dotted(q) { DottedInjective(at, q); }
  }

  lemma NodeIsStop(t: Tree, q: Path)
    requires WellFormed(t) && q in t
    ensures [] in t && StopNode(t, Parts(q), []) == q
  {
    hide WellFormed;
    RootIsNode(t);
    assert Parts(q)[..|q|] == Parts(q);
    StoppedIsStopNode(t, Parts(q), [], q);
  }

  /** The descent along an OID stops at a prefix of it, and no longer prefix is a node. */
  lemma {:induction false} StopNodeIsPrefix(t: Tree, q: Path, p: Path)
    requires WellFormed(t) && p in t && p <= q
    ensures var at := StopNode(t, Parts(q), p); p <= at <= q && (at != q ==> q[..|at| + 1] !in t)
    decreases |q| - |p|
  {
    hide WellFormed, Decimal;
    if |p| < |q| {
      var child := q[..|p| + 1];
      assert child == p + [q[|p|]];
      assert Parts(q)[|p|] == Decimal(q[|p|]);
      if child in t {
        var i := ThroughChild(t, p, child);
        forall k | 0 <= k < |t[p]| && Decimal(t[p][k]) == Parts(q)[|p|] ensures p + [t[p][k]] == child {
          DecimalInjective(t[p][k], q[|p|]);
        }
        StopNodeIsPrefix(t, q, child);
      } else {
        forall k | 0 <= k < |t[p]| ensures Decimal(t[p][k]) != Parts(q)[|p|] {
          ChildIsNode(t, p, k);
          if Decimal(t[p][k]) == Decimal(q[|p|]) { DecimalInjective(t[p][k], q[|p|]); }
        }
      }
    }
  }

  /** The same for every OID on the wire that starts with byte 43 and has components below 2^31. */
  lemma WireMeetsStandardIff(t: Tree, bytes: seq<byte>, q: Path)
    requires WellFormed(t) && t[[]] != [] && bytes != [] && bytes[0] == 43
    requires BerOid.Denotes(bytes) == Some(q) && BerOid.Small(q[2..], 0x8000_0000)
    ensures BerOid.GetOid(bytes) == Some(Dotted(q))
    ensures var r := Found(t, q);
            Search(t, Dotted(q)) == (if r.Some? then Dotted(r.value) else []) && (NextOf(t, q, r) <==> Meets(t, q))
  {
    hide *;
    BerOid.ShownAsDenoted(bytes);
    SearchMeetsStandardIff(t, q);
  }

  /** Among the finitely many leaves after `q` there is a least one. */
  lemma SuccessorExists(t: Tree, q: Path) returns (r: Option<Path>)
    requires q != []
    ensures Successor(t, q, r)
  {
    hide Less;
    var after := set m | m in t && Leaf(t, m) && m[0] == q[0] && Less(q, m);
    if after == {} {
      r := None;
      assert forall m :: Leaf(t, m) && m[0] == q[0] && Less(q, m) ==> m in after;
    } else {
      var least := LeastOf(after);
      r := Some(least);
      assert forall m :: Leaf(t, m) && m[0] == q[0] && Less(q, m) ==> m in after;
    }
  }

  lemma {:induction false} LeastOf(s: set<Path>) returns (x: Path)
    requires s != {}
    ensures x in s && forall m :: m in s ==> m == x || Less(x, m)
    decreases |s|
  {
    hide Less;
    x :| x in s;
    var rest := s - {x};
    if rest != {} {
      var y := LeastOf(rest);
      LessTotal(x, y);
      if Less(y, x) {
        x := y;
      } else {
        forall m | m in s ensures m == x || Less(x, m) {
          if m != x && m != y { LessTransitive(x, y, m); }
        }
      }
    }
  }

  /** What comes after an extension of `p`, and is not itself one, comes after `p`. */
  lemma LessTrim(p: Path, q: Path, m: Path)
    requires p <= q && Less(q, m)
    ensures Less(p, m)
  {
    hide Less;
    PrefixLess(p, q);
    if p != q {
      LessTransitive(p, q, m);
    }
  }

  // --- the two loops around the tree: registering a list, and asking for the next OID until the end

  /** `init_snmp`: register OIDs one by one, in any order. */
  method RegisterAll<Element>(data: SnmpData<Element>, oids: seq<string>, es: seq<Element>, ghost paths: seq<Path>)
    requires data.Valid() && data.tree == map[[] := []] && data.elements == map[]
    requires |oids| == |es| == |paths|
    requires forall i :: 0 <= i < |paths| ==> Registrable(oids[i], paths[i])
    modifies data
    ensures data.Valid() && Holds(data.tree, set i | 0 <= i < |paths| :: paths[i])
    ensures PrefixFree(set i | 0 <= i < |paths| :: paths[i]) && AllDifferent(paths) ==>
              Kept(data.elements, paths, es, |paths|)
  {
    hide Dotted, WellFormed, Prefixes, Holds, NodesUpTo, PrefixFree;
    ghost var all := set i | 0 <= i < |paths| :: paths[i];
    ghost var ok := PrefixFree(all) && AllDifferent(paths);
    NodesAtStart(data.tree, paths);
    for k := 0 to |oids|
      invariant data.Valid() && NodesUpTo(data.tree, paths, k)
      invariant ok ==> Kept(data.elements, paths, es, k)
    {
      assert Registrable(oids[k], paths[k]);
      if ok {
        NotYetANode(data.tree, paths, k, all);
      }
      ghost var before := data.tree;
      data.RegisterOid(oids[k], es[k], paths[k]);
      NodesStep(before, data.tree, paths, k);
    }
    HoldsAll(data.tree, paths, all);
  }

  /** The first `k` elements are where they were registered. */
  predicate Kept<Element(==)>(elements: map<Path, Element>, paths: seq<Path>, es: seq<Element>, k: nat)
    requires k <= |paths| == |es|
  {
    forall i :: 0 <= i < k ==> paths[i] in elements && elements[paths[i]] == es[i]
  }

  lemma NodesAtStart(t: Tree, paths: seq<Path>)
    requires t == map[[] := []]
    ensures NodesUpTo(t, paths, 0)
  {}

  lemma NodesStep(t: Tree, t': Tree, paths: seq<Path>, k: nat)
    requires k < |paths| && NodesUpTo(t, paths, k) && t'.Keys == t.Keys + Prefixes(paths[k], |paths[k]|)
    ensures NodesUpTo(t', paths, k + 1)
  {
    hide Prefixes;
    PrefixesAre(paths[k]);
    forall p ensures p in t' <==> p == [] || exists i :: 0 <= i < k + 1 && p <= paths[i] {
      if p in t {
        if p != [] {
          var i :| 0 <= i < k && p <= paths[i];
          assert i < k + 1 && p <= paths[i];
        }
      } else if p in t' {
        assert k < k + 1 && p <= paths[k];
      }
    }
  }

  lemma HoldsAll(t: Tree, paths: seq<Path>, all: set<Path>)
    requires WellFormed(t) && NodesUpTo(t, paths, |paths|) && all == set i | 0 <= i < |paths| :: paths[i]
    ensures Holds(t, all)
  {
    hide WellFormed;
    forall p ensures p in t <==> p == [] || exists q :: q in all && p <= q {
      if i :| 0 <= i < |paths| && p <= paths[i] {
        assert paths[i] in all;
      }
    }
  }

  predicate Registrable(oid: string, p: Path) {
    p != [] && oid == Dotted(p) && forall i :: 0 <= i < |p| ==> p[i] < 0x8000_0000
  }

  predicate AllDifferent(paths: seq<Path>) {
    forall i, j :: 0 <= i < j < |paths| ==> paths[i] != paths[j]
  }

  ghost predicate NodesUpTo(t: Tree, paths: seq<Path>, k: nat)
    requires k <= |paths|
  {
    forall p :: p in t <==> p == [] || exists i :: 0 <= i < k && p <= paths[i]
  }

  lemma PrefixesAre(p: Path)
    ensures forall x :: x in Prefixes(p, |p|) <==> x != [] && x <= p
  {
    forall x ensures x in Prefixes(p, |p|) <==> x != [] && x <= p {
      if x != [] && x <= p {
        assert p[..|x|] == x;
      }
    }
  }

  lemma NotYetANode(t: Tree, paths: seq<Path>, k: nat, all: set<Path>)
    requires k < |paths| && NodesUpTo(t, paths, k) && PrefixFree(all) && AllDifferent(paths)
    requires all == set i | 0 <= i < |paths| :: paths[i]
    requires paths[k] != []
    ensures paths[k] !in t
  {
    forall i | 0 <= i < k ensures !(paths[k] <= paths[i]) {
      assert paths[i] in all && paths[k] in all;
    }
  }

  /** The leaves after `q`. */
  function Later(t: Tree, q: Path): set<Path> {
    set m | m in t && Leaf(t, m) && Less(q, m)
  }

  /** `answers` are the texts of exactly the OIDs in `oids`, strictly ascending. */
  ghost predicate Lists(answers: seq<string>, oids: set<Path>) {
    exists w: seq<Path> :: |w| == |answers| && (forall i :: 0 <= i < |w| ==> answers[i] == Dotted(w[i]))
      && (forall i, j :: 0 <= i < j < |w| ==> Less(w[i], w[j])) && (forall m :: m in w <==> m in oids)
  }

  /** A client that asks for the next OID, from a node above them all, until it gets an empty answer. */
  method WalkAll<Element>(data: SnmpData<Element>, oid: string, ghost q: Path, ghost oids: set<Path>) returns (answers: seq<string>)
    requires data.Valid() && Holds(data.tree, oids) && [] !in oids && PrefixFree(oids)
    requires q != [] && q in data.tree && oid == Dotted(q) && forall m :: m in oids ==> q <= m && q != m
    ensures Lists(answers, oids)
  {
    hide Dotted, Less, WellFormed, Holds, PrefixFree, IsWalk;
    ghost var w;
    answers, w := WalkFrom(data, oid, q);
    WalkFromAbove(data.tree, oids, q, w);
  }

  method WalkFrom<Element>(data: SnmpData<Element>, oid: string, ghost q: Path)
    returns (answers: seq<string>, ghost w: seq<Path>)
    requires data.Valid() && q != [] && q in data.tree && oid == Dotted(q)
    ensures IsWalk(data.tree, q, w)
    ensures |answers| == |w| && forall i :: 0 <= i < |w| ==> answers[i] == Dotted(w[i])
    decreases |Later(data.tree, q)|
  {
    hide Dotted, WellFormed, Less, Split, Decimal;
    NotEmpty(data.tree, q);
    var next, at, r := data.FindNextOid(oid);
    StopsAtNode(data.tree, oid, at, q);
    if next == [] {
      answers, w := [], [];
    } else {
      LaterShrinks(data.tree, q, r.value);
      answers, w := WalkFrom(data, next, r.value);
      answers, w := [next] + answers, [r.value] + w;
    }
  }

  lemma NotEmpty(t: Tree, q: Path)
    requires WellFormed(t) && q in t && q != []
    ensures [] in t && t[[]] != []
  {
    PrefixesAreNodes(t, q, 0);
    assert q[..0] == [];
  }

  lemma LaterShrinks(t: Tree, q: Path, x: Path)
    requires Leaf(t, x) && Less(q, x)
    ensures |Later(t, x)| < |Later(t, q)|
  {
    hide Less;
    PrefixLess(x, x);
    forall m | m in Later(t, x) ensures m in Later(t, q) - {x} {
      LessTransitive(q, x, m);
    }
    SubsetSize(Later(t, x), Later(t, q) - {x});
  }
}

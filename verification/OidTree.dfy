/**
 The tree of registered OIDs as a value: for every node, named by its path of components, the last
 components of its children in the order of the `data` vector. The root vector belongs to the path [].
 */
module OidTree {
  import opened Bytes
  import opened OidText

  type Tree = map<Path, seq<nat>>

  function Parent(p: Path): Path
    requires p != []
  {
    p[..|p| - 1]
  }

  function Last(p: Path): nat
    requires p != []
  {
    p[|p| - 1]
  }

  // --- lexicographic order of OIDs

  predicate Less(a: Path, b: Path) {
    b != [] && (a == [] || a[0] < b[0] || (a[0] == b[0] && Less(a[1..], b[1..])))
  }

  /** Where two paths part, the components there decide. */
  lemma {:induction false} LessAt(a: Path, b: Path, k: nat)
    requires k < |a| && k < |b| && a[..k] == b[..k] && a[k] != b[k]
    ensures Less(a, b) == (a[k] < b[k])
  {
    if k > 0 {
      assert a[0] == a[..k][0] == b[..k][0] == b[0];
      assert a[1..][..k - 1] == a[..k][1..] && b[1..][..k - 1] == b[..k][1..];
      LessAt(a[1..], b[1..], k - 1);
    }
  }

  /** A proper prefix comes first. */
  lemma {:induction false} PrefixLess(a: Path, b: Path)
    requires a <= b
    ensures Less(a, b) == (a != b) && !Less(b, a)
  {
    if a != [] {
      assert a[0] == b[0];
      PrefixLess(a[1..], b[1..]);
      assert a == [a[0]] + a[1..] && b == [b[0]] + b[1..];
    }
  }

  lemma {:induction false} LessTransitive(a: Path, b: Path, c: Path)
    requires Less(a, b) && Less(b, c)
    ensures Less(a, c)
  {
    if a != [] && a[0] == b[0] && b[0] == c[0] {
      LessTransitive(a[1..], b[1..], c[1..]);
    }
  }

  lemma {:induction false} LessTotal(a: Path, b: Path)
    ensures a == b || Less(a, b) || Less(b, a)
    ensures !(Less(a, b) && Less(b, a))
  {
    if a != [] && b != [] && a[0] == b[0] {
      LessTotal(a[1..], b[1..]);
      assert a == [a[0]] + a[1..] && b == [b[0]] + b[1..];
    }
  }

  /** Two paths neither of which extends the other part somewhere. */
  lemma {:induction false} WhereTheyPart(a: Path, b: Path) returns (k: nat)
    requires !(a <= b) && !(b <= a)
    ensures k < |a| && k < |b| && a[..k] == b[..k] && a[k] != b[k]
  {
    if a[0] != b[0] {
      k := 0;
    } else {
      assert a == [a[0]] + a[1..] && b == [b[0]] + b[1..];
      var j := WhereTheyPart(a[1..], b[1..]);
      k := j + 1;
      assert a[..k] == [a[0]] + a[1..][..j] && b[..k] == [b[0]] + b[1..][..j];
    }
  }

  // --- well-formed trees

  predicate Ascending(s: seq<nat>) {
    forall i, j :: 0 <= i < j < |s| ==> s[i] < s[j]
  }

  predicate Distinct(s: seq<nat>) {
    forall i, j :: 0 <= i < j < |s| ==> s[i] != s[j]
  }

  /** A node that is not the root is among its parent's children. */
  ghost predicate Attached(t: Tree, p: Path) {
    p != [] ==> Parent(p) in t && Last(p) in t[Parent(p)]
  }

  /** Every child is a node, and below the root the children are sorted. */
  ghost predicate GoodChildren(t: Tree, p: Path)
    requires p in t
  {
    && (forall i :: 0 <= i < |t[p]| ==> p + [t[p][i]] in t)
    && Distinct(t[p])
    && (p != [] ==> Ascending(t[p]))
  }

  ghost predicate WellFormed(t: Tree) {
    [] in t && forall p :: p in t ==> Attached(t, p) && GoodChildren(t, p)
  }

  predicate Leaf(t: Tree, p: Path) {
    p != [] && p in t && t[p] == []
  }

  lemma NodeIsGood(t: Tree, p: Path)
    requires WellFormed(t) && p in t
    ensures Attached(t, p) && GoodChildren(t, p)
  {}

  /** Every prefix of a node is a node, and the next component is among its children. */
  lemma {:induction false} PrefixesAreNodes(t: Tree, p: Path, k: nat)
    requires WellFormed(t) && p in t && k <= |p|
    ensures p[..k] in t
    ensures k < |p| ==> p[k] in t[p[..k]]
    decreases |p| - k
  {
    hide WellFormed;
    if k == |p| {
      assert p[..k] == p;
    } else {
      PrefixesAreNodes(t, p, k + 1);
      var q := p[..k + 1];
      NodeIsGood(t, q);
      assert Parent(q) == p[..k] && Last(q) == p[k];
    }
  }

  // --- the first leaf below a node

  function Deeper(t: Tree, n: nat): set<Path> {
    set p | p in t && |p| > n
  }

  lemma DeeperShrinks(t: Tree, p: Path)
    requires p in t && |p| > 0
    ensures |Deeper(t, |p|)| < |Deeper(t, |p| - 1)|
  {
    var a, b := Deeper(t, |p|), Deeper(t, |p| - 1);
    assert p in b && p !in a && a <= b - {p};
    SubsetSize(a, b - {p});
  }

  /** Following first children from `p` down. */
  ghost function FirstLeaf(t: Tree, p: Path): (r: Path)
    requires WellFormed(t) && p in t
    ensures p <= r && r in t && t[r] == []
    decreases |Deeper(t, |p|)|
  {
    assert GoodChildren(t, p);
    if t[p] == [] then p
    else
      DeeperShrinks(t, p + [t[p][0]]);
      FirstLeaf(t, p + [t[p][0]])
  }

  /** The path from a node to a node below it goes through a child. */
  lemma ThroughChild(t: Tree, p: Path, m: Path) returns (i: nat)
    requires WellFormed(t) && p in t && m in t && p <= m && p != m
    ensures i < |t[p]| && t[p][i] == m[|p|] && p + [t[p][i]] <= m
  {
    hide WellFormed;
    PrefixesAreNodes(t, m, |p|);
    assert m[..|p|] == p;
    i :| 0 <= i < |t[p]| && t[p][i] == m[|p|];
    assert m[..|p| + 1] == p + [m[|p|]];
  }

  lemma ChildrenAscend(t: Tree, p: Path, i: nat, j: nat)
    requires WellFormed(t) && p in t && p != [] && i < j < |t[p]|
    ensures t[p][i] < t[p][j]
  {
    hide WellFormed;
    NodeIsGood(t, p);
  }

  lemma ChildIsNode(t: Tree, p: Path, i: nat)
    requires WellFormed(t) && p in t && i < |t[p]|
    ensures p + [t[p][i]] in t
  {
    hide WellFormed;
    NodeIsGood(t, p);
  }

  /** Both extend `p`, by different components. */
  lemma LessBelow(p: Path, r: Path, m: Path)
    requires p <= r && p <= m && |p| < |r| && |p| < |m| && r[|p|] < m[|p|]
    ensures Less(r, m)
  {
    assert r[..|p|] == p == m[..|p|];
    LessAt(r, m, |p|);
  }

  /** The first leaf below a node comes before every other leaf below that node. */
  lemma {:induction false} FirstLeafIsLeast(t: Tree, p: Path, m: Path)
    requires WellFormed(t) && p in t && p != [] && Leaf(t, m) && p <= m
    ensures m == FirstLeaf(t, p) || Less(FirstLeaf(t, p), m)
    decreases |Deeper(t, |p|)|
  {
    hide WellFormed, Less;
    if m != p {
      var i := ThroughChild(t, p, m);
      ChildIsNode(t, p, 0);
      var q := p + [t[p][0]];
      DeeperShrinks(t, q);
      if i == 0 {
        FirstLeafIsLeast(t, q, m);
      } else {
        ChildrenAscend(t, p, 0, i);
        LessBelow(p, FirstLeaf(t, q), m);
      }
    }
  }

  // --- successors

  /** `r` is the first leaf after `q` among those below the same root arc, `None` if there is none. */
  ghost predicate Successor(t: Tree, q: Path, r: Option<Path>)
    requires q != []
  {
    match r
    case Some(x) => Leaf(t, x) && x[0] == q[0] && Less(q, x)
                    && forall m :: Leaf(t, m) && m[0] == q[0] && Less(q, m) ==> m == x || Less(x, m)
    case None => forall m :: Leaf(t, m) && m[0] == q[0] ==> !Less(q, m)
  }

  /** `m` comes after `q`, and `r` extends `q`: then `m` comes after `r` too, unless it extends `q`. */
  lemma AfterSubtree(q: Path, r: Path, m: Path)
    requires q <= r && Less(q, m) && !(q <= m)
    ensures Less(r, m)
  {
    hide Less;
    if m <= q {
      PrefixLess(m, q);
      assert false;
    }
    var k := WhereTheyPart(q, m);
    LessAt(q, m, k);
    assert r[..k] == q[..k] && r[k] == q[k];
    LessAt(r, m, k);
  }

  /** From an inner node the search goes down to its first leaf. */
  lemma InnerSuccessor(t: Tree, q: Path)
    requires WellFormed(t) && q in t && q != [] && t[q] != []
    ensures Successor(t, q, Some(FirstLeaf(t, q)))
  {
    hide WellFormed, Less;
    var r := FirstLeaf(t, q);
    assert r[0] == q[0] && r != q;
    PrefixLess(q, r);
    forall m | Leaf(t, m) && m[0] == q[0] && Less(q, m) ensures m == r || Less(r, m) {
      if q <= m {
        FirstLeafIsLeast(t, q, m);
      } else {
        AfterSubtree(q, r, m);
      }
    }
  }

  /** Position `i` of the children of `q[..d]` is where `q` goes on. */
  predicate At(t: Tree, q: Path, d: nat, i: nat) {
    d < |q| && q[..d] in t && i < |t[q[..d]]| && t[q[..d]][i] == q[d]
  }

  /** `q` goes on with the last child of `q[..k]`. */
  predicate LastChild(t: Tree, q: Path, k: nat) {
    k < |q| && q[..k] in t && t[q[..k]] != [] && t[q[..k]][|t[q[..k]]| - 1] == q[k]
  }

  /** No later sibling at any depth from `d` on. */
  predicate Exhausted(t: Tree, q: Path, d: nat) {
    forall k :: d <= k < |q| ==> LastChild(t, q, k)
  }

  /** Beyond a leaf there are no nodes. */
  lemma NothingBelowLeaf(t: Tree, q: Path, m: Path)
    requires WellFormed(t) && Leaf(t, q) && m in t && q <= m
    ensures m == q
  {
    hide WellFormed;
    if m != q {
      var i := ThroughChild(t, q, m);
      assert false;
    }
  }

  /** A leaf after another leaf parts from it somewhere, towards a larger component. */
  lemma LeavesPart(t: Tree, q: Path, m: Path) returns (k: nat)
    requires WellFormed(t) && Leaf(t, q) && Leaf(t, m) && Less(q, m)
    ensures k < |q| && k < |m| && q[..k] == m[..k] && q[k] < m[k]
  {
    hide WellFormed, Less;
    PrefixLess(q, q);
    if q <= m {
      NothingBelowLeaf(t, q, m);
      assert false;
    }
    if m <= q {
      NothingBelowLeaf(t, m, q);
      assert false;
    }
    k := WhereTheyPart(q, m);
    LessAt(q, m, k);
  }

  /** A larger sibling means that the depth is not exhausted. */
  lemma LargerSibling(t: Tree, q: Path, k: nat, c: nat)
    requires WellFormed(t) && 1 <= k < |q| && q[..k] in t && c in t[q[..k]] && q[k] < c
    ensures !LastChild(t, q, k)
  {
    hide WellFormed;
    var s := t[q[..k]];
    NodeIsGood(t, q[..k]);
    var i :| 0 <= i < |s| && s[i] == c;
    assert s[i] <= s[|s| - 1];
  }

  /** A leaf after `q` parts from it above all exhausted depths. */
  lemma LaterLeafParts(t: Tree, q: Path, d: nat, m: Path) returns (k: nat)
    requires WellFormed(t) && Leaf(t, q) && Leaf(t, m) && m[0] == q[0] && Less(q, m)
    requires 1 <= d && Exhausted(t, q, d)
    ensures 1 <= k < d && k < |q| && k < |m| && q[..k] == m[..k] && q[k] < m[k]
    ensures q[..k] in t && m[k] in t[q[..k]]
  {
    hide WellFormed, Less;
    k := LeavesPart(t, q, m);
    PrefixesAreNodes(t, m, k);
    LargerSibling(t, q, k, m[k]);
  }

  /** With no later sibling anywhere below the root vector there is no successor. */
  lemma NoSuccessor(t: Tree, q: Path)
    requires WellFormed(t) && Leaf(t, q) && Exhausted(t, q, 1)
    ensures Successor(t, q, None)
  {
    hide WellFormed, Less;
    forall m | Leaf(t, m) && m[0] == q[0] ensures !Less(q, m) {
      if Less(q, m) {
        var k := LaterLeafParts(t, q, 1, m);
        assert false;
      }
    }
  }

  /** `m` parts from `q` above depth `d`, or at depth `d` towards child `j`. */
  lemma AfterSibling(t: Tree, q: Path, d: nat, i: nat, m: Path)
    requires WellFormed(t) && Leaf(t, q) && Leaf(t, m) && m[0] == q[0] && Less(q, m)
    requires 1 <= d && At(t, q, d, i) && i + 1 < |t[q[..d]]| && Exhausted(t, q, d + 1)
    requires q[..d] + [t[q[..d]][i + 1]] in t
    ensures var r := FirstLeaf(t, q[..d] + [t[q[..d]][i + 1]]);
            m == r || Less(r, m)
  {
    hide WellFormed, Less;
    var p := q[..d];
    var s := p + [t[p][i + 1]];
    var r := FirstLeaf(t, s);
    var k := LaterLeafParts(t, q, d + 1, m);
    if k == d {
      var j :| 0 <= j < |t[p]| && t[p][j] == m[d];
      if j < i {
        ChildrenAscend(t, p, j, i);
        assert false;
      }
      assert m[..d + 1] == p + [t[p][j]];
      if j == i + 1 {
        assert s <= m;
        FirstLeafIsLeast(t, s, m);
      } else {
        ChildrenAscend(t, p, i + 1, j);
        LessBelow(p, r, m);
      }
    } else {
      assert q[..k] <= p && p[k] == q[k] && r[k] == s[k] == p[k];
      LessBelow(q[..k], r, m);
    }
  }

  /** The first leaf below the next sibling, at the deepest place where there is one. */
  lemma SiblingSuccessor(t: Tree, q: Path, d: nat, i: nat)
    requires WellFormed(t) && Leaf(t, q)
    requires 1 <= d && At(t, q, d, i) && i + 1 < |t[q[..d]]| && Exhausted(t, q, d + 1)
    ensures var s := q[..d] + [t[q[..d]][i + 1]];
            s in t && Successor(t, q, Some(FirstLeaf(t, s)))
  {
    hide WellFormed, Less;
    var p := q[..d];
    ChildIsNode(t, p, i + 1);
    ChildrenAscend(t, p, i, i + 1);
    var s := p + [t[p][i + 1]];
    var r := FirstLeaf(t, s);
    assert r[0] == s[0] == q[0] && r[d] == s[d];
    LessBelow(p, q, r);
    forall m | Leaf(t, m) && m[0] == q[0] && Less(q, m) ensures m == r || Less(r, m) {
      AfterSibling(t, q, d, i, m);
    }
  }
}

/**
 * Rooted trees given as parallel arrays (node values, parent links, ordered
 * child lists, root index), the ancestor relation, and the three depth-first
 * orders the index is built from: pre-order, post-order and the Euler tour.
 */
module Trees {

  /** The tree representation handed to every index: nodes are 0..|values|-1. */
  datatype Tree = Tree(values: seq<int>, parent: seq<int>, children: seq<seq<nat>>, root: nat)

  function Size(t: Tree): (n: nat) { |t.values| }

  /** Shape conditions: consistent parent and child links, one root, no duplicate child. */
  ghost predicate Shaped(t: Tree) {
    var n := |t.values|;
    && |t.parent| == n && |t.children| == n
    && t.root < n && t.parent[t.root] == -1
    && (forall v | 0 <= v < n && v != t.root :: 0 <= t.parent[v] < n && v in t.children[t.parent[v]])
    && (forall v, k | 0 <= v < n && 0 <= k < |t.children[v]| ::
          t.children[v][k] < n && t.parent[t.children[v][k]] == v)
    && (forall v, k1, k2 | 0 <= v < n && 0 <= k1 < k2 < |t.children[v]| ::
          t.children[v][k1] != t.children[v][k2])
  }

  /** A depth assignment: the root at depth 0, every other node one below its parent. */
  ghost predicate IsLevelling(t: Tree, d: seq<nat>)
    requires Shaped(t)
  {
    && |d| == |t.values| && d[t.root] == 0
    && (forall v | 0 <= v < |d| :: d[v] < |d|)
    && (forall v | 0 <= v < |d| && v != t.root :: d[v] == d[t.parent[v]] + 1)
  }

  /** Well-formed: shaped, and following parent links always reaches the root (acyclic, connected). */
  ghost predicate WellFormed(t: Tree) {
    Shaped(t) && exists d :: IsLevelling(t, d)
  }

  ghost function Depth(t: Tree): (d: seq<nat>)
    requires WellFormed(t)
    ensures IsLevelling(t, d)
  {
    var d :| IsLevelling(t, d); d
  }

  lemma ChildDepth(t: Tree, v: nat, k: nat)
    requires WellFormed(t) && v < Size(t) && k < |t.children[v]|
    ensures t.children[v][k] < Size(t) && t.children[v][k] != t.root
    ensures t.parent[t.children[v][k]] == v
    ensures Depth(t)[t.children[v][k]] == Depth(t)[v] + 1
  {
    var c := t.children[v][k];
    assert t.parent[c] == v;
  }

  /** a is an ancestor of x (every node is its own ancestor). */
  ghost predicate IsAncestor(t: Tree, a: nat, x: nat)
    requires WellFormed(t) && x < Size(t)
    decreases Depth(t)[x]
  {
    a == x || (x != t.root && IsAncestor(t, a, t.parent[x] as nat))
  }

  /** a is the lowest common ancestor of x and y. */
  ghost predicate IsLca(t: Tree, a: nat, x: nat, y: nat)
    requires WellFormed(t) && x < Size(t) && y < Size(t)
  {
    && a < Size(t) && IsAncestor(t, a, x) && IsAncestor(t, a, y)
    && forall w | 0 <= w < Size(t) && IsAncestor(t, w, x) && IsAncestor(t, w, y) :: IsAncestor(t, w, a)
  }

  lemma {:induction false} AncestorDepth(t: Tree, a: nat, x: nat)
    requires WellFormed(t) && x < Size(t) && IsAncestor(t, a, x)
    ensures a < Size(t) && Depth(t)[a] <= Depth(t)[x]
    ensures Depth(t)[a] == Depth(t)[x] ==> a == x
    decreases Depth(t)[x]
  {
    if a != x {
      AncestorDepth(t, a, t.parent[x] as nat);
    }
  }

  lemma {:induction false} RootIsAncestor(t: Tree, x: nat)
    requires WellFormed(t) && x < Size(t)
    ensures IsAncestor(t, t.root, x)
    decreases Depth(t)[x]
  {
    if x != t.root {
      RootIsAncestor(t, t.parent[x] as nat);
    }
  }

  lemma {:induction false} AncestorTransitive(t: Tree, a: nat, b: nat, x: nat)
    requires WellFormed(t) && b < Size(t) && x < Size(t)
    requires IsAncestor(t, a, b) && IsAncestor(t, b, x)
    ensures IsAncestor(t, a, x)
    decreases Depth(t)[x]
  {
    if b != x {
      AncestorTransitive(t, a, b, t.parent[x] as nat);
    }
  }

  lemma {:induction false} AncestorsComparable(t: Tree, a: nat, b: nat, x: nat)
    requires WellFormed(t) && x < Size(t)
    requires IsAncestor(t, a, x) && IsAncestor(t, b, x)
    ensures a < Size(t) && b < Size(t)
    ensures IsAncestor(t, a, b) || IsAncestor(t, b, a)
    decreases Depth(t)[x]
  {
    AncestorDepth(t, a, x);
    AncestorDepth(t, b, x);
    if a != x && b != x {
      AncestorsComparable(t, a, b, t.parent[x] as nat);
    }
  }

  lemma AncestorAntisymmetric(t: Tree, a: nat, b: nat)
    requires WellFormed(t) && a < Size(t) && b < Size(t)
    requires IsAncestor(t, a, b) && IsAncestor(t, b, a)
    ensures a == b
  {
    AncestorDepth(t, a, b);
    AncestorDepth(t, b, a);
  }

  /** Two ancestors of one node at the same depth are the same node. */
  lemma SameDepthAncestors(t: Tree, a: nat, b: nat, x: nat)
    requires WellFormed(t) && x < Size(t)
    requires IsAncestor(t, a, x) && IsAncestor(t, b, x)
    requires a < Size(t) && b < Size(t) && Depth(t)[a] == Depth(t)[b]
    ensures a == b
  {
    AncestorsComparable(t, a, b, x);
    if IsAncestor(t, a, b) { AncestorDepth(t, a, b); } else { AncestorDepth(t, b, a); }
  }

  /** The lowest common ancestor is unique. */
  lemma LcaUnique(t: Tree, a: nat, b: nat, x: nat, y: nat)
    requires WellFormed(t) && x < Size(t) && y < Size(t)
    requires IsLca(t, a, x, y) && IsLca(t, b, x, y)
    ensures a == b
  {
    AncestorAntisymmetric(t, a, b);
  }

  lemma LcaSymmetric(t: Tree, a: nat, x: nat, y: nat)
    requires WellFormed(t) && x < Size(t) && y < Size(t)
    ensures IsLca(t, a, x, y) <==> IsLca(t, a, y, x)
  {
  }

  /** The child of v on the way down to its proper descendant x. */
  ghost function ChildToward(t: Tree, v: nat, x: nat): (c: nat)
    requires WellFormed(t) && x < Size(t) && IsAncestor(t, v, x) && x != v
    ensures c < Size(t) && c != t.root && t.parent[c] == v && IsAncestor(t, c, x)
    ensures c in t.children[v]
    decreases Depth(t)[x]
  {
    var p := t.parent[x] as nat;
    if p == v then x else ChildToward(t, v, p)
  }

  /** A descendant of a child c of v has c as the child toward it. */
  lemma ChildTowardOfChild(t: Tree, v: nat, c: nat, x: nat)
    requires WellFormed(t) && v < Size(t) && x < Size(t)
    requires c in t.children[v] && IsAncestor(t, c, x)
    ensures IsAncestor(t, v, x) && x != v && ChildToward(t, v, x) == c
  {
    var k :| 0 <= k < |t.children[v]| && t.children[v][k] == c;
    ChildDepth(t, v, k);
    assert IsAncestor(t, v, c);
    AncestorTransitive(t, v, c, x);
    AncestorDepth(t, c, x);
    var r := ChildToward(t, v, x);
    SameDepthAncestors(t, r, c, x);
  }
}

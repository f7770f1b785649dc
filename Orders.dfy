/**
 * The depth-first orders of a well-formed tree, visiting children left to
 * right: pre-order, post-order, and the Euler tour that lists a node on entry
 * and again after each of its children returns.
 */
module TreeOrders {
  import opened Trees

  ghost predicate NoDup(s: seq<nat>) {
    forall i, j | 0 <= i < j < |s| :: s[i] != s[j]
  }

  // ---------------------------------------------------------------- pre-order

  function PreOrder(t: Tree, v: nat): (s: seq<nat>)
    requires WellFormed(t) && v < Size(t)
    ensures forall i | 0 <= i < |s| :: s[i] < Size(t)
    decreases Size(t) - Depth(t)[v], 1, 0
  {
    [v] + PreOrders(t, v, 0)
  }

  /** Pre-orders of the subtrees of children k.. of v, concatenated. */
  function PreOrders(t: Tree, v: nat, k: nat): (s: seq<nat>)
    requires WellFormed(t) && v < Size(t) && k <= |t.children[v]|
    ensures forall i | 0 <= i < |s| :: s[i] < Size(t)
    decreases Size(t) - Depth(t)[v], 0, |t.children[v]| - k
  {
    if k == |t.children[v]| then []
    else
      ChildDepth(t, v, k);
      PreOrder(t, t.children[v][k]) + PreOrders(t, v, k + 1)
  }

  // --------------------------------------------------------------- post-order

  function PostOrder(t: Tree, v: nat): (s: seq<nat>)
    requires WellFormed(t) && v < Size(t)
    ensures forall i | 0 <= i < |s| :: s[i] < Size(t)
    decreases Size(t) - Depth(t)[v], 1, 0
  {
    PostOrders(t, v, 0) + [v]
  }

  function PostOrders(t: Tree, v: nat, k: nat): (s: seq<nat>)
    requires WellFormed(t) && v < Size(t) && k <= |t.children[v]|
    ensures forall i | 0 <= i < |s| :: s[i] < Size(t)
    decreases Size(t) - Depth(t)[v], 0, |t.children[v]| - k
  {
    if k == |t.children[v]| then []
    else
      ChildDepth(t, v, k);
      PostOrder(t, t.children[v][k]) + PostOrders(t, v, k + 1)
  }

  // --------------------------------------------------------------- Euler tour

  function Tour(t: Tree, v: nat): (s: seq<nat>)
    requires WellFormed(t) && v < Size(t)
    ensures forall i | 0 <= i < |s| :: s[i] < Size(t)
    decreases Size(t) - Depth(t)[v], 1, 0
  {
    [v] + Tours(t, v, 0)
  }

  /** For each child k.. of v: the child's tour followed by v again. */
  function Tours(t: Tree, v: nat, k: nat): (s: seq<nat>)
    requires WellFormed(t) && v < Size(t) && k <= |t.children[v]|
    ensures forall i | 0 <= i < |s| :: s[i] < Size(t)
    decreases Size(t) - Depth(t)[v], 0, |t.children[v]| - k
  {
    if k == |t.children[v]| then []
    else
      ChildDepth(t, v, k);
      Tour(t, t.children[v][k]) + [v] + Tours(t, v, k + 1)
  }

  // ------------------------------------------------------------ membership

  /** Pre-order of v lists exactly the descendants of v. */
  lemma {:induction false} PreOrderMembers(t: Tree, v: nat)
    requires WellFormed(t) && v < Size(t)
    ensures forall x: nat :: x in PreOrder(t, v) <==> x < Size(t) && IsAncestor(t, v, x)
    decreases Size(t) - Depth(t)[v], 1, 0
  {
    PreOrdersMembers(t, v, 0);
    assert t.children[v][0..] == t.children[v];
  }

  lemma {:induction false} PreOrdersMembers(t: Tree, v: nat, k: nat)
    requires WellFormed(t) && v < Size(t) && k <= |t.children[v]|
    ensures forall x: nat :: x in PreOrders(t, v, k) <==>
      x < Size(t) && IsAncestor(t, v, x) && x != v && ChildToward(t, v, x) in t.children[v][k..]
    decreases Size(t) - Depth(t)[v], 0, |t.children[v]| - k
  {
    if k < |t.children[v]| {
      var c := t.children[v][k];
      ChildDepth(t, v, k);
      PreOrderMembers(t, c);
      PreOrdersMembers(t, v, k + 1);
      assert t.children[v][k..] == [c] + t.children[v][k + 1..];
      forall x | x in PreOrder(t, c)
        ensures IsAncestor(t, v, x) && x != v && ChildToward(t, v, x) == c
      {
        ChildTowardOfChild(t, v, c, x);
      }
    }
  }

  lemma {:induction false} PostOrderMembers(t: Tree, v: nat)
    requires WellFormed(t) && v < Size(t)
    ensures forall x: nat :: x in PostOrder(t, v) <==> x < Size(t) && IsAncestor(t, v, x)
    decreases Size(t) - Depth(t)[v], 1, 0
  {
    PostOrdersMembers(t, v, 0);
    assert t.children[v][0..] == t.children[v];
  }

  lemma {:induction false} PostOrdersMembers(t: Tree, v: nat, k: nat)
    requires WellFormed(t) && v < Size(t) && k <= |t.children[v]|
    ensures forall x: nat :: x in PostOrders(t, v, k) <==>
      x < Size(t) && IsAncestor(t, v, x) && x != v && ChildToward(t, v, x) in t.children[v][k..]
    decreases Size(t) - Depth(t)[v], 0, |t.children[v]| - k
  {
    if k < |t.children[v]| {
      var c := t.children[v][k];
      ChildDepth(t, v, k);
      PostOrderMembers(t, c);
      PostOrdersMembers(t, v, k + 1);
      assert t.children[v][k..] == [c] + t.children[v][k + 1..];
      forall x | x in PostOrder(t, c)
        ensures IsAncestor(t, v, x) && x != v && ChildToward(t, v, x) == c
      {
        ChildTowardOfChild(t, v, c, x);
      }
    }
  }

  /** Every entry of v's tour is a descendant of v. */
  lemma {:induction false} TourMembers(t: Tree, v: nat)
    requires WellFormed(t) && v < Size(t)
    ensures forall x :: x in Tour(t, v) ==> x < Size(t) && IsAncestor(t, v, x)
    decreases Size(t) - Depth(t)[v], 1, 0
  {
    ToursMembers(t, v, 0);
  }

  lemma {:induction false} ToursMembers(t: Tree, v: nat, k: nat)
    requires WellFormed(t) && v < Size(t) && k <= |t.children[v]|
    ensures forall x :: x in Tours(t, v, k) ==>
      (x < Size(t) && IsAncestor(t, v, x) && (x == v || ChildToward(t, v, x) in t.children[v][k..]))
    decreases Size(t) - Depth(t)[v], 0, |t.children[v]| - k
  {
    if k < |t.children[v]| {
      var c := t.children[v][k];
      ChildDepth(t, v, k);
      TourMembers(t, c);
      ToursMembers(t, v, k + 1);
      assert t.children[v][k..] == [c] + t.children[v][k + 1..];
      forall x | x in Tour(t, c)
        ensures IsAncestor(t, v, x) && x != v && ChildToward(t, v, x) == c
      {
        ChildTowardOfChild(t, v, c, x);
      }
    }
  }

  // ------------------------------------------------------ no duplicates

  lemma NoDupConcat(a: seq<nat>, b: seq<nat>)
    requires NoDup(a) && NoDup(b) && forall x :: x in a ==> x !in b
    ensures NoDup(a + b)
  {
    forall i, j | 0 <= i < j < |a + b| ensures (a + b)[i] != (a + b)[j] {
      if j < |a| {
      } else if i >= |a| {
        assert (a + b)[i] == b[i - |a|] && (a + b)[j] == b[j - |a|];
      } else {
        assert (a + b)[i] in a && (a + b)[j] in b;
      }
    }
  }

  /** A child's subtree shares no node with the subtrees of the later children. */
  lemma LaterSiblingsDisjoint(t: Tree, v: nat, k: nat, x: nat)
    requires WellFormed(t) && v < Size(t) && k < |t.children[v]|
    requires x < Size(t) && IsAncestor(t, t.children[v][k], x)
    ensures IsAncestor(t, v, x) && x != v
    ensures ChildToward(t, v, x) !in t.children[v][k + 1..]
  {
    var c := t.children[v][k];
    ChildTowardOfChild(t, v, c, x);
    var later := t.children[v][k + 1..];
    assert forall m | 0 <= m < |later| :: later[m] == t.children[v][k + 1 + m] != c;
  }

  lemma {:induction false} PreOrderNoDup(t: Tree, v: nat)
    requires WellFormed(t) && v < Size(t)
    ensures NoDup(PreOrder(t, v))
    decreases Size(t) - Depth(t)[v], 1, 0
  {
    PreOrdersNoDup(t, v, 0);
    PreOrdersMembers(t, v, 0);
    NoDupConcat([v], PreOrders(t, v, 0));
  }

  lemma {:induction false} PreOrdersNoDup(t: Tree, v: nat, k: nat)
    requires WellFormed(t) && v < Size(t) && k <= |t.children[v]|
    ensures NoDup(PreOrders(t, v, k))
    decreases Size(t) - Depth(t)[v], 0, |t.children[v]| - k
  {
    if k < |t.children[v]| {
      var c := t.children[v][k];
      ChildDepth(t, v, k);
      PreOrderNoDup(t, c);
      PreOrdersNoDup(t, v, k + 1);
      PreOrderMembers(t, c);
      PreOrdersMembers(t, v, k + 1);
      forall x | x in PreOrder(t, c) ensures x !in PreOrders(t, v, k + 1) {
        LaterSiblingsDisjoint(t, v, k, x);
      }
      NoDupConcat(PreOrder(t, c), PreOrders(t, v, k + 1));
    }
  }

  lemma {:induction false} PostOrderNoDup(t: Tree, v: nat)
    requires WellFormed(t) && v < Size(t)
    ensures NoDup(PostOrder(t, v))
    decreases Size(t) - Depth(t)[v], 1, 0
  {
    PostOrdersNoDup(t, v, 0);
    PostOrdersMembers(t, v, 0);
    NoDupConcat(PostOrders(t, v, 0), [v]);
  }

  lemma {:induction false} PostOrdersNoDup(t: Tree, v: nat, k: nat)
    requires WellFormed(t) && v < Size(t) && k <= |t.children[v]|
    ensures NoDup(PostOrders(t, v, k))
    decreases Size(t) - Depth(t)[v], 0, |t.children[v]| - k
  {
    if k < |t.children[v]| {
      var c := t.children[v][k];
      ChildDepth(t, v, k);
      PostOrderNoDup(t, c);
      PostOrdersNoDup(t, v, k + 1);
      PostOrderMembers(t, c);
      PostOrdersMembers(t, v, k + 1);
      forall x | x in PostOrder(t, c) ensures x !in PostOrders(t, v, k + 1) {
        LaterSiblingsDisjoint(t, v, k, x);
      }
      NoDupConcat(PostOrder(t, c), PostOrders(t, v, k + 1));
    }
  }

  // ------------------------------------------------------------ lengths

  /** The tour lists each node once on entry and once more per child: 2|subtree| - 1 entries. */
  lemma {:induction false} OrderLengths(t: Tree, v: nat)
    requires WellFormed(t) && v < Size(t)
    ensures |PostOrder(t, v)| == |PreOrder(t, v)|
    ensures |Tour(t, v)| == 2 * |PreOrder(t, v)| - 1
    decreases Size(t) - Depth(t)[v], 1, 0
  {
    OrdersLengths(t, v, 0);
  }

  lemma {:induction false} OrdersLengths(t: Tree, v: nat, k: nat)
    requires WellFormed(t) && v < Size(t) && k <= |t.children[v]|
    ensures |PostOrders(t, v, k)| == |PreOrders(t, v, k)|
    ensures |Tours(t, v, k)| == 2 * |PreOrders(t, v, k)|
    decreases Size(t) - Depth(t)[v], 0, |t.children[v]| - k
  {
    if k < |t.children[v]| {
      ChildDepth(t, v, k);
      OrderLengths(t, t.children[v][k]);
      OrdersLengths(t, v, k + 1);
    }
  }

  // ------------------------------------------------- whole tree, counting

  /** The nodes 0..n-1 as a set. */
  function Range(n: nat): (r: set<nat>)
    ensures forall x: nat :: x in r <==> x < n
    ensures |r| == n
  {
    if n == 0 then {} else
      var r := Range(n - 1);
      assert n - 1 !in r;
      r + {n - 1}
  }

  /** The entries of s as a set. */
  function Elems(s: seq<nat>): (r: set<nat>)
    ensures forall x: nat :: x in r <==> x in s
  {
    if s == [] then {} else {s[0]} + Elems(s[1..])
  }

  lemma NoDupCard(s: seq<nat>)
    requires NoDup(s)
    ensures |Elems(s)| == |s|
  {
    if s != [] {
      var tail := s[1..];
      assert NoDup(tail) by {
        forall i, j | 0 <= i < j < |tail| ensures tail[i] != tail[j] {
          assert tail[i] == s[i + 1] && tail[j] == s[j + 1];
        }
      }
      NoDupCard(tail);
      assert s[0] !in tail by {
        forall i | 0 <= i < |tail| ensures tail[i] != s[0] { assert tail[i] == s[i + 1]; }
      }
    }
  }

  /** A duplicate-free sequence holding exactly 0..n-1 has length n. */
  lemma PermutationLength(s: seq<nat>, n: nat)
    requires NoDup(s) && forall x: nat :: x in s <==> x < n
    ensures |s| == n
  {
    NoDupCard(s);
    assert Elems(s) == Range(n);
  }

  /** Pre-order from the root is a permutation of the nodes, starting at the root. */
  lemma PreOrderIsPermutation(t: Tree)
    requires WellFormed(t)
    ensures NoDup(PreOrder(t, t.root)) && |PreOrder(t, t.root)| == Size(t)
    ensures forall x: nat :: x in PreOrder(t, t.root) <==> x < Size(t)
    ensures PreOrder(t, t.root)[0] == t.root
  {
    PreOrderMembers(t, t.root);
    PreOrderNoDup(t, t.root);
    forall x: nat | x < Size(t) ensures x in PreOrder(t, t.root) { RootIsAncestor(t, x); }
    PermutationLength(PreOrder(t, t.root), Size(t));
  }

  /** Post-order from the root is a permutation of the nodes, ending at the root. */
  lemma PostOrderIsPermutation(t: Tree)
    requires WellFormed(t)
    ensures NoDup(PostOrder(t, t.root)) && |PostOrder(t, t.root)| == Size(t)
    ensures forall x: nat :: x in PostOrder(t, t.root) <==> x < Size(t)
    ensures PostOrder(t, t.root)[Size(t) - 1] == t.root
  {
    PostOrderMembers(t, t.root);
    PostOrderNoDup(t, t.root);
    forall x: nat | x < Size(t) ensures x in PostOrder(t, t.root) { RootIsAncestor(t, x); }
    PermutationLength(PostOrder(t, t.root), Size(t));
  }

  /** The Euler tour from the root has 2n - 1 entries. */
  lemma TourLength(t: Tree)
    requires WellFormed(t)
    ensures |Tour(t, t.root)| == 2 * Size(t) - 1
  {
    PreOrderIsPermutation(t);
    OrderLengths(t, t.root);
  }

  // ------------------------------------------------------- plus-minus one

  ghost predicate UnitStep(t: Tree, x: nat, y: nat)
    requires WellFormed(t) && x < Size(t) && y < Size(t)
  {
    Depth(t)[y] == Depth(t)[x] + 1 || Depth(t)[x] == Depth(t)[y] + 1
  }

  /** Consecutive entries of s are one level apart. */
  ghost predicate UnitSteps(t: Tree, s: seq<nat>)
    requires WellFormed(t)
  {
    forall i, j | 0 <= i && j == i + 1 && j < |s| :: s[i] < Size(t) && s[j] < Size(t) && UnitStep(t, s[i], s[j])
  }

  lemma UnitStepsConcat(t: Tree, a: seq<nat>, b: seq<nat>)
    requires WellFormed(t) && UnitSteps(t, a) && UnitSteps(t, b)
    requires a != [] && b != [] && a[|a| - 1] < Size(t) && b[0] < Size(t)
    requires UnitStep(t, a[|a| - 1], b[0])
    ensures UnitSteps(t, a + b)
  {
    forall i, j | 0 <= i && j == i + 1 && j < |a + b|
      ensures (a + b)[i] < Size(t) && (a + b)[j] < Size(t) && UnitStep(t, (a + b)[i], (a + b)[j])
    {
      if i < |a| - 1 {
        assert (a + b)[i] == a[i] && (a + b)[j] == a[i + 1];
      } else if i == |a| - 1 {
        assert (a + b)[i] == a[|a| - 1] && (a + b)[j] == b[0];
      } else {
        assert (a + b)[i] == b[i - |a|] && (a + b)[j] == b[i - |a| + 1];
      }
    }
  }

  /** A tour starts and ends at its node, and moves one level per step. */
  lemma {:induction false} TourSteps(t: Tree, v: nat)
    requires WellFormed(t) && v < Size(t)
    ensures Tour(t, v)[0] == v && Tour(t, v)[|Tour(t, v)| - 1] == v
    ensures UnitSteps(t, Tour(t, v))
    decreases Size(t) - Depth(t)[v], 1, 0
  {
    ToursSteps(t, v, 0);
    var rest := Tours(t, v, 0);
    if rest != [] {
      ChildDepth(t, v, 0);
      UnitStepsConcat(t, [v], rest);
    }
  }

  lemma {:induction false} ToursSteps(t: Tree, v: nat, k: nat)
    requires WellFormed(t) && v < Size(t) && k <= |t.children[v]|
    ensures Tours(t, v, k) != [] <==> k < |t.children[v]|
    ensures k < |t.children[v]| ==>
      Tours(t, v, k)[0] == t.children[v][k] && Tours(t, v, k)[|Tours(t, v, k)| - 1] == v
    ensures UnitSteps(t, Tours(t, v, k))
    decreases Size(t) - Depth(t)[v], 0, |t.children[v]| - k
  {
    if k < |t.children[v]| {
      var c := t.children[v][k];
      ChildDepth(t, v, k);
      TourSteps(t, c);
      ToursSteps(t, v, k + 1);
      var a := Tour(t, c);
      UnitStepsConcat(t, a, [v]);
      var rest := Tours(t, v, k + 1);
      assert Tours(t, v, k) == a + [v] + rest;
      if rest != [] {
        ChildDepth(t, v, k + 1);
        UnitStepsConcat(t, a + [v], rest);
      } else {
        assert a + [v] + rest == a + [v];
      }
    }
  }

  // ------------------------------------------------------ LCA in the tour

  /**
   * x lies below child k of v and y is v or lies below a later child of v:
   * every common ancestor of x and y is an ancestor of v.
   */
  lemma CommonAncestorAcrossChildren(t: Tree, v: nat, k: nat, x: nat, y: nat, w: nat)
    requires WellFormed(t) && v < Size(t) && k < |t.children[v]| && x < Size(t) && y < Size(t)
    requires IsAncestor(t, t.children[v][k], x)
    requires y == v || (IsAncestor(t, v, y) && y != v && ChildToward(t, v, y) in t.children[v][k + 1..])
    requires IsAncestor(t, w, x) && IsAncestor(t, w, y)
    ensures IsAncestor(t, w, v)
  {
    var c := t.children[v][k];
    ChildDepth(t, v, k);
    ChildTowardOfChild(t, v, c, x);
    AncestorsComparable(t, w, v, x);
    if !IsAncestor(t, w, v) {
      AncestorsComparable(t, c, w, x);
      assert IsAncestor(t, c, w);
      AncestorTransitive(t, c, w, y);
      if y == v {
        AncestorDepth(t, c, v);
      } else {
        LaterSiblingsDisjoint(t, v, k, y);
      }
      assert false;
    }
  }

  /**
   * Between two positions of a tour there is an entry that is an ancestor of
   * every entry in between and the lowest common ancestor of the two ends.
   */
  lemma {:induction false} TourLca(t: Tree, v: nat, p: nat, q: nat) returns (r: nat)
    requires WellFormed(t) && v < Size(t) && p <= q < |Tour(t, v)|
    ensures p <= r <= q
    ensures forall k | p <= k <= q :: IsAncestor(t, Tour(t, v)[r], Tour(t, v)[k])
    ensures IsLca(t, Tour(t, v)[r], Tour(t, v)[p], Tour(t, v)[q])
    decreases Size(t) - Depth(t)[v], 1, 0, 0
  {
    var s := Tour(t, v);
    if p == 0 {
      r := 0;
      forall k | p <= k <= q ensures IsAncestor(t, s[r], s[k]) {
        TourEntryBelow(t, v, k);
      }
    } else {
      var off := 1;
      var a := Tours(t, v, 0);
      assert forall i | off <= i < off + |a| :: s[i] == a[i - off];
      var r' := ToursLca(t, v, 0, p - off, q - off);
      r := off + r';
      ShiftLca(t, a, s, off, p, q, r', r);
    }
  }

  lemma {:induction false} ToursLca(t: Tree, v: nat, k: nat, p: nat, q: nat) returns (r: nat)
    requires WellFormed(t) && v < Size(t) && k <= |t.children[v]| && p <= q < |Tours(t, v, k)|
    ensures p <= r <= q
    ensures forall i | p <= i <= q :: IsAncestor(t, Tours(t, v, k)[r], Tours(t, v, k)[i])
    ensures IsLca(t, Tours(t, v, k)[r], Tours(t, v, k)[p], Tours(t, v, k)[q])
    decreases Size(t) - Depth(t)[v], 0, |t.children[v]| - k, 1
  {
    var sep := |Tour(t, t.children[v][k])|;
    if q < sep {
      r := ToursLcaFirst(t, v, k, p, q);
    } else if p > sep {
      r := ToursLcaRest(t, v, k, p, q);
    } else {
      r := sep;
      SeparatorLca(t, v, k, p, q);
    }
  }

  /** A range inside child k's tour: its answer, shifted to the front of the tours. */
  lemma {:induction false} ToursLcaFirst(t: Tree, v: nat, k: nat, p: nat, q: nat) returns (r: nat)
    requires WellFormed(t) && v < Size(t) && k < |t.children[v]|
    requires p <= q < |Tour(t, t.children[v][k])|
    ensures q < |Tours(t, v, k)| && p <= r <= q
    ensures forall i | p <= i <= q :: IsAncestor(t, Tours(t, v, k)[r], Tours(t, v, k)[i])
    ensures IsLca(t, Tours(t, v, k)[r], Tours(t, v, k)[p], Tours(t, v, k)[q])
    decreases Size(t) - Depth(t)[v], 0, |t.children[v]| - k, 0
  {
    var c := t.children[v][k];
    ChildDepth(t, v, k);
    ToursHead(t, v, k);
    var off := 0;
    var r' := TourLca(t, c, p - off, q - off);
    r := off + r';
    ShiftLca(t, Tour(t, c), Tours(t, v, k), off, p, q, r', r);
  }

  /** A range inside the tours from child k+1 on: their answer, shifted past child k's tour. */
  lemma {:induction false} ToursLcaRest(t: Tree, v: nat, k: nat, p: nat, q: nat) returns (r: nat)
    requires WellFormed(t) && v < Size(t) && k < |t.children[v]|
    requires |Tour(t, t.children[v][k])| < p <= q < |Tours(t, v, k)|
    ensures p <= r <= q
    ensures forall i | p <= i <= q :: IsAncestor(t, Tours(t, v, k)[r], Tours(t, v, k)[i])
    ensures IsLca(t, Tours(t, v, k)[r], Tours(t, v, k)[p], Tours(t, v, k)[q])
    decreases Size(t) - Depth(t)[v], 0, |t.children[v]| - k, 0
  {
    ToursTail(t, v, k);
    var off := |Tour(t, t.children[v][k])| + 1;
    var r' := ToursLca(t, v, k + 1, p - off, q - off);
    r := off + r';
    ShiftLca(t, Tours(t, v, k + 1), Tours(t, v, k), off, p, q, r', r);
  }

  /** The tours from child k on: child k's tour, a re-entry of v, then the tours from child k+1 on. */
  lemma ToursSplit(t: Tree, v: nat, k: nat)
    requires WellFormed(t) && v < Size(t) && k < |t.children[v]|
    ensures var c := t.children[v][k]; var s := Tours(t, v, k);
      && |s| == |Tour(t, c)| + 1 + |Tours(t, v, k + 1)|
      && (forall i | 0 <= i < |Tour(t, c)| :: s[i] == Tour(t, c)[i - 0])
      && s[|Tour(t, c)|] == v
      && (forall i | |Tour(t, c)| + 1 <= i < |s| :: s[i] == Tours(t, v, k + 1)[i - (|Tour(t, c)| + 1)])
  {
    ChildDepth(t, v, k);
    var c := t.children[v][k];
    assert Tours(t, v, k) == Tour(t, c) + [v] + Tours(t, v, k + 1);
  }

  /** The tours from child k on begin with child k's tour. */
  lemma ToursHead(t: Tree, v: nat, k: nat)
    requires WellFormed(t) && v < Size(t) && k < |t.children[v]|
    ensures |Tour(t, t.children[v][k])| <= |Tours(t, v, k)|
    ensures forall i | 0 <= i < |Tour(t, t.children[v][k])| :: Tours(t, v, k)[i] == Tour(t, t.children[v][k])[i - 0]
  {
    ToursSplit(t, v, k);
  }

  /** The tours from child k on end with the tours from child k+1 on. */
  lemma ToursTail(t: Tree, v: nat, k: nat)
    requires WellFormed(t) && v < Size(t) && k < |t.children[v]|
    ensures |Tours(t, v, k)| == |Tour(t, t.children[v][k])| + 1 + |Tours(t, v, k + 1)|
    ensures forall i | |Tour(t, t.children[v][k])| + 1 <= i < |Tours(t, v, k)| ::
      Tours(t, v, k)[i] == Tours(t, v, k + 1)[i - (|Tour(t, t.children[v][k])| + 1)]
  {
    ToursSplit(t, v, k);
  }

  /** Transfers the conclusion of TourLca from a segment a to a sequence s holding a at offset off. */
  lemma ShiftLca(t: Tree, a: seq<nat>, s: seq<nat>, off: nat, p: nat, q: nat, r: nat, r0: nat)
    requires WellFormed(t) && off <= p <= q < off + |a| <= |s| && p - off <= r <= q - off && r0 == off + r
    requires forall i | off <= i < off + |a| :: s[i] == a[i - off]
    requires forall i | 0 <= i < |a| :: a[i] < Size(t)
    requires forall i | p - off <= i <= q - off :: IsAncestor(t, a[r], a[i])
    requires IsLca(t, a[r], a[p - off], a[q - off])
    ensures forall i | p <= i <= q :: s[i] < Size(t) && IsAncestor(t, s[r0], s[i])
    ensures s[p] < Size(t) && s[q] < Size(t)
    ensures IsLca(t, s[r0], s[p], s[q])
  {
    assert s[p] == a[p - off] && s[q] == a[q - off] && s[r0] == a[r];
    forall i | p <= i <= q ensures s[i] < Size(t) && IsAncestor(t, s[r0], s[i]) {
      assert s[i] == a[i - off];
    }
  }

  /** When the range reaches child k's closing re-entry of v, v is the answer. */
  lemma SeparatorLca(t: Tree, v: nat, k: nat, p: nat, q: nat)
    requires WellFormed(t) && v < Size(t) && k < |t.children[v]|
    requires p <= |Tour(t, t.children[v][k])| <= q < |Tours(t, v, k)|
    ensures Tours(t, v, k)[|Tour(t, t.children[v][k])|] == v
    ensures forall i | p <= i <= q :: IsAncestor(t, v, Tours(t, v, k)[i])
    ensures IsLca(t, v, Tours(t, v, k)[p], Tours(t, v, k)[q])
  {
    var s := Tours(t, v, k);
    var c := t.children[v][k];
    ChildDepth(t, v, k);
    ToursSplit(t, v, k);
    forall i | p <= i <= q ensures IsAncestor(t, v, s[i]) {
      ToursEntryBelow(t, v, k, i);
    }
    if p < |Tour(t, c)| {
      TourEntryBelow(t, c, p);
      if q > |Tour(t, c)| {
        ToursEntryBelow(t, v, k + 1, q - (|Tour(t, c)| + 1));
      }
      AcrossChildrenLca(t, v, k, s[p], s[q]);
    }
  }

  /** Every entry of the tour from c lies below c. */
  lemma TourEntryBelow(t: Tree, c: nat, i: nat)
    requires WellFormed(t) && c < Size(t) && i < |Tour(t, c)|
    ensures Tour(t, c)[i] < Size(t) && IsAncestor(t, c, Tour(t, c)[i])
  {
    TourMembers(t, c);
    assert Tour(t, c)[i] in Tour(t, c);
  }

  /** Every entry of the tours from child k on is v or lies below one of the children from k on. */
  lemma ToursEntryBelow(t: Tree, v: nat, k: nat, i: nat)
    requires WellFormed(t) && v < Size(t) && k <= |t.children[v]| && i < |Tours(t, v, k)|
    ensures var y := Tours(t, v, k)[i];
      y < Size(t) && IsAncestor(t, v, y) && (y == v || ChildToward(t, v, y) in t.children[v][k..])
  {
    ToursMembers(t, v, k);
    assert Tours(t, v, k)[i] in Tours(t, v, k);
  }

  /** x below child k of v and y at v or below a later child: v is their lowest common ancestor. */
  lemma AcrossChildrenLca(t: Tree, v: nat, k: nat, x: nat, y: nat)
    requires WellFormed(t) && v < Size(t) && k < |t.children[v]| && x < Size(t) && y < Size(t)
    requires IsAncestor(t, t.children[v][k], x)
    requires y == v || (IsAncestor(t, v, y) && y != v && ChildToward(t, v, y) in t.children[v][k + 1..])
    ensures IsLca(t, v, x, y)
  {
    ChildDepth(t, v, k);
    ChildTowardOfChild(t, v, t.children[v][k], x);
    forall w | 0 <= w < Size(t) && IsAncestor(t, w, x) && IsAncestor(t, w, y)
      ensures IsAncestor(t, w, v)
    {
      CommonAncestorAcrossChildren(t, v, k, x, y, w);
    }
  }

  /** Any minimum-depth entry between two tour positions is the lowest common ancestor of the ends. */
  lemma TourMinDepthIsLca(t: Tree, v: nat, p: nat, q: nat, m: nat)
    requires WellFormed(t) && v < Size(t) && p <= m <= q < |Tour(t, v)|
    requires forall k | p <= k <= q :: Depth(t)[Tour(t, v)[m]] <= Depth(t)[Tour(t, v)[k]]
    ensures IsLca(t, Tour(t, v)[m], Tour(t, v)[p], Tour(t, v)[q])
  {
    var s := Tour(t, v);
    var r := TourLca(t, v, p, q);
    AncestorDepth(t, s[r], s[m]);
  }
}

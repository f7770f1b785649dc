/**
 * The Cartesian tree of a sequence, built with a monotone stack
 * (RMQ::buildCartesianTree): node x's parent is whichever of its nearest
 * smaller neighbours lies deeper, every node's value is at least its
 * parent's, a node strictly left of its parent is the left child, and the
 * tree's ancestor relation is "lies above every position in between".  That
 * last fact is what turns a range minimum into a lowest common ancestor.
 *
 * Ties are broken the way the stack breaks them: an element pops every stack
 * entry whose value is greater than or equal to its own, so of two equal
 * values the later one ends up higher in the tree.
 */
module Cartesian {
  import opened Trees
  import opened TreeOrders

  /** a lies above b: a smaller value, or an equal value at a later position. */
  predicate Above(v: seq<int>, a: nat, b: nat)
    requires a < |v| && b < |v|
  {
    v[a] < v[b] || (v[a] == v[b] && a > b)
  }

  /** k lies between a and b (inclusive), in either order. */
  predicate Between(k: int, a: int, b: int) {
    (a <= k <= b) || (b <= k <= a)
  }

  /** a lies above every other position between a and x. */
  ghost predicate Covers(v: seq<int>, a: nat, x: nat)
    requires a < |v| && x < |v|
  {
    forall k: nat | Between(k, a, x) :: k == a || Above(v, a, k)
  }

  /** The nearest position left of k holding a value smaller than v[x], or -1. */
  function NearestLeft(v: seq<int>, x: nat, k: nat): (l: int)
    requires x < |v| && k <= x
    ensures -1 <= l < k
    ensures l >= 0 ==> v[l] < v[x]
    ensures forall m | l < m < k :: v[m] >= v[x]
    decreases k
  {
    if k == 0 then -1
    else if v[k - 1] < v[x] then k - 1
    else NearestLeft(v, x, k - 1)
  }

  /** The nearest position at or right of k holding a value at most v[x], or -1. */
  function NearestRight(v: seq<int>, x: nat, k: nat): (r: int)
    requires x < k <= |v|
    ensures r == -1 || k <= r < |v|
    ensures r >= 0 ==> v[r] <= v[x]
    ensures forall m | k <= m < |v| && (r == -1 || m < r) :: v[m] > v[x]
    decreases |v| - k
  {
    if k == |v| then -1
    else if v[k] <= v[x] then k
    else NearestRight(v, x, k + 1)
  }

  /** The three properties of NearestLeft determine it. */
  lemma {:induction false} LeftIs(v: seq<int>, x: nat, k: nat, l: int)
    requires x < |v| && k <= x && -1 <= l < k
    requires l >= 0 ==> v[l] < v[x]
    requires forall m | l < m < k :: v[m] >= v[x]
    ensures NearestLeft(v, x, k) == l
    decreases k
  {
    if k - 1 != l {
      LeftIs(v, x, k - 1, l);
    }
  }

  /** The three properties of NearestRight determine it. */
  lemma {:induction false} RightIs(v: seq<int>, x: nat, k: nat, r: int)
    requires x < k <= |v| && (r == -1 || k <= r < |v|)
    requires r >= 0 ==> v[r] <= v[x]
    requires forall m | k <= m < |v| && (r == -1 || m < r) :: v[m] > v[x]
    ensures NearestRight(v, x, k) == r
    decreases |v| - k
  {
    if k < |v| && k != r {
      RightIs(v, x, k + 1, r);
    }
  }

  /**
   * The parent of x in the Cartesian tree, or -1 for the root: of the nearest
   * smaller value on the left and the nearest smaller-or-equal value on the
   * right, the one with the larger value (the right one on a tie).
   */
  function CartesianParent(v: seq<int>, x: nat): (p: int)
    requires x < |v|
    ensures -1 <= p < |v| && p != x
    ensures p >= 0 ==> Above(v, p, x)
  {
    var l := NearestLeft(v, x, x);
    var r := NearestRight(v, x, x + 1);
    if r == -1 then l else if l == -1 then r else if v[l] < v[r] then r else l
  }

  /** The last position holding the minimum of v. */
  function LastMinimum(v: seq<int>): (m: nat)
    requires |v| >= 1
    ensures m < |v|
    ensures forall k | 0 <= k < m :: v[k] >= v[m]
    ensures forall k | m < k < |v| :: v[k] > v[m]
  {
    if |v| == 1 then 0 else
      var m' := LastMinimum(v[..|v| - 1]);
      assert forall k | 0 <= k < |v| - 1 :: v[..|v| - 1][k] == v[k];
      if v[|v| - 1] <= v[m'] then |v| - 1 else m'
  }

  /** Exactly one node has no parent: the last position of the minimum. */
  lemma RootIff(v: seq<int>, x: nat)
    requires x < |v|
    ensures CartesianParent(v, x) == -1 <==> x == LastMinimum(v)
  {
    var m := LastMinimum(v);
    var l := NearestLeft(v, x, x);
    var r := NearestRight(v, x, x + 1);
    if x == m {
      LeftIs(v, x, x, -1);
      RightIs(v, x, x + 1, -1);
    } else if x < m {
      assert r != -1;
    } else {
      assert l != -1;
    }
  }

  /** Moving from x up to a parent on its right keeps the positions that cover x. */
  lemma StepRight(v: seq<int>, x: nat, r: nat, l: int, a: nat)
    requires x < r < |v| && v[r] <= v[x] && forall m | x < m < r :: v[m] > v[x]
    requires -1 <= l < x && (l >= 0 ==> v[l] < v[x] && v[l] < v[r])
    requires forall m | l < m < x :: v[m] >= v[x]
    requires a < |v| && a != x
    ensures Covers(v, a, x) <==> Covers(v, a, r)
  {
    if Covers(v, a, x) {
      assert Between(x, a, x);
      if x < a {
        assert r <= a by { assert Between(x, a, x); }
        forall k: nat | Between(k, a, r) ensures k == a || Above(v, a, k) {
          assert Between(k, a, x);
        }
      } else {
        assert v[a] < v[x];
        assert 0 <= a <= l;
        assert Between(l, a, x);
        assert v[a] < v[r];
        forall k: nat | Between(k, a, r) ensures k == a || Above(v, a, k) {
          if k <= x {
            assert Between(k, a, x);
          }
        }
      }
    }
    if Covers(v, a, r) {
      assert Between(r, a, r);
      if a == r {
        forall k: nat | Between(k, a, x) ensures k == a || Above(v, a, k) {
        }
      } else if a > r {
        forall k: nat | Between(k, a, x) ensures k == a || Above(v, a, k) {
          if k >= r {
            assert Between(k, a, r);
          }
        }
      } else {
        assert a < x;
        forall k: nat | Between(k, a, x) ensures k == a || Above(v, a, k) {
          assert Between(k, a, r);
        }
      }
    }
  }

  /** Moving from x up to a parent on its left keeps the positions that cover x. */
  lemma StepLeft(v: seq<int>, x: nat, l: nat, r: int, a: nat)
    requires l < x < |v| && v[l] < v[x] && forall m | l < m < x :: v[m] >= v[x]
    requires r == -1 || (x < r < |v| && v[r] <= v[x] && v[l] >= v[r])
    requires forall m | x < m < |v| && (r == -1 || m < r) :: v[m] > v[x]
    requires a < |v| && a != x
    ensures Covers(v, a, x) <==> Covers(v, a, l)
  {
    if Covers(v, a, x) {
      assert Between(x, a, x);
      if a < x {
        assert a <= l;
        forall k: nat | Between(k, a, l) ensures k == a || Above(v, a, k) {
          assert Between(k, a, x);
        }
      } else {
        assert v[a] <= v[x];
        assert r != -1 && r <= a;
        assert Between(r, a, x);
        assert v[a] <= v[r];
        forall k: nat | Between(k, a, l) ensures k == a || Above(v, a, k) {
          if k >= x {
            assert Between(k, a, x);
          }
        }
      }
    }
    if Covers(v, a, l) {
      assert Between(l, a, l);
      if a == l {
        forall k: nat | Between(k, a, x) ensures k == a || Above(v, a, k) {
        }
      } else if a < l {
        forall k: nat | Between(k, a, x) ensures k == a || Above(v, a, k) {
          if k <= l {
            assert Between(k, a, l);
          }
        }
      } else {
        assert a > x;
        forall k: nat | Between(k, a, x) ensures k == a || Above(v, a, k) {
          assert Between(k, a, l);
        }
      }
    }
  }

  /** A position other than x covers x exactly when it covers x's parent. */
  lemma ParentStep(v: seq<int>, x: nat, a: nat)
    requires x < |v| && a < |v| && a != x && CartesianParent(v, x) >= 0
    ensures Covers(v, a, x) <==> Covers(v, a, CartesianParent(v, x) as nat)
  {
    var l := NearestLeft(v, x, x);
    var r := NearestRight(v, x, x + 1);
    if CartesianParent(v, x) == r {
      StepRight(v, x, r, l, a);
    } else {
      StepLeft(v, x, l, r, a);
    }
  }

  /**
   * Of two right children x < y, the later one's parent is not x's: if both
   * had the same nearest smaller value p on their left, y would have been
   * x's nearer parent on the right.
   */
  lemma RightChildrenDistinct(v: seq<int>, x: nat, y: nat)
    requires x < y < |v| && 0 <= CartesianParent(v, y) < y
    ensures CartesianParent(v, x) != CartesianParent(v, y) || CartesianParent(v, x) > x
  {
    var p := CartesianParent(v, y);
    var lx, rx := NearestLeft(v, x, x), NearestRight(v, x, x + 1);
    var ly := NearestLeft(v, y, y);
    assert p == ly;
    if lx == ly && x > ly {
      assert v[x] >= v[y];
      assert rx != -1 && rx <= y;
      assert v[rx] >= v[y] > v[p];
    }
  }

  /**
   * Of two left children x < y, the earlier one's parent is not y's: if both
   * had the same nearest smaller-or-equal value p on their right, x would
   * have been y's nearer parent on the left.
   */
  lemma LeftChildrenDistinct(v: seq<int>, x: nat, y: nat)
    requires x < y < |v| && CartesianParent(v, x) > x
    ensures CartesianParent(v, y) != CartesianParent(v, x) || CartesianParent(v, y) < y
  {
    var p := CartesianParent(v, x);
    var rx := NearestRight(v, x, x + 1);
    var ly, ry := NearestLeft(v, y, y), NearestRight(v, y, y + 1);
    assert p == rx;
    if ry == rx && y < rx {
      assert v[y] > v[x] >= v[p];
      assert ly != -1 && x <= ly;
      assert v[ly] >= v[x];
    }
  }

  /** The positions above x in the Cartesian tree. */
  ghost function Ancestors(v: seq<int>, x: nat): (s: set<nat>)
    requires x < |v|
  {
    set a: nat | a < |v| && a != x && Covers(v, a, x)
  }

  lemma AncestorsOfRoot(v: seq<int>, x: nat)
    requires x < |v| && CartesianParent(v, x) == -1
    ensures Ancestors(v, x) == {}
  {
    RootIff(v, x);
    forall a: nat | a < |v| && a != x ensures !Covers(v, a, x) {
      assert Between(x, a, x);
    }
  }

  lemma AncestorsOfChild(v: seq<int>, x: nat)
    requires x < |v| && CartesianParent(v, x) >= 0
    ensures Ancestors(v, x) == Ancestors(v, CartesianParent(v, x) as nat) + {CartesianParent(v, x) as nat}
  {
    var p := CartesianParent(v, x) as nat;
    forall a: nat | a < |v| && a != x ensures Covers(v, a, x) <==> Covers(v, a, p) {
      ParentStep(v, x, a);
    }
    assert Covers(v, p, p);
    assert !Covers(v, x, p) by { assert Between(p, x, p); }
  }

  lemma SubsetCard(a: set<nat>, b: set<nat>)
    requires a <= b
    ensures |a| <= |b|
  {
    assert b == a + (b - a);
    assert a * (b - a) == {};
  }

  lemma AncestorsBound(v: seq<int>, x: nat)
    requires x < |v|
    ensures |Ancestors(v, x)| < |v|
  {
    var others := Range(|v|) - {x};
    SubsetCard(Ancestors(v, x), others);
  }

  /** Every node's depth in the Cartesian tree: the number of positions above it. */
  ghost function CartesianDepth(v: seq<int>): (d: seq<nat>)
    ensures |d| == |v|
    ensures forall x | 0 <= x < |v| :: d[x] < |v|
    ensures forall x | 0 <= x < |v| && CartesianParent(v, x) == -1 :: d[x] == 0
    ensures forall x | 0 <= x < |v| && CartesianParent(v, x) >= 0 ::
              d[x] == d[CartesianParent(v, x)] + 1
  {
    var d := seq(|v|, x requires 0 <= x < |v| => |Ancestors(v, x)|);
    forall x | 0 <= x < |v| ensures d[x] < |v| {
      AncestorsBound(v, x);
    }
    forall x | 0 <= x < |v| && CartesianParent(v, x) == -1 ensures d[x] == 0 {
      AncestorsOfRoot(v, x);
    }
    forall x | 0 <= x < |v| && CartesianParent(v, x) >= 0 ensures d[x] == d[CartesianParent(v, x)] + 1 {
      AncestorsOfChild(v, x);
    }
    d
  }

  /** The child list of a node: its left child, then its right child, each when present. */
  function Kids(l: int, r: int): (c: seq<nat>) {
    (if l >= 0 then [l as nat] else []) + (if r >= 0 then [r as nat] else [])
  }

  /**
   * The arrays RMQ::buildCartesianTree fills: every parent link is the
   * Cartesian parent, the root is the last minimum, and each child sits on
   * the side of its parent it comes from in the sequence.
   */
  ghost predicate CartesianLinks(v: seq<int>, parent: seq<int>, left: seq<int>, right: seq<int>, root: nat) {
    var n := |v|;
    && n >= 1 && |parent| == n && |left| == n && |right| == n
    && (forall x | 0 <= x < n :: parent[x] == CartesianParent(v, x))
    && root == LastMinimum(v)
    && (forall x | 0 <= x < n && parent[x] > x :: left[parent[x]] == x)
    && (forall x | 0 <= x < n && 0 <= parent[x] < x :: right[parent[x]] == x)
    && (forall q | 0 <= q < n :: left[q] == -1 || (0 <= left[q] < q && parent[left[q]] == q))
    && (forall q | 0 <= q < n :: right[q] == -1 || (q < right[q] < n && parent[right[q]] == q))
  }

  /** The child lists of all nodes. */
  function ChildLists(left: seq<int>, right: seq<int>): (c: seq<seq<nat>>)
    requires |left| == |right|
    ensures |c| == |left|
    ensures forall q, x: nat | 0 <= q < |c| :: x in c[q] <==> x as int == left[q] || x as int == right[q]
    ensures forall q | 0 <= q < |c| :: |c[q]| == (if left[q] >= 0 then 1 else 0) + (if right[q] >= 0 then 1 else 0)
    ensures forall q | 0 <= q < |c| && left[q] >= 0 :: c[q][0] as int == left[q]
  {
    seq(|left|, q requires 0 <= q < |left| => Kids(left[q], right[q]))
  }

  /** The tree the LCA index is built over: children are [left, right], skipping missing ones. */
  function CartesianTree(v: seq<int>, parent: seq<int>, left: seq<int>, right: seq<int>, root: nat): (t: Tree)
    requires |left| == |v| && |right| == |v|
  {
    Tree(v, parent, ChildLists(left, right), root)
  }

  lemma CartesianShaped(v: seq<int>, parent: seq<int>, left: seq<int>, right: seq<int>, root: nat)
    requires CartesianLinks(v, parent, left, right, root)
    ensures Shaped(CartesianTree(v, parent, left, right, root))
  {
    RootIff(v, root);
    ParentsListChildren(v, parent, left, right, root);
    ChildrenListParents(v, parent, left, right, root);
  }

  lemma ParentsListChildren(v: seq<int>, parent: seq<int>, left: seq<int>, right: seq<int>, root: nat)
    requires CartesianLinks(v, parent, left, right, root)
    ensures var t := CartesianTree(v, parent, left, right, root);
      forall x | 0 <= x < |v| && x != root :: 0 <= t.parent[x] < |v| && x in t.children[t.parent[x]]
  {
    var t := CartesianTree(v, parent, left, right, root);
    forall x | 0 <= x < |v| && x != root
      ensures 0 <= parent[x] < |v| && x in t.children[parent[x]]
    {
      RootIff(v, x);
      assert t.children[parent[x]] == Kids(left[parent[x]], right[parent[x]]);
    }
  }

  lemma ChildrenListParents(v: seq<int>, parent: seq<int>, left: seq<int>, right: seq<int>, root: nat)
    requires CartesianLinks(v, parent, left, right, root)
    ensures var t := CartesianTree(v, parent, left, right, root);
      && (forall q, k | 0 <= q < |v| && 0 <= k < |t.children[q]| ::
            t.children[q][k] < |v| && t.parent[t.children[q][k]] == q)
      && (forall q, k1, k2 | 0 <= q < |v| && 0 <= k1 < k2 < |t.children[q]| ::
            t.children[q][k1] != t.children[q][k2])
  {
    var t := CartesianTree(v, parent, left, right, root);
    forall q | 0 <= q < |v|
      ensures forall k | 0 <= k < |t.children[q]| :: t.children[q][k] < |v| && parent[t.children[q][k]] == q
      ensures forall k1, k2 | 0 <= k1 < k2 < |t.children[q]| :: t.children[q][k1] != t.children[q][k2]
    {
      assert t.children[q] == Kids(left[q], right[q]);
      KidsOk(v, parent, left[q], right[q], q);
    }
  }

  /** A node's child list holds its left child, then its right child, each at most once. */
  lemma KidsOk(v: seq<int>, parent: seq<int>, l: int, r: int, q: nat)
    requires |parent| == |v| && q < |v|
    requires l == -1 || (0 <= l < q && parent[l] == q)
    requires r == -1 || (q < r < |v| && parent[r] == q)
    ensures forall k | 0 <= k < |Kids(l, r)| :: Kids(l, r)[k] < |v| && parent[Kids(l, r)[k]] == q
    ensures forall k1, k2 | 0 <= k1 < k2 < |Kids(l, r)| :: Kids(l, r)[k1] != Kids(l, r)[k2]
  {
  }

  /** The Cartesian tree is a well-formed rooted tree. */
  lemma CartesianWellFormed(v: seq<int>, parent: seq<int>, left: seq<int>, right: seq<int>, root: nat)
    requires CartesianLinks(v, parent, left, right, root)
    ensures WellFormed(CartesianTree(v, parent, left, right, root))
    ensures Depth(CartesianTree(v, parent, left, right, root)) == CartesianDepth(v)
  {
    var t := CartesianTree(v, parent, left, right, root);
    CartesianShaped(v, parent, left, right, root);
    var d := CartesianDepth(v);
    RootIff(v, root);
    forall x | 0 <= x < |v| && x != root ensures d[x] == d[t.parent[x]] + 1 {
      RootIff(v, x);
    }
    assert IsLevelling(t, d);
    LevellingUnique(t, Depth(t), d);
  }

  /** A tree has only one depth assignment. */
  lemma LevellingUnique(t: Tree, d1: seq<nat>, d2: seq<nat>)
    requires Shaped(t) && IsLevelling(t, d1) && IsLevelling(t, d2)
    ensures d1 == d2
  {
    forall x | 0 <= x < |d1| ensures d1[x] == d2[x] {
      LevellingAgree(t, d1, d2, x);
    }
  }

  lemma {:induction false} LevellingAgree(t: Tree, d1: seq<nat>, d2: seq<nat>, x: nat)
    requires Shaped(t) && IsLevelling(t, d1) && IsLevelling(t, d2) && x < |d1|
    ensures d1[x] == d2[x]
    decreases d1[x]
  {
    if x != t.root {
      LevellingAgree(t, d1, d2, t.parent[x] as nat);
    }
  }

  /** In the Cartesian tree, a is an ancestor of x exactly when it lies above everything in between. */
  lemma {:induction false} AncestorIffCovers(v: seq<int>, parent: seq<int>, left: seq<int>, right: seq<int>, root: nat, a: nat, x: nat)
    requires CartesianLinks(v, parent, left, right, root) && x < |v|
    ensures WellFormed(CartesianTree(v, parent, left, right, root))
    ensures IsAncestor(CartesianTree(v, parent, left, right, root), a, x) <==> a < |v| && Covers(v, a, x)
    decreases CartesianDepth(v)[x]
  {
    var t := CartesianTree(v, parent, left, right, root);
    CartesianWellFormed(v, parent, left, right, root);
    RootIff(v, x);
    if x == root {
      if a < |v| && a != x {
        AncestorsOfRoot(v, x);
        assert a !in Ancestors(v, x);
      }
    } else if a == x {
      assert Covers(v, x, x);
    } else {
      var p := parent[x] as nat;
      AncestorIffCovers(v, parent, left, right, root, a, p);
      if a < |v| {
        ParentStep(v, x, a);
      }
    }
  }

  /**
   * The position of lo..hi above all the others in it: its last minimum.
   */
  function RangeTop(v: seq<int>, lo: nat, hi: nat): (m: nat)
    requires lo <= hi < |v|
    ensures lo <= m <= hi
    ensures forall k | lo <= k <= hi :: k == m || Above(v, m, k)
    decreases hi - lo
  {
    if lo == hi then lo else
      var m' := RangeTop(v, lo, hi - 1);
      TopStep(v, lo, hi, m');
      if v[hi] <= v[m'] then hi else m'
  }

  lemma TopStep(v: seq<int>, lo: nat, hi: nat, m: nat)
    requires lo <= m < hi < |v| && forall k | lo <= k < hi :: k == m || Above(v, m, k)
    ensures v[hi] <= v[m] ==> forall k | lo <= k <= hi :: k == hi || Above(v, hi, k)
    ensures v[hi] > v[m] ==> forall k | lo <= k <= hi :: k == m || Above(v, m, k)
  {
    forall k | lo <= k < hi ensures v[m] <= v[k] && (v[m] == v[k] ==> m >= k) {
      assert k == m || Above(v, m, k);
    }
  }

  /** The top of a range holds the smallest value of the range. */
  lemma RangeTopIsMinimum(v: seq<int>, lo: nat, hi: nat)
    requires lo <= hi < |v|
    ensures forall k | lo <= k <= hi :: v[RangeTop(v, lo, hi)] <= v[k]
  {
  }

  /**
   * The lowest common ancestor of i and j in the Cartesian tree is the top of
   * the range between them.
   */
  lemma CartesianLca(v: seq<int>, parent: seq<int>, left: seq<int>, right: seq<int>, root: nat, i: nat, j: nat)
    requires CartesianLinks(v, parent, left, right, root) && i < |v| && j < |v|
    ensures WellFormed(CartesianTree(v, parent, left, right, root))
    ensures IsLca(CartesianTree(v, parent, left, right, root),
                  RangeTop(v, if i <= j then i else j, if i <= j then j else i), i, j)
  {
    var t := CartesianTree(v, parent, left, right, root);
    CartesianWellFormed(v, parent, left, right, root);
    var lo, hi := if i <= j then i else j, if i <= j then j else i;
    var m := RangeTop(v, lo, hi);
    TopCovers(v, lo, hi, i);
    TopCovers(v, lo, hi, j);
    AncestorIffCovers(v, parent, left, right, root, m, i);
    AncestorIffCovers(v, parent, left, right, root, m, j);
    forall w | 0 <= w < Size(t) && IsAncestor(t, w, i) && IsAncestor(t, w, j)
      ensures IsAncestor(t, w, m)
    {
      AncestorIffCovers(v, parent, left, right, root, w, i);
      AncestorIffCovers(v, parent, left, right, root, w, j);
      CommonCoverCoversTop(v, lo, hi, w);
      AncestorIffCovers(v, parent, left, right, root, w, m);
    }
  }

  /** The top of a range covers every position of the range. */
  lemma TopCovers(v: seq<int>, lo: nat, hi: nat, y: nat)
    requires lo <= y <= hi < |v|
    ensures Covers(v, RangeTop(v, lo, hi), y)
  {
  }

  /** A position covering both ends of a range covers the range's top. */
  lemma CommonCoverCoversTop(v: seq<int>, lo: nat, hi: nat, w: nat)
    requires lo <= hi < |v| && w < |v| && Covers(v, w, lo) && Covers(v, w, hi)
    ensures Covers(v, w, RangeTop(v, lo, hi))
  {
    var m := RangeTop(v, lo, hi);
    if w <= lo {
      forall k: nat | Between(k, w, m) ensures k == w || Above(v, w, k) {
        assert Between(k, w, hi);
      }
    } else if w >= hi {
      forall k: nat | Between(k, w, m) ensures k == w || Above(v, w, k) {
        assert Between(k, w, lo);
      }
    } else {
      assert w == m || Above(v, m, w);
      var atLo, atHi := Between(m, w, lo), Between(m, w, hi);
      assert m == w;
    }
  }

  /**
   * In-order: everything below a left child lies left of its parent and
   * everything below a right child lies right of it.
   */
  lemma InOrderSides(v: seq<int>, parent: seq<int>, left: seq<int>, right: seq<int>, root: nat, x: nat, y: nat)
    requires CartesianLinks(v, parent, left, right, root) && x < |v| && y < |v| && parent[x] >= 0
    requires WellFormed(CartesianTree(v, parent, left, right, root))
    requires IsAncestor(CartesianTree(v, parent, left, right, root), x, y)
    ensures x < parent[x] ==> y < parent[x]
    ensures x > parent[x] ==> y > parent[x]
  {
    AncestorIffCovers(v, parent, left, right, root, x, y);
    var p := parent[x] as nat;
    assert Above(v, p, x);
    var between := Between(p, x, y);
    if x < p && y >= p {
      assert false;
    } else if x > p && y <= p {
      assert false;
    }
  }

  // The monotone stack of RMQ::buildCartesianTree (its first loop).

  /**
   * The stack before position i is processed: positions below i, increasing
   * in position and strictly increasing in value; every position between two
   * neighbouring entries, or below the bottom one, has a value at least the
   * upper entry's; every position after an entry, up to i, has a greater value.
   */
  ghost predicate StackOk(v: seq<int>, s: seq<nat>, i: nat) {
    && i <= |v|
    && (forall k | 0 <= k < |s| :: s[k] < i)
    && (forall k, k' | 0 <= k < k' < |s| :: s[k] < s[k'] && v[s[k]] < v[s[k']])
    && (i > 0 ==> |s| > 0 && s[|s| - 1] == i - 1)
    && (forall k, m | 0 <= k < |s| && 0 <= m < s[k] && (k == 0 || s[k - 1] < m) :: v[m] >= v[s[k]])
    && (forall k, m | 0 <= k < |s| && s[k] < m < i :: v[m] > v[s[k]])
  }

  /** The stack entry below entry k, or -1 for the bottom one. */
  function Below(s: seq<nat>, k: nat): (b: int)
    requires k < |s|
  {
    if k == 0 then -1 else s[k - 1]
  }

  /** Each stack entry's parent is the entry below it. */
  ghost predicate StackLinks(n: nat, p: seq<int>, s: seq<nat>)
    requires |p| == n
  {
    && (forall k | 0 <= k < |s| :: s[k] < n)
    && (forall k {:trigger Below(s, k)} | 0 <= k < |s| :: p[s[k]] == Below(s, k))
  }

  /**
   * The parent links before position i is processed: each stack entry points
   * at the entry below it (the bottom one at -1), every earlier position off
   * the stack already has its Cartesian parent, and later positions hold -1.
   */
  ghost predicate ParentsOk(v: seq<int>, p: seq<int>, s: seq<nat>, i: nat) {
    && |p| == |v| && i <= |v|
    && StackLinks(|v|, p, s)
    && (forall x | 0 <= x < i && x !in s :: p[x] == CartesianParent(v, x))
    && (forall x | i <= x < |v| :: p[x] == -1)
  }

  /** A stack entry's stack neighbour below it is its nearest smaller value on the left. */
  lemma StackLeft(v: seq<int>, s: seq<nat>, i: nat, k: nat)
    requires StackOk(v, s, i) && k < |s|
    ensures NearestLeft(v, s[k], s[k]) == Below(s, k)
  {
    var l := Below(s, k);
    forall m | l < m < s[k] ensures v[m] >= v[s[k]] {
      assert 0 <= m < s[k] && (k == 0 || s[k - 1] < m);
    }
    LeftIs(v, s[k], s[k], l);
  }

  /** Position i, when it pops an entry, is that entry's nearest smaller-or-equal value on the right. */
  lemma StackRight(v: seq<int>, s: seq<nat>, i: nat, k: nat)
    requires StackOk(v, s, i) && k < |s| && (i == |v| || v[i] <= v[s[k]])
    ensures NearestRight(v, s[k], s[k] + 1) == (if i == |v| then -1 else i)
  {
    RightIs(v, s[k], s[k] + 1, if i == |v| then -1 else i);
  }

  /**
   * The entries that position i pops get their final parent: the last one
   * popped (the lowest) gets i, the others keep the entry below them.
   */
  lemma PoppedParent(v: seq<int>, s: seq<nat>, t: nat, i: nat, k: nat)
    requires StackOk(v, s, i) && i < |v| && t <= k < |s|
    requires forall k' | t <= k' < |s| :: v[s[k']] >= v[i]
    requires t > 0 ==> v[s[t - 1]] < v[i]
    ensures CartesianParent(v, s[k]) == (if k == t then i else s[k - 1])
  {
    StackLeft(v, s, i, k);
    StackRight(v, s, i, k);
  }

  /** The entries left on the stack at the end point at the entry below them. */
  lemma RemainingParent(v: seq<int>, s: seq<nat>, k: nat)
    requires StackOk(v, s, |v|) && k < |s|
    ensures CartesianParent(v, s[k]) == Below(s, k)
  {
    StackLeft(v, s, |v|, k);
    StackRight(v, s, |v|, k);
  }

  lemma {:induction false} GapOf(s: seq<nat>, t: nat, h: nat, m: nat) returns (k: nat)
    requires t <= h < |s| && m <= s[h] && (t == 0 || s[t - 1] < m)
    ensures t <= k <= h && m <= s[k] && (k == 0 || s[k - 1] < m)
    decreases h
  {
    if h == t || s[h - 1] < m {
      k := h;
    } else {
      k := GapOf(s, t, h - 1, m);
    }
  }

  /** Popping the entries of value at least v[i] and pushing i keeps the stack shape. */
  lemma PushOk(v: seq<int>, s: seq<nat>, t: nat, i: nat)
    requires StackOk(v, s, i) && i < |v| && t <= |s|
    requires forall k' | t <= k' < |s| :: v[s[k']] >= v[i]
    requires t > 0 ==> v[s[t - 1]] < v[i]
    ensures StackOk(v, s[..t] + [i], i + 1)
  {
    PushOrdered(v, s, t, i);
    PushGaps(v, s, t, i);
    PushOpen(v, s, t, i);
  }

  lemma PushOrdered(v: seq<int>, s: seq<nat>, t: nat, i: nat)
    requires StackOk(v, s, i) && i < |v| && t <= |s|
    requires t > 0 ==> v[s[t - 1]] < v[i]
    ensures var s' := s[..t] + [i];
      forall k, k' | 0 <= k < k' < |s'| :: s'[k] < s'[k'] && v[s'[k]] < v[s'[k']]
  {
    var s' := s[..t] + [i];
    forall k, k' | 0 <= k < k' < |s'| ensures s'[k] < s'[k'] && v[s'[k]] < v[s'[k']] {
      assert s'[k] == s[k];
      if k' < t {
        assert s'[k'] == s[k'];
      } else {
        assert k == t - 1 || v[s[k]] < v[s[t - 1]];
      }
    }
  }

  lemma PushGaps(v: seq<int>, s: seq<nat>, t: nat, i: nat)
    requires StackOk(v, s, i) && i < |v| && t <= |s|
    requires forall k' | t <= k' < |s| :: v[s[k']] >= v[i]
    ensures var s' := s[..t] + [i];
      forall k, m | 0 <= k < |s'| && 0 <= m < s'[k] && (k == 0 || s'[k - 1] < m) :: v[m] >= v[s'[k]]
  {
    var s' := s[..t] + [i];
    forall k, m | 0 <= k < |s'| && 0 <= m < s'[k] && (k == 0 || s'[k - 1] < m)
      ensures v[m] >= v[s'[k]]
    {
      if k == t {
        assert t > 0 ==> s'[t - 1] == s[t - 1];
        PushGap(v, s, t, i, m);
      } else {
        assert s'[k] == s[k] && (k > 0 ==> s'[k - 1] == s[k - 1]);
      }
    }
  }

  lemma PushOpen(v: seq<int>, s: seq<nat>, t: nat, i: nat)
    requires StackOk(v, s, i) && i < |v| && t <= |s|
    requires t > 0 ==> v[s[t - 1]] < v[i]
    ensures var s' := s[..t] + [i];
      forall k, m | 0 <= k < |s'| && s'[k] < m < i + 1 :: v[m] > v[s'[k]]
  {
    var s' := s[..t] + [i];
    forall k, m | 0 <= k < |s'| && s'[k] < m < i + 1 ensures v[m] > v[s'[k]] {
      assert k < t;
      assert s'[k] == s[k];
      if m == i {
        assert k == t - 1 || v[s[k]] < v[s[t - 1]];
      }
    }
  }

  /** Every position between the entry left on top and i has a value at least v[i]. */
  lemma PushGap(v: seq<int>, s: seq<nat>, t: nat, i: nat, m: nat)
    requires StackOk(v, s, i) && i < |v| && t <= |s|
    requires forall k' | t <= k' < |s| :: v[s[k']] >= v[i]
    requires m < i && (t == 0 || s[t - 1] < m)
    ensures v[m] >= v[i]
  {
    assert i > 0;
    assert |s| > 0 && s[|s| - 1] == i - 1;
    assert t < |s|;
    var g := GapOf(s, t, |s| - 1, m);
    if m < s[g] {
      assert v[m] >= v[s[g]];
    }
  }

  /** The parent array after position i pops entries t.. of s and is pushed. */
  function Pushed(p: seq<int>, s: seq<nat>, t: nat, i: nat): (p': seq<int>)
    requires i < |p| && t <= |s| && forall k | 0 <= k < |s| :: s[k] < |p|
  {
    var p1 := if t > 0 then p[i := s[t - 1]] else p;
    if t < |s| then p1[s[t] := i] else p1
  }

  /** What the two writes change. */
  lemma PushedAt(p: seq<int>, s: seq<nat>, t: nat, i: nat, y: nat)
    requires i < |p| && t <= |s| && (forall k | 0 <= k < |s| :: s[k] < i) && y < |p|
    ensures Pushed(p, s, t, i)[y] ==
      if t < |s| && y == s[t] then i else if y == i && t > 0 then s[t - 1] else p[y]
  {
  }

  /** The two writes of one step of the stack loop keep the parent links right. */
  lemma PushParents(v: seq<int>, p: seq<int>, s: seq<nat>, t: nat, i: nat)
    requires StackOk(v, s, i) && ParentsOk(v, p, s, i) && i < |v| && t <= |s|
    requires forall k' | t <= k' < |s| :: v[s[k']] >= v[i]
    requires t > 0 ==> v[s[t - 1]] < v[i]
    ensures ParentsOk(v, Pushed(p, s, t, i), s[..t] + [i], i + 1)
  {
    PushedStack(v, p, s, t, i);
    PushedFinal(v, p, s, t, i);
    forall x | i + 1 <= x < |v| ensures Pushed(p, s, t, i)[x] == -1 {
      PushedAt(p, s, t, i, x);
    }
  }

  lemma PushedStack(v: seq<int>, p: seq<int>, s: seq<nat>, t: nat, i: nat)
    requires |p| == |v| && i < |v| && t <= |s|
    requires StackLinks(|v|, p, s) && forall k | 0 <= k < |s| :: s[k] < i
    requires forall k, k' | 0 <= k < k' < |s| :: s[k] < s[k']
    requires p[i] == -1
    ensures StackLinks(|v|, Pushed(p, s, t, i), s[..t] + [i])
  {
    var s', p' := s[..t] + [i], Pushed(p, s, t, i);
    forall k | 0 <= k < |s'| ensures s'[k] < |v| && p'[s'[k]] == Below(s', k) {
      if k < t {
        assert s'[k] == s[k] && Below(s', k) == Below(s, k);
        PushedAt(p, s, t, i, s[k]);
        assert t < |s| ==> s[k] < s[t];
      } else {
        assert s'[k] == i;
        assert t > 0 ==> s'[t - 1] == s[t - 1];
        PushedAt(p, s, t, i, i);
        assert t < |s| ==> s[t] < i;
      }
    }
  }

  lemma PushedFinal(v: seq<int>, p: seq<int>, s: seq<nat>, t: nat, i: nat)
    requires StackOk(v, s, i) && ParentsOk(v, p, s, i) && i < |v| && t <= |s|
    requires forall k' | t <= k' < |s| :: v[s[k']] >= v[i]
    requires t > 0 ==> v[s[t - 1]] < v[i]
    ensures var s', p' := s[..t] + [i], Pushed(p, s, t, i);
      forall x | 0 <= x < i + 1 && x !in s' :: p'[x] == CartesianParent(v, x)
  {
    var s', p' := s[..t] + [i], Pushed(p, s, t, i);
    forall x | 0 <= x < i + 1 && x !in s' ensures p'[x] == CartesianParent(v, x) {
      PushedAt(p, s, t, i, x);
      if x in s {
        var k :| 0 <= k < |s| && s[k] == x;
        assert k >= t by {
          assert forall k0 | 0 <= k0 < t :: s'[k0] == s[k0];
        }
        assert k > t ==> s[t] < x && p[x] == Below(s, k);
        PoppedParent(v, s, t, i, k);
      } else {
        assert t < |s| ==> s[t] != x;
      }
    }
  }

  /**
   * The inner loop of the stack step: pop every entry of value at least x off
   * the top of s, remembering the last entry popped (-1 when none is).
   */
  method PopAtLeast(v: seq<int>, s: seq<nat>, x: int) returns (rest: seq<nat>, last: int)
    requires forall k | 0 <= k < |s| :: s[k] < |v|
    ensures |rest| <= |s| && rest == s[..|rest|]
    ensures forall k | |rest| <= k < |s| :: v[s[k]] >= x
    ensures |rest| > 0 ==> v[s[|rest| - 1]] < x
    ensures last == (if |rest| == |s| then -1 else s[|rest|])
  {
    rest := s;
    last := -1;
    while |rest| > 0 && v[rest[|rest| - 1]] >= x
      invariant |rest| <= |s| && rest == s[..|rest|]
      invariant forall k | |rest| <= k < |s| :: v[s[k]] >= x
      invariant last == (if |rest| == |s| then -1 else s[|rest|])
      decreases |rest|
    {
      last := rest[|rest| - 1];
      rest := rest[..|rest| - 1];
    }
  }

  /** One step of the stack loop: pop the entries of value at least v[i], link, push i. */
  method StackStep(v: seq<int>, p: array<int>, s: seq<nat>, i: nat) returns (s': seq<nat>)
    requires StackOk(v, s, i) && ParentsOk(v, p[..], s, i) && i < |v|
    modifies p
    ensures StackOk(v, s', i + 1) && ParentsOk(v, p[..], s', i + 1)
  {
    ghost var p0 := p[..];
    var rest, last := PopAtLeast(v, s, v[i]);
    if |rest| > 0 {
      p[i] := rest[|rest| - 1];
    }
    if last >= 0 {
      p[last] := i;
    }
    assert p[..] == Pushed(p0, s, |rest|, i);
    PushParents(v, p0, s, |rest|, i);
    PushOk(v, s, |rest|, i);
    s' := rest + [i];
  }

  /**
   * The first loop of RMQ::buildCartesianTree: a stack of positions with
   * increasing values; position i pops every entry whose value is at least
   * its own, takes the entry left on top as its parent, and becomes the parent
   * of the last entry it popped.  The result is the Cartesian parent of every
   * position.
   */
  method StackParents(v: seq<int>) returns (parent: seq<int>)
    ensures |parent| == |v|
    ensures forall x | 0 <= x < |v| :: parent[x] == CartesianParent(v, x)
  {
    var n := |v|;
    var p := new int[n](_ => -1);
    var s: seq<nat> := [];
    for i := 0 to n
      invariant StackOk(v, s, i) && ParentsOk(v, p[..], s, i)
    {
      s := StackStep(v, p, s, i);
    }
    parent := p[..];
    FinalParents(v, parent, s);
  }

  /** Once every position is processed, the entries left on the stack have their Cartesian parents too. */
  lemma FinalParents(v: seq<int>, p: seq<int>, s: seq<nat>)
    requires StackOk(v, s, |v|) && ParentsOk(v, p, s, |v|)
    ensures forall x | 0 <= x < |v| :: p[x] == CartesianParent(v, x)
  {
    forall x | 0 <= x < |v| && x in s ensures p[x] == CartesianParent(v, x) {
      var k :| 0 <= k < |s| && s[k] == x;
      RemainingParent(v, s, k);
      assert p[s[k]] == Below(s, k);
    }
  }

  // The second loop of RMQ::buildCartesianTree: the root and the child sides.

  /**
   * The child arrays after positions 0..i-1 are recorded: each recorded child
   * sits on the side of its parent it comes from, and every entry set so far
   * is such a child.
   */
  ghost predicate SidesOk(v: seq<int>, parent: seq<int>, left: seq<int>, right: seq<int>, i: nat) {
    && |parent| == |v| && |left| == |v| && |right| == |v| && i <= |v|
    && (forall x | 0 <= x < |v| :: -1 <= parent[x] < |v|)
    && (forall x | 0 <= x < i && parent[x] > x :: left[parent[x]] == x)
    && (forall x | 0 <= x < i && 0 <= parent[x] < x :: right[parent[x]] == x)
    && (forall q | 0 <= q < |v| :: left[q] == -1 || (0 <= left[q] < q && left[q] < i && parent[left[q]] == q))
    && (forall q | 0 <= q < |v| :: right[q] == -1 || (q < right[q] < i && parent[right[q]] == q))
  }

  /**
   * The second loop of RMQ::buildCartesianTree: the position without a parent
   * is the root, a position right of its parent is its right child and one
   * left of it its left child.
   */
  method ChildSides(v: seq<int>, parent: seq<int>) returns (left: seq<int>, right: seq<int>, root: nat)
    requires |v| >= 1 && |parent| == |v|
    requires forall x | 0 <= x < |v| :: parent[x] == CartesianParent(v, x)
    ensures CartesianLinks(v, parent, left, right, root)
  {
    var n := |v|;
    var l := new int[n](_ => -1);
    var r := new int[n](_ => -1);
    root := 0;
    for i := 0 to n
      invariant LastMinimum(v) < i ==> root == LastMinimum(v)
      invariant SidesOk(v, parent, l[..], r[..], i)
    {
      root := SideStep(v, parent, l, r, i, root);
    }
    left, right := l[..], r[..];
  }

  /** A position without a parent is nobody's child: the recorded sides stay as they are. */
  lemma SidesRoot(v: seq<int>, parent: seq<int>, left: seq<int>, right: seq<int>, i: nat)
    requires i < |v| && SidesOk(v, parent, left, right, i) && parent[i] == -1
    ensures SidesOk(v, parent, left, right, i + 1)
  {
  }

  /** A position right of its parent becomes that parent's right child, and no earlier one was. */
  lemma SidesRight(v: seq<int>, parent: seq<int>, left: seq<int>, right: seq<int>, i: nat)
    requires i < |v| && SidesOk(v, parent, left, right, i)
    requires forall x | 0 <= x < |v| :: parent[x] == CartesianParent(v, x)
    requires 0 <= parent[i] < i
    ensures SidesOk(v, parent, left, right[parent[i] := i], i + 1)
  {
    forall x | 0 <= x < i && 0 <= parent[x] < x ensures parent[x] != parent[i] {
      RightChildrenDistinct(v, x, i);
    }
  }

  /** A position left of its parent becomes that parent's left child, and no earlier one was. */
  lemma SidesLeft(v: seq<int>, parent: seq<int>, left: seq<int>, right: seq<int>, i: nat)
    requires i < |v| && SidesOk(v, parent, left, right, i)
    requires forall x | 0 <= x < |v| :: parent[x] == CartesianParent(v, x)
    requires parent[i] > i
    ensures SidesOk(v, parent, left[parent[i] := i], right, i + 1)
  {
    forall x | 0 <= x < i && parent[x] > x ensures parent[x] != parent[i] {
      LeftChildrenDistinct(v, x, i);
    }
  }

  /** One step of the side loop: record position i as the root or as a child of its parent. */
  method SideStep(v: seq<int>, parent: seq<int>, l: array<int>, r: array<int>, i: nat, root: nat) returns (root': nat)
    requires |v| >= 1 && |parent| == |v| && i < |v| && l != r
    requires forall x | 0 <= x < |v| :: parent[x] == CartesianParent(v, x)
    requires LastMinimum(v) < i ==> root == LastMinimum(v)
    requires SidesOk(v, parent, l[..], r[..], i)
    modifies l, r
    ensures LastMinimum(v) < i + 1 ==> root' == LastMinimum(v)
    ensures SidesOk(v, parent, l[..], r[..], i + 1)
  {
    RootIff(v, i);
    root' := root;
    var q := parent[i];
    if q == -1 {
      SidesRoot(v, parent, l[..], r[..], i);
      root' := i;
    } else if q < i {
      SidesRight(v, parent, l[..], r[..], i);
      r[q] := i;
    } else {
      SidesLeft(v, parent, l[..], r[..], i);
      l[q] := i;
    }
  }

  /**
   * RMQ::buildCartesianTree: the stack loop links every position to its
   * Cartesian parent, the second loop finds the root and the child sides.
   */
  method BuildCartesianTree(v: seq<int>) returns (parent: seq<int>, left: seq<int>, right: seq<int>, root: nat)
    requires |v| >= 1
    ensures CartesianLinks(v, parent, left, right, root)
  {
    parent := StackParents(v);
    left, right, root := ChildSides(v, parent);
  }
}

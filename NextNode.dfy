/**
 * The next node on the path between two tree nodes (NextNodeOnPath): the
 * pre-order and post-order walks that number the nodes, the pre-order labels
 * listed in post-order, and the query that either climbs to the parent or
 * descends into the child found by a range minimum over those labels.
 */
module NextNode {
  import opened Errors
  import opened Trees
  import opened TreeOrders
  import opened TraversalPositions
  import opened EulerTour
  import opened Lca
  import opened Rmq

  // ------------------------------------------------------------ the path

  /** x and i are joined by an edge. */
  ghost predicate Adjacent(t: Tree, i: nat, x: nat)
    requires WellFormed(t) && i < Size(t)
  {
    x < Size(t) && (t.parent[i] == x || (x != t.root && t.parent[x] == i))
  }

  /**
   * x lies on the path between i and j: it is an ancestor of one of them and
   * a descendant of every common ancestor (so of their lowest common ancestor).
   */
  ghost predicate OnPath(t: Tree, i: nat, j: nat, x: nat)
    requires WellFormed(t) && i < Size(t) && j < Size(t)
  {
    && x < Size(t) && (IsAncestor(t, x, i) || IsAncestor(t, x, j))
    && forall w | 0 <= w < Size(t) && IsAncestor(t, w, i) && IsAncestor(t, w, j) :: IsAncestor(t, w, x)
  }

  /** x is the node after i on the path from i to j. */
  ghost predicate IsNextOnPath(t: Tree, i: nat, j: nat, x: nat)
    requires WellFormed(t) && i < Size(t) && j < Size(t)
  {
    Adjacent(t, i, x) && OnPath(t, i, j, x)
  }

  /** A child is a descendant of its parent. */
  lemma ChildIsDescendant(t: Tree, c: nat)
    requires WellFormed(t) && c < Size(t) && c != t.root
    ensures 0 <= t.parent[c] < Size(t) && IsAncestor(t, t.parent[c] as nat, c)
  {
  }

  /** The only ancestor of the root is the root. */
  lemma RootAncestor(t: Tree, a: nat)
    requires WellFormed(t) && IsAncestor(t, a, t.root)
    ensures a == t.root
  {
    AncestorDepth(t, a, t.root);
  }

  /**
   * The next node on the path from i to a different node j: the child of i
   * toward j when j lies below i, and the parent of i otherwise.
   */
  lemma {:induction false} NextOnPathIs(t: Tree, i: nat, j: nat, x: nat)
    requires WellFormed(t) && i < Size(t) && j < Size(t) && i != j
    requires IsNextOnPath(t, i, j, x)
    ensures IsAncestor(t, i, j) ==> x == ChildToward(t, i, j)
    ensures !IsAncestor(t, i, j) ==> i != t.root && x == t.parent[i]
  {
    if x != t.root && t.parent[x] == i {
      ChildIsDescendant(t, x);
      if IsAncestor(t, x, i) {
        AncestorDepth(t, x, i);
        assert false;
      }
      AncestorTransitive(t, i, x, j);
      assert x in t.children[i];
      ChildTowardOfChild(t, i, x, j);
    } else {
      assert t.parent[i] == x;
      assert i != t.root;
      if IsAncestor(t, i, j) {
        assert IsAncestor(t, i, x);
        AncestorDepth(t, i, x);
        assert false;
      }
    }
  }

  /** Two nodes after i on the path from i to j are the same node. */
  lemma NextOnPathUnique(t: Tree, i: nat, j: nat, x: nat, y: nat)
    requires WellFormed(t) && i < Size(t) && j < Size(t) && i != j
    requires IsNextOnPath(t, i, j, x) && IsNextOnPath(t, i, j, y)
    ensures x == y
  {
    NextOnPathIs(t, i, j, x);
    NextOnPathIs(t, i, j, y);
  }

  // ------------------------------------------------------- the pre-order walk

  /** The walk of v's subtree appended its pre-order and numbered exactly the nodes of the subtree. */
  ghost predicate PreSubtree(t: Tree, v: nat, order: seq<nat>, order': seq<nat>, pos: seq<int>, pos0: seq<int>)
    requires WellFormed(t) && v < Size(t)
  {
    && |pos| == Size(t) && |pos0| == Size(t)
    && order' == order + PreOrder(t, v)
    && (forall x | 0 <= x < Size(t) && IsAncestor(t, v, x) :: |order| <= pos[x] < |order'| && order'[pos[x]] == x)
    && (forall x | 0 <= x < Size(t) && !IsAncestor(t, v, x) :: pos[x] == pos0[x])
  }

  /** The walk of v after v itself and its first k children. */
  ghost predicate PreWalked(t: Tree, v: nat, k: nat, order: seq<nat>, cur: seq<nat>, pos: seq<int>, pos0: seq<int>)
    requires WellFormed(t) && v < Size(t) && k <= |t.children[v]|
  {
    && |pos| == Size(t) && |pos0| == Size(t)
    && cur + PreOrders(t, v, k) == order + PreOrder(t, v) && |order| < |cur|
    && (forall x | 0 <= x < Size(t) && Visited(t, v, k, x) :: |order| <= pos[x] < |cur| && cur[pos[x]] == x)
    && (forall x | 0 <= x < Size(t) && !Visited(t, v, k, x) :: pos[x] == pos0[x])
  }

  lemma PreWalkedStart(t: Tree, v: nat, order: seq<nat>, pos: seq<int>, pos0: seq<int>)
    requires WellFormed(t) && v < Size(t) && |pos0| == Size(t) && pos == pos0[v := |order|]
    ensures PreWalked(t, v, 0, order, order + [v], pos, pos0)
  {
    forall x | 0 <= x < Size(t) ensures Visited(t, v, 0, x) <==> x == v {
    }
  }

  /** Walking child k extends the walk of v to its first k+1 children. */
  lemma PreWalkedStep(t: Tree, v: nat, k: nat, order: seq<nat>, cur: seq<nat>, mid: seq<nat>,
                      pos1: seq<int>, pos2: seq<int>, pos0: seq<int>)
    requires WellFormed(t) && v < Size(t) && k < |t.children[v]|
    requires PreWalked(t, v, k, order, cur, pos1, pos0)
    requires PreSubtree(t, t.children[v][k], cur, mid, pos2, pos1)
    ensures PreWalked(t, v, k + 1, order, mid, pos2, pos0)
  {
    var c := t.children[v][k];
    ChildDepth(t, v, k);
    assert PreOrders(t, v, k) == PreOrder(t, c) + PreOrders(t, v, k + 1);
    assert mid + PreOrders(t, v, k + 1) == cur + PreOrders(t, v, k);
    forall x | 0 <= x < Size(t) && Visited(t, v, k + 1, x) ensures |order| <= pos2[x] < |mid| && mid[pos2[x]] == x {
      VisitedStep(t, v, k, x);
      if !IsAncestor(t, c, x) {
        assert mid[pos2[x]] == cur[pos1[x]];
      }
    }
    forall x | 0 <= x < Size(t) && !Visited(t, v, k + 1, x) ensures pos2[x] == pos0[x] {
      VisitedStep(t, v, k, x);
    }
  }

  lemma PreWalkedEnd(t: Tree, v: nat, order: seq<nat>, cur: seq<nat>, pos: seq<int>, pos0: seq<int>)
    requires WellFormed(t) && v < Size(t)
    requires PreWalked(t, v, |t.children[v]|, order, cur, pos, pos0)
    ensures PreSubtree(t, v, order, cur, pos, pos0)
  {
    assert cur + PreOrders(t, v, |t.children[v]|) == cur;
    forall x | 0 <= x < Size(t) ensures Visited(t, v, |t.children[v]|, x) <==> IsAncestor(t, v, x) {
      VisitedAll(t, v, x);
    }
  }

  /**
   * NextNodeOnPath::preOrder: records v's position, appends v, then walks
   * the children left to right.
   */
  method PreOrderWalk(t: Tree, v: nat, pos: array<int>, order: seq<nat>) returns (order': seq<nat>)
    requires WellFormed(t) && v < Size(t) && pos.Length == Size(t)
    modifies pos
    ensures PreSubtree(t, v, order, order', pos[..], old(pos[..]))
    decreases Size(t) - Depth(t)[v]
  {
    pos[v] := |order|;
    order' := order + [v];
    PreWalkedStart(t, v, order, pos[..], old(pos[..]));
    var k := 0;
    while k < |t.children[v]|
      invariant 0 <= k <= |t.children[v]|
      invariant PreWalked(t, v, k, order, order', pos[..], old(pos[..]))
    {
      var c := t.children[v][k];
      ChildDepth(t, v, k);
      ghost var cur, pos1 := order', pos[..];
      order' := PreOrderWalk(t, c, pos, order');
      PreWalkedStep(t, v, k, order, cur, order', pos1, pos[..], old(pos[..]));
      k := k + 1;
    }
    PreWalkedEnd(t, v, order, order', pos[..], old(pos[..]));
  }

  /** A duplicate-free listing of 0..n-1 and a map that finds every node in it are inverse. */
  lemma InverseIsPositions(order: seq<nat>, pos: seq<int>, n: nat)
    requires NoDup(order) && |order| == n && |pos| == n
    requires forall p | 0 <= p < n :: order[p] < n
    requires forall x | 0 <= x < n :: 0 <= pos[x] < n && order[pos[x]] == x
    ensures Positions(order, pos, n)
  {
    forall p | 0 <= p < n ensures pos[order[p]] == p {
      var y := order[p];
      assert order[pos[y]] == y;
    }
  }

  /** The pre-order of the whole tree and every node's position in it. */
  method PreOrderNumbering(t: Tree) returns (order: seq<nat>, pos: seq<int>)
    requires WellFormed(t)
    ensures order == PreOrder(t, t.root) && Positions(order, pos, Size(t))
  {
    var a := new int[Size(t)](_ => 0);
    ghost var pos0 := a[..];
    order := PreOrderWalk(t, t.root, a, []);
    pos := a[..];
    PreOrderIsPermutation(t);
    forall x | 0 <= x < Size(t) ensures IsAncestor(t, t.root, x) {
      RootIsAncestor(t, x);
    }
    InverseIsPositions(order, pos, Size(t));
  }

  // ------------------------------------------------------ the post-order walk

  /**
   * The walk of v's subtree appended its post-order, numbered exactly the
   * nodes of the subtree, and wrote the pre-order label of each appended
   * node at its post-order position and nowhere else.
   */
  ghost predicate PostSubtree(t: Tree, v: nat, pre: seq<int>, order: seq<nat>, order': seq<nat>,
                              pos: seq<int>, pos0: seq<int>, labels: seq<int>, labels0: seq<int>)
    requires WellFormed(t) && v < Size(t)
  {
    && |pre| == Size(t) && |pos| == Size(t) && |pos0| == Size(t) && |labels| == Size(t) && |labels0| == Size(t)
    && order' == order + PostOrder(t, v)
    && (forall x | 0 <= x < Size(t) && IsAncestor(t, v, x) :: |order| <= pos[x] < |order'| && order'[pos[x]] == x)
    && (forall x | 0 <= x < Size(t) && !IsAncestor(t, v, x) :: pos[x] == pos0[x])
    && (forall q | |order| <= q < |order'| :: q < Size(t) && order'[q] < Size(t) && labels[q] == pre[order'[q]])
    && (forall q | 0 <= q < Size(t) && !(|order| <= q < |order'|) :: labels[q] == labels0[q])
  }

  /** x lies below one of the first k children of v. */
  ghost predicate InChildSubtrees(t: Tree, v: nat, k: nat, x: nat)
    requires WellFormed(t) && v < Size(t) && k <= |t.children[v]| && x < Size(t)
  {
    x != v && Visited(t, v, k, x)
  }

  /** The walk of v after its first k children (v itself comes last). */
  ghost predicate PostWalked(t: Tree, v: nat, k: nat, pre: seq<int>, order: seq<nat>, cur: seq<nat>,
                             pos: seq<int>, pos0: seq<int>, labels: seq<int>, labels0: seq<int>)
    requires WellFormed(t) && v < Size(t) && k <= |t.children[v]|
  {
    && |pre| == Size(t) && |pos| == Size(t) && |pos0| == Size(t) && |labels| == Size(t) && |labels0| == Size(t)
    && cur + PostOrders(t, v, k) + [v] == order + PostOrder(t, v) && |order| <= |cur|
    && (forall x | 0 <= x < Size(t) && InChildSubtrees(t, v, k, x) :: |order| <= pos[x] < |cur| && cur[pos[x]] == x)
    && (forall x | 0 <= x < Size(t) && !InChildSubtrees(t, v, k, x) :: pos[x] == pos0[x])
    && (forall q | |order| <= q < |cur| :: q < Size(t) && cur[q] < Size(t) && labels[q] == pre[cur[q]])
    && (forall q | 0 <= q < Size(t) && !(|order| <= q < |cur|) :: labels[q] == labels0[q])
  }

  lemma PostWalkedStart(t: Tree, v: nat, pre: seq<int>, order: seq<nat>, pos: seq<int>, labels: seq<int>)
    requires WellFormed(t) && v < Size(t)
    requires |pre| == Size(t) && |pos| == Size(t) && |labels| == Size(t)
    ensures PostWalked(t, v, 0, pre, order, order, pos, pos, labels, labels)
  {
    assert order + PostOrders(t, v, 0) + [v] == order + PostOrder(t, v);
  }

  /** Walking child k extends the walk of v to its first k+1 children. */
  lemma PostWalkedStep(t: Tree, v: nat, k: nat, pre: seq<int>, order: seq<nat>, cur: seq<nat>, mid: seq<nat>,
                       pos1: seq<int>, pos2: seq<int>, pos0: seq<int>,
                       labels1: seq<int>, labels2: seq<int>, labels0: seq<int>)
    requires WellFormed(t) && v < Size(t) && k < |t.children[v]|
    requires PostWalked(t, v, k, pre, order, cur, pos1, pos0, labels1, labels0)
    requires PostSubtree(t, t.children[v][k], pre, cur, mid, pos2, pos1, labels2, labels1)
    ensures PostWalked(t, v, k + 1, pre, order, mid, pos2, pos0, labels2, labels0)
  {
    var c := t.children[v][k];
    ChildDepth(t, v, k);
    assert PostOrders(t, v, k) == PostOrder(t, c) + PostOrders(t, v, k + 1);
    assert mid + PostOrders(t, v, k + 1) + [v] == cur + PostOrders(t, v, k) + [v];
    PostStepPositions(t, v, k, order, cur, mid, pos1, pos2, pos0);
    PostStepLabels(t, pre, order, cur, mid, labels1, labels2, labels0);
  }

  /** The position part of PostWalkedStep. */
  lemma PostStepPositions(t: Tree, v: nat, k: nat, order: seq<nat>, cur: seq<nat>, mid: seq<nat>,
                          pos1: seq<int>, pos2: seq<int>, pos0: seq<int>)
    requires WellFormed(t) && v < Size(t) && k < |t.children[v]|
    requires |pos1| == Size(t) && |pos2| == Size(t) && |pos0| == Size(t) && |order| <= |cur|
    requires forall x | 0 <= x < Size(t) && InChildSubtrees(t, v, k, x) :: |order| <= pos1[x] < |cur| && cur[pos1[x]] == x
    requires forall x | 0 <= x < Size(t) && !InChildSubtrees(t, v, k, x) :: pos1[x] == pos0[x]
    requires mid == cur + PostOrder(t, t.children[v][k])
    requires forall x | 0 <= x < Size(t) && IsAncestor(t, t.children[v][k], x) :: |cur| <= pos2[x] < |mid| && mid[pos2[x]] == x
    requires forall x | 0 <= x < Size(t) && !IsAncestor(t, t.children[v][k], x) :: pos2[x] == pos1[x]
    ensures forall x | 0 <= x < Size(t) && InChildSubtrees(t, v, k + 1, x) :: |order| <= pos2[x] < |mid| && mid[pos2[x]] == x
    ensures forall x | 0 <= x < Size(t) && !InChildSubtrees(t, v, k + 1, x) :: pos2[x] == pos0[x]
  {
    var c := t.children[v][k];
    forall x | 0 <= x < Size(t) && InChildSubtrees(t, v, k + 1, x) ensures |order| <= pos2[x] < |mid| && mid[pos2[x]] == x {
      VisitedStep(t, v, k, x);
      if !IsAncestor(t, c, x) {
        assert mid[pos2[x]] == cur[pos1[x]];
      }
    }
    forall x | 0 <= x < Size(t) && !InChildSubtrees(t, v, k + 1, x) ensures pos2[x] == pos0[x] {
      VisitedStep(t, v, k, x);
      if x == v {
        assert !IsAncestor(t, c, v) by {
          ChildDepth(t, v, k);
          if IsAncestor(t, c, v) {
            AncestorDepth(t, c, v);
          }
        }
      }
    }
  }

  /** The label part of PostWalkedStep. */
  lemma PostStepLabels(t: Tree, pre: seq<int>, order: seq<nat>, cur: seq<nat>, mid: seq<nat>,
                       labels1: seq<int>, labels2: seq<int>, labels0: seq<int>)
    requires |pre| == Size(t) && |labels1| == Size(t) && |labels2| == Size(t) && |labels0| == Size(t)
    requires |order| <= |cur| <= |mid| && mid[..|cur|] == cur
    requires forall q | |order| <= q < |cur| :: q < Size(t) && cur[q] < Size(t) && labels1[q] == pre[cur[q]]
    requires forall q | 0 <= q < Size(t) && !(|order| <= q < |cur|) :: labels1[q] == labels0[q]
    requires forall q | |cur| <= q < |mid| :: q < Size(t) && mid[q] < Size(t) && labels2[q] == pre[mid[q]]
    requires forall q | 0 <= q < Size(t) && !(|cur| <= q < |mid|) :: labels2[q] == labels1[q]
    ensures forall q | |order| <= q < |mid| :: q < Size(t) && mid[q] < Size(t) && labels2[q] == pre[mid[q]]
    ensures forall q | 0 <= q < Size(t) && !(|order| <= q < |mid|) :: labels2[q] == labels0[q]
  {
    forall q | |order| <= q < |mid| ensures q < Size(t) && mid[q] < Size(t) && labels2[q] == pre[mid[q]] {
      if q < |cur| {
        assert mid[q] == mid[..|cur|][q];
      }
    }
  }

  /** Appending v after its children completes the walk of v's subtree. */
  lemma PostWalkedEnd(t: Tree, v: nat, pre: seq<int>, order: seq<nat>, cur: seq<nat>,
                      pos1: seq<int>, pos0: seq<int>, labels1: seq<int>, labels0: seq<int>)
    requires WellFormed(t) && v < Size(t)
    requires PostWalked(t, v, |t.children[v]|, pre, order, cur, pos1, pos0, labels1, labels0)
    requires |cur| < Size(t)
    ensures PostSubtree(t, v, pre, order, cur + [v], pos1[v := |cur|], pos0, labels1[|cur| := pre[v]], labels0)
  {
    var fin := cur + [v];
    assert cur + PostOrders(t, v, |t.children[v]|) + [v] == fin;
    forall x | 0 <= x < Size(t) ensures InChildSubtrees(t, v, |t.children[v]|, x) <==> IsAncestor(t, v, x) && x != v {
      VisitedAll(t, v, x);
    }
    forall x | 0 <= x < Size(t) && IsAncestor(t, v, x) && x != v ensures fin[pos1[x]] == x {
      assert fin[pos1[x]] == cur[pos1[x]];
    }
    forall q | |order| <= q < |fin| - 1 ensures fin[q] == cur[q] {
    }
  }

  /**
   * NextNodeOnPath::sortLabelsByPostOrder: walks the children left to
   * right, then records v's post-order position, writes v's pre-order label
   * at that position and appends v.
   */
  method PostOrderWalk(t: Tree, v: nat, pre: seq<int>, pos: array<int>, labels: array<int>, order: seq<nat>)
    returns (order': seq<nat>)
    requires WellFormed(t) && v < Size(t) && |pre| == Size(t)
    requires pos.Length == Size(t) && labels.Length == Size(t) && pos != labels
    requires |order| + |PostOrder(t, v)| <= Size(t)
    modifies pos, labels
    ensures PostSubtree(t, v, pre, order, order', pos[..], old(pos[..]), labels[..], old(labels[..]))
    decreases Size(t) - Depth(t)[v]
  {
    order' := order;
    PostWalkedStart(t, v, pre, order, pos[..], labels[..]);
    var k := 0;
    while k < |t.children[v]|
      invariant 0 <= k <= |t.children[v]|
      invariant PostWalked(t, v, k, pre, order, order', pos[..], old(pos[..]), labels[..], old(labels[..]))
    {
      var c := t.children[v][k];
      ChildDepth(t, v, k);
      assert PostOrders(t, v, k) == PostOrder(t, c) + PostOrders(t, v, k + 1);
      ghost var cur, pos1, labels1 := order', pos[..], labels[..];
      order' := PostOrderWalk(t, c, pre, pos, labels, order');
      PostWalkedStep(t, v, k, pre, order, cur, order', pos1, pos[..], old(pos[..]), labels1, labels[..], old(labels[..]));
      k := k + 1;
    }
    assert |order' + PostOrders(t, v, k) + [v]| == |order| + |PostOrder(t, v)|;
    ghost var pos1, labels1 := pos[..], labels[..];
    pos[v] := |order'|;
    labels[|order'|] := pre[v];
    assert pos[..] == pos1[v := |order'|] && labels[..] == labels1[|order'| := pre[v]];
    PostWalkedEnd(t, v, pre, order, order', pos1, old(pos[..]), labels1, old(labels[..]));
    order' := order' + [v];
  }

  /** The post-order of the whole tree, every node's position in it, and the pre-order labels in post-order. */
  method PostOrderNumbering(t: Tree, pre: seq<int>) returns (order: seq<nat>, pos: seq<int>, labels: seq<int>)
    requires WellFormed(t) && |pre| == Size(t)
    ensures order == PostOrder(t, t.root) && Positions(order, pos, Size(t))
    ensures |labels| == Size(t) && forall q | 0 <= q < Size(t) :: labels[q] == pre[order[q]]
  {
    var a := new int[Size(t)](_ => 0);
    var b := new int[Size(t)](_ => 0);
    PostOrderIsPermutation(t);
    order := PostOrderWalk(t, t.root, pre, a, b, []);
    pos, labels := a[..], b[..];
    forall x | 0 <= x < Size(t) ensures IsAncestor(t, t.root, x) {
      RootIsAncestor(t, x);
    }
    InverseIsPositions(order, pos, Size(t));
  }

  /**
   * Over post-order positions lo..up-1, when c sits there and no node there
   * has a smaller pre-order position, c's pre-order position is the smallest label.
   */
  lemma SmallestLabel(pre: seq<int>, postOrder: seq<nat>, post: seq<int>, labels: seq<int>, n: nat, c: nat, lo: int, up: int)
    requires Positions(postOrder, post, n) && |pre| == n && |labels| == n && c < n
    requires forall q | 0 <= q < n :: labels[q] == pre[postOrder[q]]
    requires 0 <= lo <= post[c] < up <= n
    requires forall y | 0 <= y < n && lo <= post[y] < up :: pre[c] <= pre[y]
    ensures IsMinOf(labels, pre[c], lo, up - 1)
  {
    assert labels[post[c]] == pre[c];
    forall q | lo <= q <= up - 1 ensures pre[c] <= labels[q] {
      var y := postOrder[q];
      assert post[y] == q;
    }
  }

  // ------------------------------------------------------------ the index

  /** NextNodeOnPath: the tree, its two numberings, the labels with their range minima, and the tree's LCA index. */
  class NextNodeOnPath {
    const tree: Tree
    const preOrderTraversal: seq<nat>
    const postOrderTraversal: seq<nat>
    /** nodeToPreOrderPosition and nodeToPostOrderPosition. */
    const preOrderPosition: seq<int>
    const postOrderPosition: seq<int>
    /** preOrderLabelsInPostOrder: the pre-order position of the node at each post-order position. */
    const labels: seq<int>
    const labelsRmq: Rmq
    const treeLca: LcaIndex

    ghost predicate Valid() {
      && WellFormed(tree) && Size(tree) >= 2
      && preOrderTraversal == PreOrder(tree, tree.root) && Positions(preOrderTraversal, preOrderPosition, Size(tree))
      && postOrderTraversal == PostOrder(tree, tree.root) && Positions(postOrderTraversal, postOrderPosition, Size(tree))
      && |labels| == Size(tree)
      && (forall q | 0 <= q < Size(tree) :: labels[q] == preOrderPosition[postOrderTraversal[q]])
      && labelsRmq.Valid() && labelsRmq.values == labels
      && treeLca.Valid() && treeLca.tree == tree
    }

    /** NextNodeOnPath::NextNodeOnPath for a well-formed tree of two or more nodes. */
    constructor (t: Tree)
      requires WellFormed(t) && Size(t) >= 2
      ensures Valid() && tree == t
    {
      tree := t;
      var preOrder, prePos := PreOrderNumbering(t);
      var postOrder, postPos, lab := PostOrderNumbering(t, prePos);
      var r := new Rmq(lab);
      var l := new LcaIndex(t);
      preOrderTraversal, preOrderPosition := preOrder, prePos;
      postOrderTraversal, postOrderPosition, labels := postOrder, postPos, lab;
      labelsRmq, treeLca := r, l;
    }

    /** The label at v's post-order position is v's pre-order position. */
    lemma LabelOf(v: nat)
      requires Valid() && v < Size(tree)
      ensures 0 <= postOrderPosition[v] < Size(tree) && labels[postOrderPosition[v]] == preOrderPosition[v]
    {
    }

    /** The labels are the numbers 0..n-1, each once. */
    lemma LabelsArePermutation()
      requires Valid()
      ensures forall q | 0 <= q < Size(tree) :: 0 <= labels[q] < Size(tree)
      ensures forall q, q' | 0 <= q < Size(tree) && 0 <= q' < Size(tree) && labels[q] == labels[q'] :: q == q'
      ensures forall p | 0 <= p < Size(tree) ::
        0 <= postOrderPosition[preOrderTraversal[p]] < Size(tree) && labels[postOrderPosition[preOrderTraversal[p]]] == p
    {
      forall q, q' | 0 <= q < Size(tree) && 0 <= q' < Size(tree) && labels[q] == labels[q'] ensures q == q' {
        var x, y := postOrderTraversal[q], postOrderTraversal[q'];
        assert preOrderTraversal[preOrderPosition[x]] == x && preOrderTraversal[preOrderPosition[y]] == y;
        assert postOrderPosition[x] == q && postOrderPosition[y] == q';
      }
      forall p | 0 <= p < Size(tree)
        ensures 0 <= postOrderPosition[preOrderTraversal[p]] < Size(tree) && labels[postOrderPosition[preOrderTraversal[p]]] == p
      {
        LabelOf(preOrderTraversal[p]);
      }
    }

    /** The root comes first in pre-order and last in post-order. */
    lemma RootPositions()
      requires Valid()
      ensures preOrderPosition[tree.root] == 0 && postOrderPosition[tree.root] == Size(tree) - 1
    {
      PreOrderIsPermutation(tree);
      PostOrderIsPermutation(tree);
    }

    /** An ancestor comes no later in pre-order and no earlier in post-order. */
    lemma AncestorOrder(x: nat, y: nat)
      requires Valid() && x < Size(tree) && y < Size(tree) && IsAncestor(tree, x, y)
      ensures preOrderPosition[x] <= preOrderPosition[y] && postOrderPosition[y] <= postOrderPosition[x]
    {
      PreRange(tree, preOrderPosition, x, y);
      PostRange(tree, postOrderPosition, x, y);
    }

    /**
     * The range minimum the query takes: over the post-order positions from
     * j's to just before i's, the smallest label is the pre-order position of
     * the child of i toward j.
     */
    lemma DescentLabel(i: nat, j: nat)
      requires Valid() && i < Size(tree) && j < Size(tree) && i != j && IsAncestor(tree, i, j)
      ensures 0 <= postOrderPosition[j] < postOrderPosition[i] < Size(tree)
      ensures IsMinOf(labels, preOrderPosition[ChildToward(tree, i, j)], postOrderPosition[j], postOrderPosition[i] - 1)
    {
      DescentRange(tree, preOrderPosition, postOrderPosition, i, j);
      SmallestLabel(preOrderPosition, postOrderTraversal, postOrderPosition, labels, Size(tree),
                    ChildToward(tree, i, j), postOrderPosition[j], postOrderPosition[i]);
    }

    /** The query's range minimum in the descent case. */
    lemma DescentStep(i: nat, j: nat)
      requires Valid() && i < Size(tree) && j < Size(tree) && i != j && IsAncestor(tree, i, j)
      ensures labelsRmq.RangeMin(postOrderPosition[j], postOrderPosition[i] - 1) == Ok(preOrderPosition[ChildToward(tree, i, j)])
      ensures preOrderTraversal[preOrderPosition[ChildToward(tree, i, j)]] == ChildToward(tree, i, j)
    {
      var c := ChildToward(tree, i, j);
      var lo, hi := postOrderPosition[j], postOrderPosition[i] - 1;
      DescentLabel(i, j);
      assert IsMinOf(labelsRmq.values, preOrderPosition[c], lo, hi);
      labelsRmq.RangeMinIs(lo, hi, preOrderPosition[c]);
      TraversalAt(preOrderTraversal, preOrderPosition, Size(tree), c);
    }

    /** A label that is the minimum of some range is a pre-order position. */
    lemma MinIsLabel(m: int, lo: nat, hi: nat)
      requires Valid() && lo <= hi < Size(tree) && IsMinOf(labels, m, lo, hi)
      ensures 0 <= m < Size(tree)
    {
      var k :| lo <= k <= hi && labels[k] == m;
    }

    /** The lowest common ancestor of i and any node is i exactly when j lies below i. */
    lemma LcaIsSelf(i: nat, j: nat)
      requires Valid() && i < Size(tree) && j < Size(tree)
      ensures treeLca.Lca(i, j).Ok?
      ensures treeLca.Lca(i, j).value == i <==> IsAncestor(tree, i, j)
      ensures treeLca.Lca(i, j).value != i ==> i != tree.root
    {
      var a := treeLca.Lca(i, j).value;
      if IsAncestor(tree, i, j) {
        assert IsAncestor(tree, i, i);
        AncestorAntisymmetric(tree, a, i);
      }
      if i == tree.root {
        RootAncestor(tree, a);
      }
    }

    /**
     * NextNodeOnPath::query: OutOfRange for a node outside the tree; the
     * parent of i when the lowest common ancestor of i and j is not i;
     * otherwise the descent below i. For two different nodes that is the
     * next node on the path from i to j.
     */
    function Query(i: int, j: int): (r: Result<nat>)
      requires Valid()
      ensures !(0 <= i < Size(tree) && 0 <= j < Size(tree)) ==> r == Err(OutOfRange)
      ensures 0 <= i < Size(tree) && 0 <= j < Size(tree) && i != j ==>
        r.Ok? && IsNextOnPath(tree, i, j, r.value)
      ensures 0 <= i < Size(tree) && 0 <= j < Size(tree) && i != j && IsAncestor(tree, i, j) ==>
        r.value == ChildToward(tree, i, j)
      ensures 0 <= i < Size(tree) && 0 <= j < Size(tree) && !IsAncestor(tree, i, j) ==>
        r.value as int == tree.parent[i]
      ensures 0 <= i < Size(tree) && i == j ==>
        (r.Err? <==> postOrderPosition[i] == 0) && (r.Err? ==> r.error == OutOfRange) && (r.Ok? ==> r.value < Size(tree))
    {
      if !(0 <= i < Size(tree) && 0 <= j < Size(tree)) then Err(OutOfRange)
      else
        LcaIsSelf(i, j);
        if treeLca.Lca(i, j).value != i then
          ClimbIsNext(i, j);
          Ok(tree.parent[i] as nat)
        else
          if i != j then DescentIsNext(i, j); Descend(i, j) else Descend(i, j)
    }

    /**
     * The descent branch of NextNodeOnPath::query, for j in i's subtree: the
     * node at the pre-order position given by the smallest label over
     * post-order positions post[j]..post[i]-1, the child of i toward j when
     * j != i. For j == i the range is post[i]-1..post[i], out of range when
     * post[i] == 0.
     */
    function Descend(i: nat, j: nat): (r: Result<nat>)
      requires Valid() && i < Size(tree) && j < Size(tree) && IsAncestor(tree, i, j)
      ensures i != j ==> r == Ok(ChildToward(tree, i, j))
      ensures i == j ==> (r.Err? <==> postOrderPosition[i] == 0) && (r.Err? ==> r.error == OutOfRange) && (r.Ok? ==> r.value < Size(tree))
    {
      if i != j then
        DescentStep(i, j);
        var m := labelsRmq.RangeMin(postOrderPosition[j], postOrderPosition[i] - 1);
        Ok(preOrderTraversal[m.value])
      else
        SelfRange(i);
        var m := labelsRmq.RangeMin(postOrderPosition[j], postOrderPosition[i] - 1);
        if m.Err? then Err(m.error) else Ok(preOrderTraversal[m.value])
    }

    /** The range the query takes for j == i: out of range exactly when post[i] == 0, otherwise a label. */
    lemma SelfRange(i: nat)
      requires Valid() && i < Size(tree)
      ensures labelsRmq.RangeMin(postOrderPosition[i], postOrderPosition[i] - 1).Err? <==> postOrderPosition[i] == 0
      ensures labelsRmq.RangeMin(postOrderPosition[i], postOrderPosition[i] - 1).Err? ==>
        labelsRmq.RangeMin(postOrderPosition[i], postOrderPosition[i] - 1).error == OutOfRange
      ensures labelsRmq.RangeMin(postOrderPosition[i], postOrderPosition[i] - 1).Ok? ==>
        0 <= labelsRmq.RangeMin(postOrderPosition[i], postOrderPosition[i] - 1).value < Size(tree)
    {
      var m := labelsRmq.RangeMin(postOrderPosition[i], postOrderPosition[i] - 1);
      if m.Ok? {
        MinIsLabel(m.value, postOrderPosition[i] - 1, postOrderPosition[i]);
      }
    }

    /** The parent of i is next on the path to a node outside i's subtree. */
    lemma ClimbIsNext(i: nat, j: nat)
      requires Valid() && i < Size(tree) && j < Size(tree) && !IsAncestor(tree, i, j)
      ensures i != tree.root && IsNextOnPath(tree, i, j, tree.parent[i] as nat)
    {
      if i == tree.root {
        RootIsAncestor(tree, j);
      }
      var p := tree.parent[i] as nat;
      ChildIsDescendant(tree, i);
      forall w | 0 <= w < Size(tree) && IsAncestor(tree, w, i) && IsAncestor(tree, w, j) ensures IsAncestor(tree, w, p) {
        assert w != i;
      }
    }

    /** The child of i toward j is next on the path to a node below i. */
    lemma DescentIsNext(i: nat, j: nat)
      requires Valid() && i < Size(tree) && j < Size(tree) && i != j && IsAncestor(tree, i, j)
      ensures IsNextOnPath(tree, i, j, ChildToward(tree, i, j))
    {
      var c := ChildToward(tree, i, j);
      ChildIsDescendant(tree, c);
      forall w | 0 <= w < Size(tree) && IsAncestor(tree, w, i) && IsAncestor(tree, w, j) ensures IsAncestor(tree, w, c) {
        AncestorTransitive(tree, w, i, c);
      }
    }
  }

  // ---------------------------------------------------------- the example

  /** The fifteen-node tree of main.cpp, node values 1..15. */
  function ExampleTree(): (t: Tree)
    ensures Size(t) == 15
  {
    Tree([1, 2, 3, 4, 5, 6, 7, 8, 9, 10, 11, 12, 13, 14, 15],
         [-1, 0, 1, 1, 0, 4, 4, 4, 5, 5, 6, 7, 7, 0, 13],
         [[1, 4, 13], [2, 3], [], [], [5, 6, 7], [8, 9], [10], [11, 12], [], [], [], [], [], [14], []],
         0)
  }

  lemma ExampleParents()
    ensures forall v | 0 <= v < 15 && v != 0 ::
      0 <= ExampleTree().parent[v] < 15 && v in ExampleTree().children[ExampleTree().parent[v]]
  {
    var t := ExampleTree();
    forall v | 0 <= v < 15 && v != 0 ensures 0 <= t.parent[v] < 15 && v in t.children[t.parent[v]] {
      assert v == 1 || v == 2 || v == 3 || v == 4 || v == 5 || v == 6 || v == 7 || v == 8
          || v == 9 || v == 10 || v == 11 || v == 12 || v == 13 || v == 14;
    }
  }

  lemma ExampleChildren()
    ensures forall v, k | 0 <= v < 15 && 0 <= k < |ExampleTree().children[v]| ::
      ExampleTree().children[v][k] < 15 && ExampleTree().parent[ExampleTree().children[v][k]] == v
    ensures forall v, k1, k2 | 0 <= v < 15 && 0 <= k1 < k2 < |ExampleTree().children[v]| ::
      ExampleTree().children[v][k1] != ExampleTree().children[v][k2]
  {
    var t := ExampleTree();
    forall v, k | 0 <= v < 15 && 0 <= k < |t.children[v]| ensures t.children[v][k] < 15 && t.parent[t.children[v][k]] == v {
      assert v == 0 || v == 1 || v == 4 || v == 5 || v == 6 || v == 7 || v == 13;
    }
    forall v, k1, k2 | 0 <= v < 15 && 0 <= k1 < k2 < |t.children[v]| ensures t.children[v][k1] != t.children[v][k2] {
      assert v == 0 || v == 1 || v == 4 || v == 5 || v == 7;
    }
  }

  /** The depth of every node of the tree of main.cpp. */
  function ExampleDepths(): (d: seq<nat>) {
    [0, 1, 2, 2, 1, 2, 2, 2, 3, 3, 3, 3, 3, 1, 2]
  }

  lemma ExampleLevels()
    ensures |ExampleDepths()| == 15 && ExampleDepths()[0] == 0
    ensures forall v | 0 <= v < 15 :: ExampleDepths()[v] < 15
    ensures forall v | 0 <= v < 15 && v != 0 ::
      0 <= ExampleTree().parent[v] < 15 && ExampleDepths()[v] == ExampleDepths()[ExampleTree().parent[v]] + 1
  {
    var t, d := ExampleTree(), ExampleDepths();
    forall v | 0 <= v < 15 && v != 0 ensures 0 <= t.parent[v] < 15 && d[v] == d[t.parent[v]] + 1 {
      assert v == 1 || v == 2 || v == 3 || v == 4 || v == 5 || v == 6 || v == 7 || v == 8
          || v == 9 || v == 10 || v == 11 || v == 12 || v == 13 || v == 14;
    }
  }

  lemma ExampleWellFormed()
    ensures WellFormed(ExampleTree())
  {
    ExampleParents();
    ExampleChildren();
    assert Shaped(ExampleTree());
    ExampleLevels();
    assert IsLevelling(ExampleTree(), ExampleDepths());
  }

  /** In the tree of main.cpp node 10 lies below node 4, under its child 6. */
  lemma ExampleDescent()
    requires WellFormed(ExampleTree())
    ensures IsAncestor(ExampleTree(), 4, 10) && ChildToward(ExampleTree(), 4, 10) == 6
  {
    var t := ExampleTree();
    assert IsAncestor(t, 4, 4);
    assert IsAncestor(t, 4, 6);
    assert ChildToward(t, 4, 6) == 6;
  }

  /** On the tree of main.cpp, the next node from node 4 toward node 10 is node 6. */
  lemma ExampleAnswer(nn: NextNodeOnPath)
    requires nn.Valid() && nn.tree == ExampleTree()
    ensures nn.Query(4, 10) == Ok(6)
  {
    ExampleDescent();
  }

  /** main.cpp's query: build the index over its tree and ask for the next node from 4 toward 10. */
  method ExampleQuery() returns (r: Result<nat>)
    ensures r == Ok(6)
  {
    ExampleWellFormed();
    var nn := new NextNodeOnPath(ExampleTree());
    r := nn.Query(4, 10);
    ExampleAnswer(nn);
  }
}

/**
 * Where the nodes sit in the pre-order and the post-order of the whole tree:
 * every subtree occupies one contiguous run of positions in each, the runs of
 * the children of a node follow each other left to right, and so a node is an
 * ancestor of another exactly when the other's position falls inside its run.
 */
module TraversalPositions {
  import opened Trees
  import opened TreeOrders

  /** a appears in s as the run of entries starting at position off. */
  ghost predicate Occurs(a: seq<nat>, s: seq<nat>, off: int) {
    0 <= off && off + |a| <= |s| && s[off..off + |a|] == a
  }

  lemma OccursAt(a: seq<nat>, s: seq<nat>, off: int, r: int)
    requires Occurs(a, s, off) && 0 <= r < |a|
    ensures s[off + r] == a[r]
  {
    assert s[off..off + |a|][r] == s[off + r];
  }

  lemma OccursTrans(a: seq<nat>, b: seq<nat>, c: seq<nat>, o1: int, o2: int)
    requires Occurs(a, b, o1) && Occurs(b, c, o2)
    ensures Occurs(a, c, o2 + o1)
  {
    forall r | 0 <= r < |a| ensures c[o2 + o1 .. o2 + o1 + |a|][r] == a[r] {
      OccursAt(a, b, o1, r);
      OccursAt(b, c, o2, o1 + r);
    }
  }

  lemma OccursLeft(a: seq<nat>, b: seq<nat>)
    ensures Occurs(a, a + b, 0)
  {
    assert (a + b)[0..|a|] == a;
  }

  lemma OccursSelf(a: seq<nat>)
    ensures Occurs(a, a, 0)
  {
    assert a[0..|a|] == a;
  }

  lemma OccursRight(a: seq<nat>, b: seq<nat>)
    ensures Occurs(b, a + b, |a|)
  {
    assert (a + b)[|a|..|a| + |b|] == b;
  }

  /** One step down a list of concatenated orders: dropping the first one keeps a suffix. */
  lemma SuffixStep(a: seq<nat>, k1: seq<nat>, k: seq<nat>, z: seq<nat>)
    requires k1 == a + k && |k1| <= |z| && Occurs(k1, z, |z| - |k1|)
    ensures |k| <= |z| && Occurs(k, z, |z| - |k|)
  {
    OccursRight(a, k);
    OccursTrans(k, k1, z, |a|, |z| - |k1|);
  }

  /** The first order of a suffix starting at off, inside [v] + z, starts at 1 + off. */
  lemma PreChildStep(a: seq<nat>, b: seq<nat>, k: seq<nat>, z: seq<nat>, p: seq<nat>, v: nat)
    requires k == a + b && p == [v] + z && |k| <= |z| && Occurs(k, z, |z| - |k|)
    ensures Occurs(a, p, 1 + (|z| - |k|))
  {
    OccursLeft(a, b);
    OccursTrans(a, k, z, 0, |z| - |k|);
    OccursRight([v], z);
    OccursTrans(a, z, p, |z| - |k| + 0, 1);
  }

  /** The first order of a suffix starting at off, inside z + [v], starts at off. */
  lemma PostChildStep(a: seq<nat>, b: seq<nat>, k: seq<nat>, z: seq<nat>, p: seq<nat>, v: nat)
    requires k == a + b && p == z + [v] && |k| <= |z| && Occurs(k, z, |z| - |k|)
    ensures Occurs(a, p, |z| - |k|)
  {
    OccursLeft(a, b);
    OccursTrans(a, k, z, 0, |z| - |k|);
    OccursLeft(z, [v]);
    OccursTrans(a, z, p, |z| - |k| + 0, 0);
  }

  /** pos and order are inverse to each other: order lists the nodes 0..n-1, each once. */
  ghost predicate Positions(order: seq<nat>, pos: seq<int>, n: nat) {
    && |order| == n && |pos| == n
    && (forall p | 0 <= p < n :: order[p] < n && pos[order[p]] == p)
    && (forall x | 0 <= x < n :: 0 <= pos[x] < n && order[pos[x]] == x)
  }

  /** A node's position is the only place it occurs. */
  lemma PositionOf(order: seq<nat>, pos: seq<int>, n: nat, p: int, x: nat)
    requires Positions(order, pos, n) && 0 <= p < n && x < n && order[p] == x
    ensures pos[x] == p
  {
  }

  /** The order holds x at x's position. */
  lemma TraversalAt(order: seq<nat>, pos: seq<int>, n: nat, x: nat)
    requires Positions(order, pos, n) && x < n
    ensures 0 <= pos[x] < |order| && order[pos[x]] == x
  {
  }

  /** A run that starts with x, found inside a run of order, starts at x's position. */
  lemma HeadPosition(a: seq<nat>, b: seq<nat>, order: seq<nat>, pos: seq<int>, n: nat, o1: int, o2: int, x: nat)
    requires Positions(order, pos, n) && Occurs(a, b, o1) && Occurs(b, order, o2)
    requires |a| > 0 && a[0] == x && x < n
    ensures pos[x] == o2 + o1 && Occurs(a, order, pos[x])
  {
    OccursTrans(a, b, order, o1, o2);
    OccursAt(a, order, o2 + o1, 0);
    PositionOf(order, pos, n, o2 + o1, x);
  }

  /** A run z + [x], found inside a run of order, ends at x's position. */
  lemma LastPosition(a: seq<nat>, z: seq<nat>, b: seq<nat>, order: seq<nat>, pos: seq<int>, n: nat, o1: int, o2: int, x: nat)
    requires Positions(order, pos, n) && Occurs(a, b, o1) && Occurs(b, order, o2)
    requires a == z + [x] && x < n
    ensures pos[x] == o2 + o1 + |a| - 1 && Occurs(a, order, pos[x] + 1 - |a|)
    ensures Occurs(a, order, o2 + o1)
  {
    OccursTrans(a, b, order, o1, o2);
    OccursAt(a, order, o2 + o1, |a| - 1);
    PositionOf(order, pos, n, o2 + o1 + (|a| - 1), x);
  }

  /** y belongs to a run of order exactly when y's position lies inside the run. */
  lemma RunMember(a: seq<nat>, order: seq<nat>, pos: seq<int>, n: nat, off: int, y: nat)
    requires Positions(order, pos, n) && Occurs(a, order, off) && y < n
    ensures y in a <==> off <= pos[y] < off + |a|
  {
    if y in a {
      var r :| 0 <= r < |a| && a[r] == y;
      OccursAt(a, order, off, r);
      PositionOf(order, pos, n, off + r, y);
    }
    if off <= pos[y] < off + |a| {
      OccursAt(a, order, off, pos[y] - off);
    }
  }

  /** A pre-order starts with its root. */
  lemma PreOrderHead(t: Tree, v: nat)
    requires WellFormed(t) && v < Size(t)
    ensures |PreOrder(t, v)| == |PreOrders(t, v, 0)| + 1 && PreOrder(t, v)[0] == v
  {
  }

  /** A post-order ends with its root. */
  lemma PostOrderLast(t: Tree, v: nat)
    requires WellFormed(t) && v < Size(t)
    ensures |PostOrder(t, v)| == |PostOrders(t, v, 0)| + 1 && PostOrder(t, v)[|PostOrder(t, v)| - 1] == v
  {
  }

  /** Post-orders of children k.. split into child k's and the rest. */
  lemma PostOrdersCons(t: Tree, v: nat, k: nat)
    requires WellFormed(t) && v < Size(t) && k < |t.children[v]|
    ensures t.children[v][k] < Size(t)
    ensures |PostOrders(t, v, k)| == |PostOrder(t, t.children[v][k])| + |PostOrders(t, v, k + 1)|
  {
    ChildDepth(t, v, k);
  }

  /** The pre-orders of children k.. of v end the pre-orders of all its children. */
  lemma {:induction false} PreOrdersSuffix(t: Tree, v: nat, k: nat)
    requires WellFormed(t) && v < Size(t) && k <= |t.children[v]|
    ensures |PreOrders(t, v, k)| <= |PreOrders(t, v, 0)|
    ensures Occurs(PreOrders(t, v, k), PreOrders(t, v, 0), |PreOrders(t, v, 0)| - |PreOrders(t, v, k)|)
    decreases k
  {
    if k == 0 {
      OccursSelf(PreOrders(t, v, 0));
    } else {
      PreOrdersSuffix(t, v, k - 1);
      ChildDepth(t, v, k - 1);
      var a, k1, rest := PreOrder(t, t.children[v][k - 1]), PreOrders(t, v, k - 1), PreOrders(t, v, k);
      assert k1 == a + rest;
      SuffixStep(a, k1, rest, PreOrders(t, v, 0));
    }
  }

  /** The post-orders of children k.. of v end the post-orders of all its children. */
  lemma {:induction false} PostOrdersSuffix(t: Tree, v: nat, k: nat)
    requires WellFormed(t) && v < Size(t) && k <= |t.children[v]|
    ensures |PostOrders(t, v, k)| <= |PostOrders(t, v, 0)|
    ensures Occurs(PostOrders(t, v, k), PostOrders(t, v, 0), |PostOrders(t, v, 0)| - |PostOrders(t, v, k)|)
    decreases k
  {
    if k == 0 {
      OccursSelf(PostOrders(t, v, 0));
    } else {
      PostOrdersSuffix(t, v, k - 1);
      ChildDepth(t, v, k - 1);
      var a, k1, rest := PostOrder(t, t.children[v][k - 1]), PostOrders(t, v, k - 1), PostOrders(t, v, k);
      assert k1 == a + rest;
      SuffixStep(a, k1, rest, PostOrders(t, v, 0));
    }
  }

  /** Fewer children, shorter concatenated orders. */
  lemma {:induction false} OrdersShrink(t: Tree, v: nat, k: nat, k': nat)
    requires WellFormed(t) && v < Size(t) && k <= k' <= |t.children[v]|
    ensures |PreOrders(t, v, k')| <= |PreOrders(t, v, k)|
    ensures |PostOrders(t, v, k')| <= |PostOrders(t, v, k)|
    decreases k' - k
  {
    if k < k' {
      ChildDepth(t, v, k);
      OrdersShrink(t, v, k + 1, k');
    }
  }

  /** Child k's pre-order sits inside v's after v and the pre-orders of the earlier children. */
  lemma PreChild(t: Tree, v: nat, k: nat)
    requires WellFormed(t) && v < Size(t) && k < |t.children[v]|
    ensures t.children[v][k] < Size(t)
    ensures Occurs(PreOrder(t, t.children[v][k]), PreOrder(t, v), 1 + (|PreOrders(t, v, 0)| - |PreOrders(t, v, k)|))
  {
    ChildDepth(t, v, k);
    PreOrdersSuffix(t, v, k);
    PreChildStep(PreOrder(t, t.children[v][k]), PreOrders(t, v, k + 1), PreOrders(t, v, k),
                 PreOrders(t, v, 0), PreOrder(t, v), v);
  }

  /** Child k's post-order sits inside v's after the post-orders of the earlier children. */
  lemma PostChild(t: Tree, v: nat, k: nat)
    requires WellFormed(t) && v < Size(t) && k < |t.children[v]|
    ensures t.children[v][k] < Size(t)
    ensures Occurs(PostOrder(t, t.children[v][k]), PostOrder(t, v), |PostOrders(t, v, 0)| - |PostOrders(t, v, k)|)
  {
    ChildDepth(t, v, k);
    PostOrdersSuffix(t, v, k);
    PostChildStep(PostOrder(t, t.children[v][k]), PostOrders(t, v, k + 1), PostOrders(t, v, k),
                  PostOrders(t, v, 0), PostOrder(t, v), v);
  }

  /** If v's pre-order run starts at v's position, so does child k's. */
  lemma PreBlockStep(t: Tree, pos: seq<int>, v: nat, k: nat)
    requires WellFormed(t) && v < Size(t) && k < |t.children[v]| && Positions(PreOrder(t, t.root), pos, Size(t))
    requires Occurs(PreOrder(t, v), PreOrder(t, t.root), pos[v])
    ensures t.children[v][k] < Size(t)
    ensures Occurs(PreOrder(t, t.children[v][k]), PreOrder(t, t.root), pos[t.children[v][k]])
    ensures pos[t.children[v][k]] == pos[v] + 1 + (|PreOrders(t, v, 0)| - |PreOrders(t, v, k)|)
  {
    var c := t.children[v][k];
    PreChild(t, v, k);
    PreOrderHead(t, c);
    HeadPosition(PreOrder(t, c), PreOrder(t, v), PreOrder(t, t.root), pos, Size(t),
                 1 + (|PreOrders(t, v, 0)| - |PreOrders(t, v, k)|), pos[v], c);
  }

  /** If v's post-order run starts at st, child k's run starts at sc and ends at the child's position. */
  lemma PostBlockStep(t: Tree, pos: seq<int>, v: nat, k: nat, st: int) returns (sc: int)
    requires WellFormed(t) && v < Size(t) && k < |t.children[v]| && Positions(PostOrder(t, t.root), pos, Size(t))
    requires Occurs(PostOrder(t, v), PostOrder(t, t.root), st)
    ensures t.children[v][k] < Size(t)
    ensures Occurs(PostOrder(t, t.children[v][k]), PostOrder(t, t.root), sc)
    ensures pos[t.children[v][k]] == sc + |PostOrder(t, t.children[v][k])| - 1
    ensures sc == st + (|PostOrders(t, v, 0)| - |PostOrders(t, v, k)|)
  {
    var c := t.children[v][k];
    PostChild(t, v, k);
    var o1 := |PostOrders(t, v, 0)| - |PostOrders(t, v, k)|;
    sc := st + o1;
    LastPosition(PostOrder(t, c), PostOrders(t, c, 0), PostOrder(t, v), PostOrder(t, t.root), pos, Size(t), o1, st, c);
  }

  /** The pre-order of v's subtree is the run of the whole pre-order that starts at v's position. */
  lemma {:induction false} PreBlock(t: Tree, pos: seq<int>, v: nat)
    requires WellFormed(t) && v < Size(t) && Positions(PreOrder(t, t.root), pos, Size(t))
    ensures Occurs(PreOrder(t, v), PreOrder(t, t.root), pos[v])
    decreases Depth(t)[v]
  {
    if v == t.root {
      var all := PreOrder(t, t.root);
      PreOrderIsPermutation(t);
      PositionOf(all, pos, Size(t), 0, v);
      OccursLeft(all, []);
      assert all + [] == all;
    } else {
      var u := t.parent[v] as nat;
      assert v in t.children[u];
      var k :| 0 <= k < |t.children[u]| && t.children[u][k] == v;
      ChildDepth(t, u, k);
      PreBlock(t, pos, u);
      PreBlockStep(t, pos, u, k);
    }
  }

  /** The post-order of v's subtree is the run of the whole post-order that ends at v's position. */
  lemma {:induction false} PostBlock(t: Tree, pos: seq<int>, v: nat)
    requires WellFormed(t) && v < Size(t) && Positions(PostOrder(t, t.root), pos, Size(t))
    ensures Occurs(PostOrder(t, v), PostOrder(t, t.root), pos[v] + 1 - |PostOrder(t, v)|)
    decreases Depth(t)[v]
  {
    if v == t.root {
      var all := PostOrder(t, t.root);
      PostOrderIsPermutation(t);
      PositionOf(all, pos, Size(t), Size(t) - 1, v);
      OccursLeft(all, []);
      assert all + [] == all;
    } else {
      var u := t.parent[v] as nat;
      assert v in t.children[u];
      var k :| 0 <= k < |t.children[u]| && t.children[u][k] == v;
      ChildDepth(t, u, k);
      PostBlock(t, pos, u);
      var sc := PostBlockStep(t, pos, u, k, pos[u] + 1 - |PostOrder(t, u)|);
    }
  }

  /** x is an ancestor of y exactly when y's pre-order position lies in x's run. */
  lemma PreRange(t: Tree, pos: seq<int>, x: nat, y: nat)
    requires WellFormed(t) && x < Size(t) && y < Size(t) && Positions(PreOrder(t, t.root), pos, Size(t))
    ensures IsAncestor(t, x, y) <==> pos[x] <= pos[y] < pos[x] + |PreOrder(t, x)|
  {
    PreBlock(t, pos, x);
    PreOrderMembers(t, x);
    RunMember(PreOrder(t, x), PreOrder(t, t.root), pos, Size(t), pos[x], y);
  }

  /** x is an ancestor of y exactly when y's post-order position lies in x's run. */
  lemma PostRange(t: Tree, pos: seq<int>, x: nat, y: nat)
    requires WellFormed(t) && x < Size(t) && y < Size(t) && Positions(PostOrder(t, t.root), pos, Size(t))
    ensures IsAncestor(t, x, y) <==> pos[x] + 1 - |PostOrder(t, x)| <= pos[y] <= pos[x]
  {
    PostBlock(t, pos, x);
    PostOrderMembers(t, x);
    RunMember(PostOrder(t, x), PostOrder(t, t.root), pos, Size(t), pos[x] + 1 - |PostOrder(t, x)|, y);
  }

  /** Child k's pre-order position: after v and the runs of the earlier children. */
  lemma PreChildPosition(t: Tree, pos: seq<int>, v: nat, k: nat)
    requires WellFormed(t) && v < Size(t) && k < |t.children[v]| && Positions(PreOrder(t, t.root), pos, Size(t))
    ensures t.children[v][k] < Size(t)
    ensures pos[t.children[v][k]] == pos[v] + 1 + (|PreOrders(t, v, 0)| - |PreOrders(t, v, k)|)
  {
    PreBlock(t, pos, v);
    PreBlockStep(t, pos, v, k);
  }

  /** Child k's post-order position: after the runs of children 0..k, before those of the later ones. */
  lemma PostChildPosition(t: Tree, pos: seq<int>, v: nat, k: nat)
    requires WellFormed(t) && v < Size(t) && k < |t.children[v]| && Positions(PostOrder(t, t.root), pos, Size(t))
    ensures t.children[v][k] < Size(t)
    ensures pos[t.children[v][k]] + 1 + |PostOrders(t, v, k + 1)| == pos[v]
  {
    PostBlock(t, pos, v);
    var sc := PostBlockStep(t, pos, v, k, pos[v] + 1 - |PostOrder(t, v)|);
    PostOrderLast(t, v);
    PostOrdersCons(t, v, k);
  }

  /** An earlier child's pre-order run ends before a later child's begins. */
  lemma PreSiblings(t: Tree, pos: seq<int>, v: nat, a: nat, b: nat)
    requires WellFormed(t) && v < Size(t) && a < b < |t.children[v]| && Positions(PreOrder(t, t.root), pos, Size(t))
    ensures t.children[v][a] < Size(t) && t.children[v][b] < Size(t)
    ensures pos[t.children[v][a]] + |PreOrder(t, t.children[v][a])| <= pos[t.children[v][b]]
  {
    ChildDepth(t, v, a);
    PreChildPosition(t, pos, v, a);
    PreChildPosition(t, pos, v, b);
    OrdersShrink(t, v, a + 1, b);
    assert PreOrders(t, v, a) == PreOrder(t, t.children[v][a]) + PreOrders(t, v, a + 1);
  }

  /** An earlier child's post-order position comes before a later child's whole run. */
  lemma PostSiblings(t: Tree, pos: seq<int>, v: nat, a: nat, b: nat)
    requires WellFormed(t) && v < Size(t) && a < b < |t.children[v]| && Positions(PostOrder(t, t.root), pos, Size(t))
    ensures t.children[v][a] < Size(t) && t.children[v][b] < Size(t)
    ensures pos[t.children[v][a]] < pos[t.children[v][b]] + 1 - |PostOrder(t, t.children[v][b])|
  {
    ChildDepth(t, v, b);
    PostChildPosition(t, pos, v, a);
    PostChildPosition(t, pos, v, b);
    OrdersShrink(t, v, a + 1, b);
    assert PostOrders(t, v, b) == PostOrder(t, t.children[v][b]) + PostOrders(t, v, b + 1);
  }

  /**
   * The descent step of NextNodeOnPath::query: for a proper descendant j of i,
   * the child c of i toward j has a post-order position in [post[j], post[i]-1],
   * and every node whose post-order position lies there has a pre-order
   * position no smaller than c's.
   */
  lemma DescentRange(t: Tree, pre: seq<int>, post: seq<int>, i: nat, j: nat)
    requires WellFormed(t) && i < Size(t) && j < Size(t) && i != j && IsAncestor(t, i, j)
    requires Positions(PreOrder(t, t.root), pre, Size(t)) && Positions(PostOrder(t, t.root), post, Size(t))
    ensures post[j] <= post[ChildToward(t, i, j)] < post[i]
    ensures forall y | 0 <= y < Size(t) && post[j] <= post[y] < post[i] :: pre[ChildToward(t, i, j)] <= pre[y]
  {
    var c := ChildToward(t, i, j);
    DescentChild(t, post, i, j);
    forall y | 0 <= y < Size(t) && post[j] <= post[y] < post[i] ensures pre[c] <= pre[y] {
      DescentOne(t, pre, post, i, j, y);
    }
  }

  /** The child toward j sits between j and i in post-order. */
  lemma DescentChild(t: Tree, post: seq<int>, i: nat, j: nat)
    requires WellFormed(t) && i < Size(t) && j < Size(t) && i != j && IsAncestor(t, i, j)
    requires Positions(PostOrder(t, t.root), post, Size(t))
    ensures post[j] <= post[ChildToward(t, i, j)] < post[i]
  {
    var c := ChildToward(t, i, j);
    var k :| 0 <= k < |t.children[i]| && t.children[i][k] == c;
    PostChildPosition(t, post, i, k);
    PostRange(t, post, c, j);
  }

  /** A node y between j and i in post-order is not before the child toward j in pre-order. */
  lemma DescentOne(t: Tree, pre: seq<int>, post: seq<int>, i: nat, j: nat, y: nat)
    requires WellFormed(t) && i < Size(t) && j < Size(t) && y < Size(t) && i != j && IsAncestor(t, i, j)
    requires Positions(PreOrder(t, t.root), pre, Size(t)) && Positions(PostOrder(t, t.root), post, Size(t))
    requires post[j] <= post[y] < post[i]
    ensures pre[ChildToward(t, i, j)] <= pre[y]
  {
    var c := ChildToward(t, i, j);
    var m :| 0 <= m < |t.children[i]| && t.children[i][m] == c;
    PostRange(t, post, i, j);
    PostRange(t, post, i, y);
    assert y != i;
    var c' := ChildToward(t, i, y);
    var b :| 0 <= b < |t.children[i]| && t.children[i][b] == c';
    PreRange(t, pre, c', y);
    if b == m {
      assert c' == c;
    } else if m < b {
      PreSiblings(t, pre, i, m, b);
    } else {
      PostSiblings(t, post, i, b, m);
      PostRange(t, post, c', y);
      PostRange(t, post, c, j);
      assert false;
    }
  }
}

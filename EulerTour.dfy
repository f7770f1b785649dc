/**
 * The depth-first walk that records the Euler tour of a tree, the depth of
 * every node and the first tour position of every node (LCA::dfs and
 * LCA::eulerTour).
 */
module EulerTour {
  import opened Trees
  import opened TreeOrders

  /** i is the first position of x in s. */
  ghost predicate FirstAt(s: seq<nat>, x: nat, i: int) {
    0 <= i < |s| && s[i] == x && x !in s[..i]
  }

  lemma FirstAtExtend(s: seq<nat>, e: seq<nat>, x: nat, i: int)
    requires FirstAt(s, x, i)
    ensures FirstAt(s + e, x, i)
  {
    assert (s + e)[..i] == s[..i];
  }

  /** Consecutive entries differ by exactly one, up or down. */
  ghost predicate PlusMinusOne(s: seq<int>) {
    forall k, k1 | 0 <= k && k1 == k + 1 && k1 < |s| :: s[k1] == s[k] + 1 || s[k] == s[k1] + 1
  }

  /** No entry of s lies in the subtree of v. */
  ghost predicate OutsideSubtree(t: Tree, v: nat, s: seq<nat>)
    requires WellFormed(t)
  {
    forall i | 0 <= i < |s| :: s[i] < Size(t) && !IsAncestor(t, v, s[i])
  }

  /** x is v or lies below one of the first k children of v. */
  ghost predicate Visited(t: Tree, v: nat, k: nat, x: nat)
    requires WellFormed(t) && v < Size(t) && k <= |t.children[v]| && x < Size(t)
  {
    IsAncestor(t, v, x) && (x == v || ChildToward(t, v, x) in t.children[v][..k])
  }

  /** Nothing visited before child k, and nothing outside v's subtree, lies below child k. */
  lemma ChildSubtreeFresh(t: Tree, v: nat, k: nat, y: nat)
    requires WellFormed(t) && v < Size(t) && k < |t.children[v]| && y < Size(t)
    requires !IsAncestor(t, v, y) || Visited(t, v, k, y)
    ensures !IsAncestor(t, t.children[v][k], y)
  {
    var c := t.children[v][k];
    ChildDepth(t, v, k);
    if IsAncestor(t, c, y) {
      assert IsAncestor(t, v, c);
      AncestorTransitive(t, v, c, y);
      ChildTowardOfChild(t, v, c, y);
      assert false;
    }
  }

  /** Visiting child k adds exactly its subtree. */
  lemma VisitedStep(t: Tree, v: nat, k: nat, x: nat)
    requires WellFormed(t) && v < Size(t) && k < |t.children[v]| && x < Size(t)
    ensures Visited(t, v, k + 1, x) <==> Visited(t, v, k, x) || IsAncestor(t, t.children[v][k], x)
  {
    var c := t.children[v][k];
    assert t.children[v][..k + 1] == t.children[v][..k] + [c];
    if IsAncestor(t, c, x) {
      assert c in t.children[v];
      ChildTowardOfChild(t, v, c, x);
    }
  }

  /** After all children every node of the subtree is visited. */
  lemma VisitedAll(t: Tree, v: nat, x: nat)
    requires WellFormed(t) && v < Size(t) && x < Size(t)
    ensures Visited(t, v, |t.children[v]|, x) <==> IsAncestor(t, v, x)
  {
    assert t.children[v][..|t.children[v]|] == t.children[v];
  }

  /** The walk of v's subtree appended its tour to et and recorded exactly the nodes of that subtree. */
  ghost predicate SubtreeRecorded(t: Tree, v: nat, et: seq<nat>, et': seq<nat>,
                                  fo: seq<int>, depth: seq<int>, fo0: seq<int>, depth0: seq<int>)
    requires WellFormed(t) && v < Size(t)
  {
    && |fo| == Size(t) && |depth| == Size(t) && |fo0| == Size(t) && |depth0| == Size(t)
    && et' == et + Tour(t, v)
    && (forall x | 0 <= x < Size(t) && IsAncestor(t, v, x) ::
          FirstAt(et', x, fo[x]) && |et| <= fo[x] && depth[x] == Depth(t)[x])
    && (forall x | 0 <= x < Size(t) && !IsAncestor(t, v, x) :: fo[x] == fo0[x] && depth[x] == depth0[x])
  }

  /** The state of the walk of v after its first k children. */
  ghost predicate Recorded(t: Tree, v: nat, k: nat, et: seq<nat>, cur: seq<nat>,
                           fo: seq<int>, depth: seq<int>, fo0: seq<int>, depth0: seq<int>)
    requires WellFormed(t) && v < Size(t) && k <= |t.children[v]|
  {
    && |fo| == Size(t) && |depth| == Size(t) && |fo0| == Size(t) && |depth0| == Size(t)
    && cur + Tours(t, v, k) == et + Tour(t, v)
    && |et| < |cur| && cur[..|et|] == et
    && (forall i | |et| <= i < |cur| :: cur[i] < Size(t) && Visited(t, v, k, cur[i]))
    && (forall x | 0 <= x < Size(t) && Visited(t, v, k, x) ::
          FirstAt(cur, x, fo[x]) && |et| <= fo[x] && depth[x] == Depth(t)[x])
    && (forall x | 0 <= x < Size(t) && !Visited(t, v, k, x) :: fo[x] == fo0[x] && depth[x] == depth0[x])
  }

  lemma RecordedStart(t: Tree, v: nat, et: seq<nat>, fo: seq<int>, depth: seq<int>, fo0: seq<int>, depth0: seq<int>)
    requires WellFormed(t) && v < Size(t) && OutsideSubtree(t, v, et)
    requires |fo0| == Size(t) && |depth0| == Size(t)
    requires fo == fo0[v := |et|] && depth == depth0[v := Depth(t)[v]]
    ensures Recorded(t, v, 0, et, et + [v], fo, depth, fo0, depth0)
  {
    var cur := et + [v];
    assert cur[..|et|] == et;
    assert cur[..|et|] == et[..|et|];
    forall x | 0 <= x < Size(t) ensures Visited(t, v, 0, x) <==> x == v {
    }
  }

  /** Before child k is walked, nothing recorded so far lies below it. */
  lemma RecordedOutside(t: Tree, v: nat, k: nat, et: seq<nat>, cur: seq<nat>,
                        fo: seq<int>, depth: seq<int>, fo0: seq<int>, depth0: seq<int>)
    requires WellFormed(t) && v < Size(t) && k < |t.children[v]| && OutsideSubtree(t, v, et)
    requires Recorded(t, v, k, et, cur, fo, depth, fo0, depth0)
    ensures OutsideSubtree(t, t.children[v][k], cur)
  {
    forall i | 0 <= i < |cur| ensures cur[i] < Size(t) && !IsAncestor(t, t.children[v][k], cur[i]) {
      if i < |et| {
        assert cur[i] == et[i];
      }
      ChildSubtreeFresh(t, v, k, cur[i]);
    }
  }

  /** Walking child k and re-entering v extends the record to the first k+1 children. */
  lemma RecordedStep(t: Tree, v: nat, k: nat, et: seq<nat>, cur: seq<nat>, mid: seq<nat>,
                     fo1: seq<int>, depth1: seq<int>, fo2: seq<int>, depth2: seq<int>,
                     fo0: seq<int>, depth0: seq<int>)
    requires WellFormed(t) && v < Size(t) && k < |t.children[v]|
    requires Recorded(t, v, k, et, cur, fo1, depth1, fo0, depth0)
    requires SubtreeRecorded(t, t.children[v][k], cur, mid, fo2, depth2, fo1, depth1)
    ensures Recorded(t, v, k + 1, et, mid + [v], fo2, depth2, fo0, depth0)
  {
    ChildDepth(t, v, k);
    StepEntries(t, v, k, et, cur, mid);
    StepFirst(t, v, k, et, cur, mid, fo1, depth1, fo2, depth2);
    forall x | 0 <= x < Size(t) && !Visited(t, v, k + 1, x)
      ensures fo2[x] == fo0[x] && depth2[x] == depth0[x]
    {
      VisitedStep(t, v, k, x);
    }
  }

  /** The tour part of RecordedStep: the new entries are v and nodes below child k. */
  lemma StepEntries(t: Tree, v: nat, k: nat, et: seq<nat>, cur: seq<nat>, mid: seq<nat>)
    requires WellFormed(t) && v < Size(t) && k < |t.children[v]|
    requires cur + Tours(t, v, k) == et + Tour(t, v)
    requires |et| < |cur| && cur[..|et|] == et
    requires forall i | |et| <= i < |cur| :: cur[i] < Size(t) && Visited(t, v, k, cur[i])
    requires mid == cur + Tour(t, t.children[v][k])
    ensures mid + [v] + Tours(t, v, k + 1) == et + Tour(t, v)
    ensures |et| < |mid + [v]| && (mid + [v])[..|et|] == et
    ensures forall i | |et| <= i < |mid + [v]| :: (mid + [v])[i] < Size(t) && Visited(t, v, k + 1, (mid + [v])[i])
  {
    var c := t.children[v][k];
    ChildDepth(t, v, k);
    var next := mid + [v];
    ToursSplitSeq(t, v, k);
    assert next + Tours(t, v, k + 1) == cur + Tours(t, v, k);
    assert next[..|et|] == cur[..|et|];
    TourMembers(t, c);
    forall i | |et| <= i < |next| ensures next[i] < Size(t) && Visited(t, v, k + 1, next[i]) {
      VisitedStep(t, v, k, next[i]);
      if i >= |cur| && i < |next| - 1 {
        assert next[i] == Tour(t, c)[i - |cur|];
        assert next[i] in Tour(t, c);
      } else if i < |cur| {
        assert next[i] == cur[i];
      }
    }
  }

  /** The first-position part of RecordedStep. */
  lemma StepFirst(t: Tree, v: nat, k: nat, et: seq<nat>, cur: seq<nat>, mid: seq<nat>,
                  fo1: seq<int>, depth1: seq<int>, fo2: seq<int>, depth2: seq<int>)
    requires WellFormed(t) && v < Size(t) && k < |t.children[v]| && |et| < |cur|
    requires |fo1| == Size(t) && |depth1| == Size(t)
    requires forall x | 0 <= x < Size(t) && Visited(t, v, k, x) ::
      FirstAt(cur, x, fo1[x]) && |et| <= fo1[x] && depth1[x] == Depth(t)[x]
    requires SubtreeRecorded(t, t.children[v][k], cur, mid, fo2, depth2, fo1, depth1)
    ensures forall x | 0 <= x < Size(t) && Visited(t, v, k + 1, x) ::
      FirstAt(mid + [v], x, fo2[x]) && |et| <= fo2[x] && depth2[x] == Depth(t)[x]
  {
    var c := t.children[v][k];
    forall x | 0 <= x < Size(t) && Visited(t, v, k + 1, x)
      ensures FirstAt(mid + [v], x, fo2[x]) && |et| <= fo2[x] && depth2[x] == Depth(t)[x]
    {
      VisitedStep(t, v, k, x);
      if IsAncestor(t, c, x) {
        FirstAtExtend(mid, [v], x, fo2[x]);
      } else {
        ChildSubtreeFresh(t, v, k, x);
        FirstAtExtend(cur, Tour(t, c) + [v], x, fo2[x]);
        assert cur + (Tour(t, c) + [v]) == mid + [v];
      }
    }
  }

  lemma RecordedEnd(t: Tree, v: nat, et: seq<nat>, cur: seq<nat>,
                    fo: seq<int>, depth: seq<int>, fo0: seq<int>, depth0: seq<int>)
    requires WellFormed(t) && v < Size(t)
    requires Recorded(t, v, |t.children[v]|, et, cur, fo, depth, fo0, depth0)
    ensures SubtreeRecorded(t, v, et, cur, fo, depth, fo0, depth0)
  {
    assert Tours(t, v, |t.children[v]|) == [];
    assert cur == cur + Tours(t, v, |t.children[v]|);
    forall x | 0 <= x < Size(t) ensures Visited(t, v, |t.children[v]|, x) <==> IsAncestor(t, v, x) {
      VisitedAll(t, v, x);
    }
  }

  /**
   * Appends the tour of v's subtree to et, records the first position and the
   * depth of every node of the subtree, and leaves every other node as it was.
   */
  method Dfs(t: Tree, v: nat, d: nat, fo: array<int>, depth: array<int>, et: seq<nat>) returns (et': seq<nat>)
    requires WellFormed(t) && v < Size(t) && d == Depth(t)[v]
    requires fo.Length == Size(t) && depth.Length == Size(t) && fo != depth
    requires OutsideSubtree(t, v, et)
    modifies fo, depth
    ensures SubtreeRecorded(t, v, et, et', fo[..], depth[..], old(fo[..]), old(depth[..]))
    decreases Size(t) - d
  {
    fo[v] := |et|;
    et' := et + [v];
    depth[v] := d;
    RecordedStart(t, v, et, fo[..], depth[..], old(fo[..]), old(depth[..]));
    var k := 0;
    while k < |t.children[v]|
      invariant 0 <= k <= |t.children[v]|
      invariant Recorded(t, v, k, et, et', fo[..], depth[..], old(fo[..]), old(depth[..]))
    {
      var c := t.children[v][k];
      ChildDepth(t, v, k);
      RecordedOutside(t, v, k, et, et', fo[..], depth[..], old(fo[..]), old(depth[..]));
      ghost var cur, fo1, depth1 := et', fo[..], depth[..];
      et' := Dfs(t, c, d + 1, fo, depth, et');
      RecordedStep(t, v, k, et, cur, et', fo1, depth1, fo[..], depth[..], old(fo[..]), old(depth[..]));
      et' := et' + [v];
      k := k + 1;
    }
    RecordedEnd(t, v, et, et', fo[..], depth[..], old(fo[..]), old(depth[..]));
  }

  lemma ToursSplitSeq(t: Tree, v: nat, k: nat)
    requires WellFormed(t) && v < Size(t) && k < |t.children[v]|
    ensures Tours(t, v, k) == Tour(t, t.children[v][k]) + [v] + Tours(t, v, k + 1)
  {
    ChildDepth(t, v, k);
  }

  /**
   * The Euler tour of the whole tree with the depth of every tour entry and
   * the first tour position of every node.
   */
  method EulerTour(t: Tree) returns (et: seq<nat>, depthEt: seq<int>, fo: seq<int>, depth: seq<int>)
    requires WellFormed(t)
    ensures et == Tour(t, t.root) && |et| == 2 * Size(t) - 1
    ensures |fo| == Size(t) && forall x | 0 <= x < Size(t) :: FirstAt(et, x, fo[x])
    ensures |depth| == Size(t) && forall x | 0 <= x < Size(t) :: depth[x] == Depth(t)[x]
    ensures |depthEt| == |et| && forall k | 0 <= k < |et| :: depthEt[k] == Depth(t)[et[k]]
    ensures PlusMinusOne(depthEt)
  {
    var dep := new int[Size(t)](_ => 0);
    var first := new int[Size(t)](_ => -1);
    ghost var fo0, depth0 := first[..], dep[..];
    et := Dfs(t, t.root, 0, first, dep, []);
    fo, depth := first[..], dep[..];
    TreeRecorded(t, et, fo, depth, fo0, depth0);
    depthEt := DepthsAlong(et, depth);
    TourDepthsPlusMinusOne(t, depth, depthEt);
  }

  /** The depth of every tour entry. */
  method DepthsAlong(et: seq<nat>, depth: seq<int>) returns (depthEt: seq<int>)
    requires forall k | 0 <= k < |et| :: et[k] < |depth|
    ensures |depthEt| == |et| && forall k | 0 <= k < |et| :: depthEt[k] == depth[et[k]]
  {
    var de := new int[|et|];
    for i := 0 to |et|
      invariant forall k | 0 <= k < i :: de[k] == depth[et[k]]
    {
      de[i] := depth[et[i]];
    }
    depthEt := de[..];
  }

  /** Walking from the root records every node. */
  lemma TreeRecorded(t: Tree, et: seq<nat>, fo: seq<int>, depth: seq<int>, fo0: seq<int>, depth0: seq<int>)
    requires WellFormed(t) && SubtreeRecorded(t, t.root, [], et, fo, depth, fo0, depth0)
    ensures et == Tour(t, t.root) && |et| == 2 * Size(t) - 1
    ensures forall x | 0 <= x < Size(t) :: FirstAt(et, x, fo[x]) && depth[x] == Depth(t)[x]
  {
    TourLength(t);
    forall x | 0 <= x < Size(t) ensures IsAncestor(t, t.root, x) {
      RootIsAncestor(t, x);
    }
  }

  /** The depths along the Euler tour change by one per step. */
  lemma TourDepthsPlusMinusOne(t: Tree, depth: seq<int>, ds: seq<int>)
    requires WellFormed(t) && |depth| == Size(t) && |ds| == |Tour(t, t.root)|
    requires forall x | 0 <= x < Size(t) :: depth[x] == Depth(t)[x]
    requires forall k | 0 <= k < |ds| :: ds[k] == depth[Tour(t, t.root)[k]]
    ensures PlusMinusOne(ds)
  {
    TourSteps(t, t.root);
    DepthsPlusMinusOne(t, Tour(t, t.root), depth, ds);
  }

  /** Depths along a walk that moves one level per step change by one per step. */
  lemma DepthsPlusMinusOne(t: Tree, s: seq<nat>, depth: seq<int>, ds: seq<int>)
    requires WellFormed(t) && UnitSteps(t, s) && |ds| == |s| && |depth| == Size(t)
    requires forall x | 0 <= x < Size(t) :: depth[x] == Depth(t)[x]
    requires forall k | 0 <= k < |s| :: s[k] < Size(t) && ds[k] == depth[s[k]]
    ensures PlusMinusOne(ds)
  {
    forall k, k1 | 0 <= k && k1 == k + 1 && k1 < |ds| ensures ds[k1] == ds[k] + 1 || ds[k] == ds[k1] + 1 {
      assert UnitStep(t, s[k], s[k1]);
    }
  }
}

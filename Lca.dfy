/**
 * The lowest-common-ancestor index of Bender and Farach-Colton: built once
 * from a tree (LCA::LCA and LCA::preprocessForLCA), then answering each
 * query from the Euler tour, the per-block minima, the sparse table over
 * whole blocks and the in-block tables (LCA::lca, LCA::singleBlockRMQ).
 */
module Lca {
  import opened Errors
  import opened Trees
  import opened TreeOrders
  import opened Log2
  import opened Blocks
  import opened SparseTable
  import opened BlockTables
  import opened EulerTour

  /** The two positions p <= q of a query lie in different blocks. */
  lemma ApartBlocks(p: nat, q: nat, bs: nat, n: nat)
    requires bs >= 1 && p <= q < n && p / bs != q / bs
    ensures p / bs < q / bs && q / bs <= n / bs
    ensures BlockEnd(p, bs, n) == (p / bs) * bs + bs - 1 < q - q % bs <= q
    ensures q - q % bs == (q / bs) * bs
  {
    var pb, qb := p / bs, q / bs;
    BlockSplit(p, bs);
    BlockSplit(q, bs);
    Distribute(qb, bs);
    MulCancel(pb, qb + 1, bs);
    MulLe(pb + 1, qb, bs);
    Distribute(pb, bs);
    DivAtLeast(n, bs, qb);
  }

  /** x splits into its block's start and its offset in the block. */
  lemma BlockSplit(x: nat, bs: nat)
    requires bs >= 1
    ensures x == (x / bs) * bs + x % bs && 0 <= x % bs < bs && x - x % bs == (x / bs) * bs
  {
  }

  /** A smaller multiple of the same positive factor has the smaller multiplier. */
  lemma MulCancel(a: nat, b: nat, c: nat)
    requires c >= 1 && a * c < b * c
    ensures a < b
  {
  }

  /** The block after block b starts bs later. */
  lemma Distribute(b: nat, bs: nat)
    ensures (b + 1) * bs == b * bs + bs
  {
  }

  /** Query positions in neighbouring blocks: the suffix minimum of p's block and the prefix minimum of q's block. */
  lemma AdjacentBlocks(d: seq<int>, bs: nat, a: nat, b: nat, p: nat, q: nat)
    requires bs >= 1 && p <= q < |d| && q / bs == p / bs + 1
    requires IsMinPos(d, a, p, BlockEnd(p, bs, |d|)) && IsMinPos(d, b, q - q % bs, q)
    ensures IsMinPos(d, MinByDepth(d, a, b), p, q)
  {
    ApartBlocks(p, q, bs, |d|);
    assert (p / bs) * bs + bs == (p / bs + 1) * bs;
    MinOfCover(d, a, b, p, BlockEnd(p, bs, |d|), q - q % bs, q);
  }

  /** Query positions with whole blocks between them: the middle comes from the sparse table. */
  lemma BlocksBetween(d: seq<int>, bs: nat, a: nat, b: nat, c: nat, p: nat, q: nat)
    requires bs >= 1 && p <= q < |d| && q / bs > p / bs + 1
    requires IsMinPos(d, a, p, BlockEnd(p, bs, |d|)) && IsMinPos(d, b, q - q % bs, q)
    requires Window(d, bs, c, p / bs + 1, q / bs - 1)
    ensures IsMinPos(d, MinByDepth(d, MinByDepth(d, a, b), c), p, q)
  {
    ApartBlocks(p, q, bs, |d|);
    var pb, qb := p / bs, q / bs;
    assert (pb + 1) * bs == pb * bs + bs;
    assert (qb - 1) * bs + bs == qb * bs;
    MinOfThree(d, a, c, b, p, BlockEnd(p, bs, |d|), q - q % bs, q);
  }

  /** Minima over three consecutive ranges give the minimum over their union. */
  lemma MinOfThree(d: seq<int>, a: nat, c: nat, b: nat, p: nat, e: nat, s: nat, q: nat)
    requires IsMinPos(d, a, p, e) && IsMinPos(d, c, e + 1, s - 1) && IsMinPos(d, b, s, q)
    ensures IsMinPos(d, MinByDepth(d, MinByDepth(d, a, b), c), p, q)
  {
    var r := MinByDepth(d, MinByDepth(d, a, b), c);
    forall x | p <= x <= q ensures d[r] <= d[x] {
      if x <= e {
        assert d[a] <= d[x];
      } else if x < s {
        assert d[c] <= d[x];
      } else {
        assert d[b] <= d[x];
      }
    }
  }

  /** The whole blocks k..l strictly between the blocks of p and q. */
  lemma BlocksBetweenBound(p: nat, q: nat, bs: nat, n: nat)
    requires bs >= 1 && p <= q < n && q / bs > p / bs + 1
    ensures 1 <= p / bs + 1 <= q / bs - 1 < n / bs
  {
    ApartBlocks(p, q, bs, n);
  }

  /** The two positions p <= q of a query lie in one block b, at offsets i and j. */
  function SameBlock(p: nat, q: nat, bs: nat, n: nat): (r: (nat, nat, nat))
    requires bs >= 1 && p <= q < n && p / bs == q / bs
    ensures r.0 <= n / bs && r.1 <= r.2 < bs
    ensures r.0 * bs + r.1 == p && r.0 * bs + r.2 == q
  {
    var b := p / bs;
    assert p == b * bs + p % bs && q == b * bs + q % bs;
    DivAtLeast(n, bs, b);
    (b, p % bs, q % bs)
  }

  /** The tables LCA::preprocessForLCA builds over the depth sequence of the tour. */
  datatype BlockIndex = BlockIndex(
    blockSize: nat,
    prefixMin: seq<nat>,   // prefixMinIndex
    suffixMin: seq<nat>,   // suffixMinIndex
    blockMin: seq<nat>,    // blockMinIndex
    windows: seq<seq<nat>>, // pow2Windows: level e-1 covers runs of 2^e whole blocks
    blockKey: seq<nat>,    // blockBinaryString
    minTable: seq<seq<seq<nat>>>) // MIN

  /** What each table holds for the depth sequence d. */
  ghost predicate IndexFor(d: seq<int>, x: BlockIndex) {
    var bs := x.blockSize;
    && |d| >= 1 && bs >= 1
    && PrefixMinima(d, bs, x.prefixMin)
    && SuffixMinima(d, bs, x.suffixMin)
    && BlockMinima(d, bs, x.blockMin) && |x.blockMin| >= 1
    && TableOk(d, bs, |x.blockMin|, x.windows)
    && |x.blockKey| == |x.blockMin| + 1
    && (forall b | 0 <= b < |x.blockKey| :: x.blockKey[b] < |x.minTable| && TableFor(d, bs, b * bs, x.minTable[x.blockKey[b]]))
  }

  /** Builds the tables over a depth sequence of three or more entries that moves by one per step. */
  method Preprocess(d: seq<int>) returns (x: BlockIndex)
    requires |d| >= 3 && PlusMinusOne(d)
    ensures IndexFor(d, x) && x.blockSize == FloorLog2(|d|)
  {
    TwoBlocks(|d|);
    var bs := FloorLog2(|d|);
    var pre, suf, bm := PrefixSuffixMinima(d, bs);
    var w := BuildTable(d, bs, bm);
    var keys, maxKey := BlockKeys(d, bs);
    var tabs := MinTables(d, bs, keys, maxKey);
    x := BlockIndex(bs, pre, suf, bm, w, keys, tabs);
  }

  /** The tour position of a minimum depth between offsets i..j of block b (LCA::singleBlockRMQ). */
  function SingleBlockRmq(d: seq<int>, x: BlockIndex, b: nat, i: nat, j: nat): (m: nat)
    requires IndexFor(d, x) && b < |x.blockKey| && i <= j < x.blockSize && b * x.blockSize + j < |d|
    ensures IsMinPos(d, m, b * x.blockSize + i, b * x.blockSize + j)
  {
    var tbl := x.minTable[x.blockKey[b]];
    assert TableFor(d, x.blockSize, b * x.blockSize, tbl);
    b * x.blockSize + tbl[i][j]
  }

  /**
   * The position of a minimum depth between positions p <= q (the body of
   * LCA::lca): from the tables of one block when both lie in it, and
   * otherwise from the blocks of p and q and the whole blocks between them.
   */
  function RangeMinPos(d: seq<int>, x: BlockIndex, p: nat, q: nat): (m: nat)
    requires IndexFor(d, x) && p <= q < |d|
    ensures IsMinPos(d, m, p, q)
  {
    if p / x.blockSize != q / x.blockSize then AcrossBlocks(d, x, p, q) else WithinBlock(d, x, p, q)
  }

  /** For p and q in one block b: the in-block table of b at offsets p % bs and q % bs. */
  function WithinBlock(d: seq<int>, x: BlockIndex, p: nat, q: nat): (m: nat)
    requires IndexFor(d, x) && p <= q < |d| && p / x.blockSize == q / x.blockSize
    ensures IsMinPos(d, m, p, q)
  {
    var bs := x.blockSize;
    var (b, i, j) := SameBlock(p, q, bs, |d|);
    SingleBlockRmq(d, x, b, i, j)
  }

  /**
   * For p and q in different blocks: the shallower of the suffix minimum of
   * p's block and the prefix minimum of q's block, and then of the sparse-table
   * answer for the whole blocks between them when there are any.
   */
  function AcrossBlocks(d: seq<int>, x: BlockIndex, p: nat, q: nat): (m: nat)
    requires IndexFor(d, x) && p <= q < |d| && p / x.blockSize != q / x.blockSize
    ensures IsMinPos(d, m, p, q)
  {
    var bs := x.blockSize;
    ApartBlocks(p, q, bs, |d|);
    var a, b := x.suffixMin[p], x.prefixMin[q];
    assert IsMinPos(d, a, p, BlockEnd(p, bs, |d|)) && IsMinPos(d, b, q - q % bs, q);
    var r := MinByDepth(d, a, b);
    if q / bs > p / bs + 1 then
      BlocksBetweenBound(p, q, bs, |d|);
      var k: nat, l: nat := p / bs + 1, q / bs - 1;
      var c := BlockRangeRmq(d, bs, x.blockMin, x.windows, k, l);
      BlocksBetween(d, bs, a, b, c, p, q);
      MinByDepth(d, r, c)
    else
      AdjacentBlocks(d, bs, a, b, p, q);
      r
  }

  class LcaIndex {
    /** The tree the index was built for. */
    const tree: Tree
    /** The Euler tour, the depth of each tour entry, and each node's first tour position and depth. */
    const et: seq<nat>
    const depthEt: seq<int>
    const firstOccurrence: seq<int>
    const depth: seq<int>
    /** The block decomposition of depthEt. */
    const index: BlockIndex

    ghost predicate Valid() {
      && WellFormed(tree) && Size(tree) >= 2
      && et == Tour(tree, tree.root) && |et| == 2 * Size(tree) - 1
      && |firstOccurrence| == Size(tree) && (forall x | 0 <= x < Size(tree) :: FirstAt(et, x, firstOccurrence[x]))
      && |depth| == Size(tree) && (forall x | 0 <= x < Size(tree) :: depth[x] == Depth(tree)[x])
      && |depthEt| == |et| && (forall k | 0 <= k < |et| :: depthEt[k] == Depth(tree)[et[k]])
      && IndexFor(depthEt, index) && index.blockSize == FloorLog2(|depthEt|)
    }

    /** Builds every table of the index for a well-formed tree of two or more nodes. */
    constructor (t: Tree)
      requires WellFormed(t) && Size(t) >= 2
      ensures Valid() && tree == t
    {
      tree := t;
      var et', depthEt', fo', depth' := EulerTour.EulerTour(t);
      var x := Preprocess(depthEt');
      et, depthEt, firstOccurrence, depth, index := et', depthEt', fo', depth', x;
    }

    /**
     * The lowest common ancestor of nodes i and j, or OutOfRange when either
     * is not a node: the shallowest tour entry between their first visits.
     */
    function Lca(i: int, j: int): (r: Result<nat>)
      requires Valid()
      ensures r.Err? <==> !(0 <= i < Size(tree) && 0 <= j < Size(tree))
      ensures r.Err? ==> r.error == OutOfRange
      ensures r.Ok? ==> IsLca(tree, r.value, i, j)
    {
      if i < 0 || j < 0 || i >= |tree.values| || j >= |tree.values| then Err(OutOfRange) else
        var fi, fj := firstOccurrence[i], firstOccurrence[j];
        assert FirstAt(et, i, fi) && FirstAt(et, j, fj);
        var p, q := if fj < fi then fj else fi, if fj < fi then fi else fj;
        var m := RangeMinPos(depthEt, index, p, q);
        LcaOfMinimum(p, q, m);
        LcaSymmetric(tree, et[m], i, j);
        Ok(et[m])
    }

    /** A minimum-depth tour entry between two tour positions is the lowest common ancestor of their nodes. */
    lemma LcaOfMinimum(p: nat, q: nat, m: nat)
      requires Valid() && p <= q < |depthEt| && IsMinPos(depthEt, m, p, q)
      ensures et[p] < Size(tree) && et[q] < Size(tree) && IsLca(tree, et[m], et[p], et[q])
    {
      forall k | p <= k <= q ensures Depth(tree)[et[m]] <= Depth(tree)[et[k]] {
        assert depthEt[m] <= depthEt[k];
      }
      TourMembers(tree, tree.root);
      TourMinDepthIsLca(tree, tree.root, p, q, m);
    }

    /** The answer does not depend on the order of the two nodes. */
    lemma LcaIsSymmetric(i: int, j: int)
      requires Valid()
      ensures Lca(i, j) == Lca(j, i)
    {
      if Lca(i, j).Ok? {
        LcaUnique(tree, Lca(i, j).value, Lca(j, i).value, i, j);
      }
    }
  }
}

/**
 * The sparse table over the whole blocks of the depth sequence: level e-1
 * holds, for every run of 2^e consecutive whole blocks, a position of minimum
 * depth inside the run (the middle part of LCA::preprocessForLCA), and the
 * query that answers a run of any length from two overlapping table entries
 * (LCA::blockRangeRMQ).
 */
module SparseTable {
  import opened Log2
  import opened Blocks

  /** m is a position of minimum depth inside the whole blocks k..l. */
  ghost predicate Window(d: seq<int>, bs: nat, m: int, k: nat, l: nat) {
    IsMinPos(d, m, k * bs, l * bs + bs - 1)
  }

  /** Two windows that overlap or touch combine into the window over their union. */
  lemma WindowsCombine(d: seq<int>, bs: nat, a: nat, b: nat, k: nat, l1: nat, k2: nat, l: nat)
    requires bs >= 1 && Window(d, bs, a, k, l1) && Window(d, bs, b, k2, l)
    requires k <= k2 <= l1 + 1 && l1 <= l
    ensures Window(d, bs, MinByDepth(d, a, b), k, l)
  {
    MulLe(k, k2, bs);
    MulLe(k2, l1 + 1, bs);
    MulLe(l1, l, bs);
    MinOfCover(d, a, b, k * bs, l1 * bs + bs - 1, k2 * bs, l * bs + bs - 1);
  }

  /** A level of a table over nb blocks: one window of 2^e blocks per start i. */
  ghost predicate LevelOk(d: seq<int>, bs: nat, nb: nat, e: nat, level: seq<nat>) {
    && Pow2(e) <= nb
    && |level| == nb - Pow2(e) + 1
    && forall i | 0 <= i < |level| :: Window(d, bs, level[i], i, i + Pow2(e) - 1)
  }

  /** The whole table: FloorLog2(nb) levels, for window sizes 2, 4, ..., 2^FloorLog2(nb). */
  ghost predicate TableOk(d: seq<int>, bs: nat, nb: nat, table: seq<seq<nat>>)
    requires nb >= 1
  {
    |table| == FloorLog2(nb) && forall j | 0 <= j < |table| :: LevelOk(d, bs, nb, j + 1, table[j])
  }

  /** Entry i of a level of windows of 2^e blocks covers blocks i..hi. */
  lemma LevelEntry(d: seq<int>, bs: nat, nb: nat, e: nat, level: seq<nat>, i: nat, hi: nat)
    requires LevelOk(d, bs, nb, e, level) && i < |level| && hi == i + Pow2(e) - 1
    ensures Window(d, bs, level[i], i, hi)
  {
  }

  /** Entry e-1 of the table is the level of windows of 2^e blocks. */
  lemma TableLevel(d: seq<int>, bs: nat, nb: nat, table: seq<seq<nat>>, e: nat)
    requires nb >= 1 && TableOk(d, bs, nb, table) && 1 <= e <= |table|
    ensures LevelOk(d, bs, nb, e, table[e - 1])
  {
    assert LevelOk(d, bs, nb, (e - 1) + 1, table[e - 1]);
  }

  /** The first level, the windows of two neighbouring blocks. */
  method FirstLevel(d: seq<int>, bs: nat, blockMin: seq<nat>) returns (level: seq<nat>)
    requires bs >= 1 && BlockMinima(d, bs, blockMin) && |blockMin| >= 2
    ensures LevelOk(d, bs, |blockMin|, 1, level)
  {
    var nb := |blockMin|;
    var a := new nat[nb - 1];
    for i := 0 to nb - 1
      invariant forall i' | 0 <= i' < i :: Window(d, bs, a[i'], i', i' + 1)
    {
      assert Window(d, bs, blockMin[i], i, i) && Window(d, bs, blockMin[i + 1], i + 1, i + 1);
      WindowsCombine(d, bs, blockMin[i], blockMin[i + 1], i, i, i + 1, i + 1);
      a[i] := MinByDepth(d, blockMin[i], blockMin[i + 1]);
    }
    level := a[..];
  }

  /** The next level: a window of 2^(j+1) blocks is two windows of 2^j blocks side by side. */
  method NextLevel(d: seq<int>, bs: nat, nb: nat, j: nat, prev: seq<nat>) returns (level: seq<nat>)
    requires bs >= 1 && j >= 1 && Pow2(j + 1) <= nb && LevelOk(d, bs, nb, j, prev)
    ensures LevelOk(d, bs, nb, j + 1, level)
  {
    var w := Pow2(j + 1);
    var half := w / 2;
    assert half == Pow2(j);
    var a := new nat[nb - w + 1];
    for i := 0 to nb - w + 1
      invariant forall i' | 0 <= i' < i :: Window(d, bs, a[i'], i', i' + w - 1)
    {
      assert Window(d, bs, prev[i], i, i + half - 1);
      assert Window(d, bs, prev[i + half], i + half, i + half + half - 1);
      WindowsCombine(d, bs, prev[i], prev[i + half], i, i + half - 1, i + half, i + w - 1);
      a[i] := MinByDepth(d, prev[i], prev[i + half]);
    }
    level := a[..];
  }

  /** The sparse table over the block minima, built one level at a time. */
  method BuildTable(d: seq<int>, bs: nat, blockMin: seq<nat>) returns (table: seq<seq<nat>>)
    requires bs >= 1 && BlockMinima(d, bs, blockMin) && |blockMin| >= 2
    ensures TableOk(d, bs, |blockMin|, table)
  {
    var nb := |blockMin|;
    var levels := FloorLog2(nb);
    assert levels >= 1 by {
      FloorLog2Monotone(2, nb);
      FloorLog2Unique(2, 1);
    }
    var first := FirstLevel(d, bs, blockMin);
    table := [first];
    for j := 2 to levels + 1
      invariant |table| == j - 1
      invariant forall j' | 0 <= j' < |table| :: LevelOk(d, bs, nb, j' + 1, table[j'])
    {
      assert Pow2(j) <= nb by { Pow2Monotone(j, levels); }
      assert LevelOk(d, bs, nb, j - 1, table[j - 2]);
      var next := NextLevel(d, bs, nb, j - 1, table[j - 2]);
      table := table + [next];
    }
  }

  /** A run of 2..nb blocks is covered by two windows of the level FloorLog2 of its length. */
  lemma RangeLevel(nb: nat, k: nat, l: nat)
    requires k < l < nb
    ensures 1 <= FloorLog2(l - k + 1) <= FloorLog2(nb)
    ensures Pow2(FloorLog2(l - k + 1)) <= l - k + 1 < 2 * Pow2(FloorLog2(l - k + 1))
  {
    FloorLog2Monotone(2, l - k + 1);
    FloorLog2Unique(2, 1);
    FloorLog2Monotone(l - k + 1, nb);
  }

  /**
   * A position of minimum depth inside the whole blocks k..l: the stored
   * minimum of block k when k == l, and otherwise the shallower of the two
   * windows of size 2^e, e = FloorLog2(l-k+1), that start at k and end at l.
   */
  function BlockRangeRmq(d: seq<int>, bs: nat, blockMin: seq<nat>, table: seq<seq<nat>>, k: nat, l: nat): (m: nat)
    requires bs >= 1 && BlockMinima(d, bs, blockMin) && |blockMin| >= 1 && TableOk(d, bs, |blockMin|, table)
    requires k <= l < |blockMin|
    ensures Window(d, bs, m, k, l)
  {
    if k == l then blockMin[k] else
      var e := FloorLog2(l - k + 1);
      RangeLevel(|blockMin|, k, l);
      var w := Pow2(e);
      TableLevel(d, bs, |blockMin|, table, e);
      var level := table[e - 1];
      var a, b := level[k], level[l + 1 - w];
      LevelEntry(d, bs, |blockMin|, e, level, k, k + w - 1);
      LevelEntry(d, bs, |blockMin|, e, level, l + 1 - w, l);
      WindowsCombine(d, bs, a, b, k, k + w - 1, l + 1 - w, l);
      MinByDepth(d, a, b)
  }
}

/**
 * The block decomposition of the depth sequence of an Euler tour: the
 * shallower-of-two choice, per-position prefix and suffix minima inside each
 * block, the minimum of every whole block, and the sparse table over runs of
 * whole blocks (the first half of LCA::preprocessForLCA).
 */
module Blocks {
  import opened Log2

  /** Which of positions i and j is shallower in d; j on equal depth. */
  function MinByDepth(d: seq<int>, i: nat, j: nat): (m: nat)
    requires i < |d| && j < |d|
    ensures m == i || m == j
    ensures d[m] <= d[i] && d[m] <= d[j]
    ensures d[i] == d[j] ==> m == j
  {
    if d[i] < d[j] then i else j
  }

  /** m is a position of minimum depth among positions lo..hi. */
  ghost predicate IsMinPos(d: seq<int>, m: int, lo: int, hi: int) {
    0 <= lo <= m <= hi < |d| && forall x | lo <= x <= hi :: d[m] <= d[x]
  }

  /** Two minima over ranges that together cover lo..hi give the minimum over lo..hi. */
  lemma MinOfCover(d: seq<int>, a: nat, b: nat, lo: int, mid1: int, mid2: int, hi: int)
    requires IsMinPos(d, a, lo, mid1) && IsMinPos(d, b, mid2, hi)
    requires lo <= mid2 <= mid1 + 1 && mid1 <= hi
    ensures IsMinPos(d, MinByDepth(d, a, b), lo, hi)
  {
  }

  lemma MinOfOne(d: seq<int>, i: nat)
    requires i < |d|
    ensures IsMinPos(d, i, i, i)
  {
  }

  // ------------------------------------------------------------ arithmetic

  lemma DivModUnique(x: nat, bs: nat, q: nat, r: nat)
    requires 0 <= r < bs && x == q * bs + r
    ensures x / bs == q && x % bs == r
  {
    var q', r' := x / bs, x % bs;
    assert x == q' * bs + r';
    if q' > q {
      assert q' * bs >= (q + 1) * bs by { MulLe(q + 1, q', bs); }
      assert false;
    } else if q' < q {
      assert q * bs >= (q' + 1) * bs by { MulLe(q' + 1, q, bs); }
      assert false;
    }
  }

  lemma MulLe(a: nat, b: nat, c: nat)
    requires a <= b
    ensures a * c <= b * c
  {
  }

  /** Stepping from i to i+1 either stays in the block of i or starts the next one. */
  lemma ModStep(i: nat, bs: nat)
    requires bs >= 1
    ensures (i + 1) % bs == 0 ==> i % bs == bs - 1 && i - i % bs + bs == i + 1
    ensures (i + 1) % bs != 0 ==> (i + 1) % bs == i % bs + 1 && (i + 1) - (i + 1) % bs == i - i % bs
  {
    var q, r := i / bs, i % bs;
    assert i == q * bs + r;
    if r == bs - 1 {
      DivModUnique(i + 1, bs, q + 1, 0);
    } else {
      DivModUnique(i + 1, bs, q, r + 1);
    }
  }

  /** The block holding i, when i ends a block that lies inside the first n positions. */
  lemma BlockOfEnd(i: nat, bs: nat, n: nat)
    requires bs >= 1 && i < n && (i + 1) % bs == 0
    ensures i / bs < n / bs && (i / bs) * bs == i - i % bs && (i / bs) * bs + bs - 1 == i
  {
    ModStep(i, bs);
    var q := i / bs;
    assert i == q * bs + i % bs;
    assert (q + 1) * bs == i + 1;
  }

  /** Block b < n/bs ends inside the first n positions. */
  lemma WholeBlockInside(b: nat, bs: nat, n: nat)
    requires bs >= 1 && b < n / bs
    ensures b * bs + bs <= n
  {
    MulLe(b + 1, n / bs, bs);
    assert n == (n / bs) * bs + n % bs;
  }

  /** The last position of the block holding p, cut off at position n-1. */
  function BlockEnd(p: nat, bs: nat, n: nat): (e: nat)
    requires bs >= 1 && p < n
  {
    if p - p % bs + bs - 1 < n then p - p % bs + bs - 1 else n - 1
  }

  // ---------------------------------------------------- prefix/suffix minima

  /** prefix[p] is a minimum over the start of p's block up to p. */
  ghost predicate PrefixMinima(d: seq<int>, bs: nat, prefix: seq<nat>)
    requires bs >= 1
  {
    |prefix| == |d| && forall p | 0 <= p < |d| :: IsMinPos(d, prefix[p], p - p % bs, p)
  }

  /** suffix[p] is a minimum over p up to the end of p's block (or of the sequence). */
  ghost predicate SuffixMinima(d: seq<int>, bs: nat, suffix: seq<nat>)
    requires bs >= 1
  {
    |suffix| == |d| && forall p | 0 <= p < |d| :: IsMinPos(d, suffix[p], p, BlockEnd(p, bs, |d|))
  }

  /** One entry per whole block, the minimum of that block; the short tail gets none. */
  ghost predicate BlockMinima(d: seq<int>, bs: nat, blockMin: seq<nat>)
    requires bs >= 1
  {
    |blockMin| == |d| / bs && forall b | 0 <= b < |blockMin| :: IsMinPos(d, blockMin[b], b * bs, b * bs + bs - 1)
  }

  /** The prefix minima of the positions before i are in place. */
  ghost predicate PrefixDone(d: seq<int>, bs: nat, pre: seq<nat>, i: nat)
    requires bs >= 1
  {
    |pre| == |d| && forall p | 0 <= p < i && p < |d| :: IsMinPos(d, pre[p], p - p % bs, p)
  }

  /** The running prefix minimum on entry to position i. */
  ghost predicate PrefixRunning(d: seq<int>, bs: nat, i: nat, pMin: nat)
    requires bs >= 1
  {
    i < |d| ==> if i % bs == 0 then pMin == i else IsMinPos(d, pMin, i - i % bs, i - 1)
  }

  /** The minima of the whole blocks that end before position i are in place. */
  ghost predicate BlocksDone(d: seq<int>, bs: nat, bm: seq<nat>, i: nat)
    requires bs >= 1
  {
    |bm| == |d| / bs && forall b | 0 <= b < |bm| && b * bs + bs <= i :: IsMinPos(d, bm[b], b * bs, b * bs + bs - 1)
  }

  /** The suffix minima of positions from on are in place. */
  ghost predicate SuffixDone(d: seq<int>, bs: nat, suf: seq<nat>, from: nat)
    requires bs >= 1
  {
    |suf| == |d| && forall p | from <= p < |d| :: IsMinPos(d, suf[p], p, BlockEnd(p, bs, |d|))
  }

  /** The running suffix minimum after i steps from the right. */
  ghost predicate SuffixRunning(d: seq<int>, bs: nat, i: nat, sMin: nat)
    requires bs >= 1 && |d| >= 1
  {
    && (i == 0 ==> sMin == |d| - 1)
    && (0 < i <= |d| ==> IsMinPos(d, sMin, |d| - i, BlockEnd(|d| - i, bs, |d|)))
  }

  lemma PrefixStep(d: seq<int>, bs: nat, pre: seq<nat>, i: nat, pMin: nat)
    requires bs >= 1 && i < |d| && PrefixDone(d, bs, pre, i) && PrefixRunning(d, bs, i, pMin)
    ensures pMin < |d|
    ensures IsMinPos(d, MinByDepth(d, pMin, i), i - i % bs, i)
    ensures PrefixDone(d, bs, pre[i := MinByDepth(d, pMin, i)], i + 1)
  {
    if i % bs == 0 {
      MinOfOne(d, i);
    } else {
      MinOfCover(d, pMin, i, i - i % bs, i - 1, i, i);
    }
  }

  lemma PrefixReset(d: seq<int>, bs: nat, i: nat, m: nat)
    requires bs >= 1 && i < |d| && IsMinPos(d, m, i - i % bs, i)
    ensures PrefixRunning(d, bs, i + 1, if (i + 1) % bs == 0 then i + 1 else m)
  {
    ModStep(i, bs);
  }

  lemma BlocksStep(d: seq<int>, bs: nat, bm: seq<nat>, i: nat, m: nat)
    requires bs >= 1 && i < |d| && BlocksDone(d, bs, bm, i) && IsMinPos(d, m, i - i % bs, i)
    ensures (i + 1) % bs == 0 ==> i / bs < |bm| && BlocksDone(d, bs, bm[i / bs := m], i + 1)
    ensures (i + 1) % bs != 0 ==> BlocksDone(d, bs, bm, i + 1)
  {
    if (i + 1) % bs == 0 {
      BlockOfEnd(i, bs, |d|);
      var bm' := bm[i / bs := m];
      forall b | 0 <= b < |bm'| && b * bs + bs <= i + 1
        ensures IsMinPos(d, bm'[b], b * bs, b * bs + bs - 1)
      {
        if b * bs + bs == i + 1 {
          DivModUnique(i, bs, b, bs - 1);
        }
      }
    } else {
      forall b | 0 <= b < |bm| && b * bs + bs <= i + 1
        ensures b * bs + bs <= i
      {
        if b * bs + bs == i + 1 {
          DivModUnique(i + 1, bs, b + 1, 0);
        }
      }
    }
  }

  lemma SuffixStep(d: seq<int>, bs: nat, suf: seq<nat>, i: nat, sMin: nat)
    requires bs >= 1 && i < |d| && SuffixDone(d, bs, suf, |d| - i) && SuffixRunning(d, bs, i, sMin)
    ensures sMin < |d|
    ensures var s0 := if (|d| - i) % bs == 0 then |d| - i - 1 else sMin;
      var m := MinByDepth(d, s0, |d| - 1 - i);
      SuffixDone(d, bs, suf[|d| - 1 - i := m], |d| - 1 - i) && SuffixRunning(d, bs, i + 1, m)
  {
    var n := |d|;
    var p := n - 1 - i;
    ModStep(p, bs);
    if (n - i) % bs == 0 {
      MinOfOne(d, p);
    } else if i > 0 {
      MinOfCover(d, p, sMin, p, p, p + 1, BlockEnd(p, bs, n));
    } else {
      MinOfOne(d, p);
    }
  }

  /** One step of the left-to-right half of the pass: position i of the prefix minima, and the block ending at i. */
  method PrefixAt(d: seq<int>, bs: nat, pre: array<nat>, bm: array<nat>, i: nat, pMin: nat) returns (pMin': nat)
    requires bs >= 1 && i < |d| && pre.Length == |d| && bm.Length == |d| / bs && pre != bm
    requires PrefixDone(d, bs, pre[..], i) && PrefixRunning(d, bs, i, pMin) && BlocksDone(d, bs, bm[..], i)
    modifies pre, bm
    ensures PrefixDone(d, bs, pre[..], i + 1) && PrefixRunning(d, bs, i + 1, pMin') && BlocksDone(d, bs, bm[..], i + 1)
  {
    ghost var pre0, bm0 := pre[..], bm[..];
    assert |bm0| == bm.Length;
    PrefixStep(d, bs, pre0, i, pMin);
    pMin' := MinByDepth(d, pMin, i);
    BlocksStep(d, bs, bm0, i, pMin');
    PrefixReset(d, bs, i, pMin');
    pre[i] := pMin';
    assert pre[..] == pre0[i := pMin'];
    if (i + 1) % bs == 0 {
      assert i / bs < |bm0|;
      bm[i / bs] := pMin';
      assert bm[..] == bm0[i / bs := pMin'];
      pMin' := i + 1;
    }
  }

  /** One step of the right-to-left half of the pass: position |d|-1-i of the suffix minima. */
  method SuffixAt(d: seq<int>, bs: nat, suf: array<nat>, i: nat, sMin: nat) returns (sMin': nat)
    requires bs >= 1 && i < |d| && suf.Length == |d|
    requires SuffixDone(d, bs, suf[..], |d| - i) && SuffixRunning(d, bs, i, sMin)
    modifies suf
    ensures SuffixDone(d, bs, suf[..], |d| - (i + 1)) && SuffixRunning(d, bs, i + 1, sMin')
  {
    ghost var suf0 := suf[..];
    SuffixStep(d, bs, suf0, i, sMin);
    var n := |d|;
    sMin' := sMin;
    if (n - i) % bs == 0 {
      sMin' := n - i - 1;
    }
    sMin' := MinByDepth(d, sMin', n - 1 - i);
    suf[n - 1 - i] := sMin';
    assert suf[..] == suf0[n - 1 - i := sMin'];
  }

  /**
   * The single pass that fills the prefix minima from the left and the suffix
   * minima from the right, restarting both at block boundaries, and records
   * the minimum of each whole block when its last position is reached.
   * The pass starts at position 0, so that a block size of 1 restarts the
   * prefix minimum after position 0 as it does after every later block end.
   */
  method PrefixSuffixMinima(d: seq<int>, bs: nat) returns (prefix: seq<nat>, suffix: seq<nat>, blockMin: seq<nat>)
    requires |d| >= 1 && bs >= 1
    ensures PrefixMinima(d, bs, prefix)
    ensures SuffixMinima(d, bs, suffix)
    ensures BlockMinima(d, bs, blockMin)
  {
    var n := |d|;
    var pre := new nat[n];
    var suf := new nat[n];
    var bm := new nat[n / bs];
    var pMin: nat, sMin: nat := 0, n - 1;
    pre[0] := pMin;
    suf[n - 1] := sMin;
    for i := 0 to n
      invariant PrefixDone(d, bs, pre[..], i) && PrefixRunning(d, bs, i, pMin)
      invariant BlocksDone(d, bs, bm[..], i)
      invariant SuffixDone(d, bs, suf[..], n - i) && SuffixRunning(d, bs, i, sMin)
    {
      pMin := PrefixAt(d, bs, pre, bm, i, pMin);
      sMin := SuffixAt(d, bs, suf, i, sMin);
    }
    prefix, suffix, blockMin := pre[..], suf[..], bm[..];
    BlocksComplete(d, bs, blockMin);
  }

  lemma BlocksComplete(d: seq<int>, bs: nat, bm: seq<nat>)
    requires bs >= 1 && BlocksDone(d, bs, bm, |d|)
    ensures BlockMinima(d, bs, bm)
  {
    forall b | 0 <= b < |bm| ensures b * bs + bs <= |d| {
      WholeBlockInside(b, bs, |d|);
    }
  }

  // ------------------------------------------- the pass as the source starts it

  /**
   * The running prefix minimum on entry to position i >= 1 when the pass
   * starts at position 1, as LCA.cpp does: position 0 is only initialised,
   * so the restart after position 0 that a block size of 1 calls for never happens.
   */
  function AsWrittenRunning(d: seq<int>, bs: nat, i: nat): (m: nat)
    requires bs >= 1 && 1 <= i <= |d|
    ensures m < |d| || m == i
    decreases i
  {
    if i == 1 then 0
    else if i % bs == 0 then i
    else MinByDepth(d, AsWrittenRunning(d, bs, i - 1), i - 1)
  }

  /** The prefix minimum the source stores at position i. */
  function AsWrittenPrefix(d: seq<int>, bs: nat, i: nat): (m: nat)
    requires bs >= 1 && i < |d|
    ensures m <= i
  {
    if i == 0 then 0 else
      var r := AsWrittenRunning(d, bs, i);
      assert r <= i by { AsWrittenRunningBelow(d, bs, i); }
      MinByDepth(d, r, i)
  }

  lemma {:induction false} AsWrittenRunningBelow(d: seq<int>, bs: nat, i: nat)
    requires bs >= 1 && 1 <= i <= |d|
    ensures AsWrittenRunning(d, bs, i) <= i
    decreases i
  {
    if i > 1 && i % bs != 0 {
      AsWrittenRunningBelow(d, bs, i - 1);
    }
  }

  /** With blocks of two or more positions the late start is harmless: the running minimum is the one the corrected pass keeps. */
  lemma {:induction false} AsWrittenRunningAgrees(d: seq<int>, bs: nat, i: nat)
    requires bs >= 2 && 1 <= i < |d|
    ensures PrefixRunning(d, bs, i, AsWrittenRunning(d, bs, i))
    decreases i
  {
    if i > 1 && i % bs != 0 {
      AsWrittenRunningAgrees(d, bs, i - 1);
      ModStep(i - 1, bs);
      var r := AsWrittenRunning(d, bs, i - 1);
      if (i - 1) % bs == 0 {
        MinOfOne(d, i - 1);
      } else {
        MinOfCover(d, r, i - 1, i - i % bs, i - 2, i - 1, i - 1);
      }
    } else if i == 1 {
      assert i % bs == 1;
    }
  }

  /** With blocks of two or more positions the source's prefix minima are correct. */
  lemma AsWrittenPrefixAgrees(d: seq<int>, bs: nat, i: nat)
    requires bs >= 2 && i < |d|
    ensures IsMinPos(d, AsWrittenPrefix(d, bs, i), i - i % bs, i)
  {
    if i == 0 {
      MinOfOne(d, 0);
    } else {
      AsWrittenRunningAgrees(d, bs, i);
      var r := AsWrittenRunning(d, bs, i);
      if i % bs == 0 {
        MinOfOne(d, i);
      } else {
        MinOfCover(d, r, i, i - i % bs, i - 1, i, i);
      }
    }
  }

  /**
   * With a block size of 1 (an Euler tour of three positions, depths 0, 1, 0)
   * the source stores position 0 as the prefix minimum of position 1, which
   * lies outside block 1, and the same position as the minimum of block 1.
   */
  lemma AsWrittenPrefixLeavesBlock()
    ensures AsWrittenPrefix([0, 1, 0], 1, 1) == 0
    ensures !IsMinPos([0, 1, 0], AsWrittenPrefix([0, 1, 0], 1, 1), 1 - 1 % 1, 1)
  {
  }
}

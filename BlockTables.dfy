/**
 * Answers inside one block (the last part of LCA::preprocessForLCA and
 * LCA::singleBlockRMQ). Each block is described by the integer whose bit j-1
 * says whether the depth rises from offset j-1 to offset j; blocks with the
 * same description have the same depth profile up to a constant, so one table
 * of in-block minimum offsets per description serves all of them.
 */
module BlockTables {
  import opened Log2
  import opened Blocks
  import opened EulerTour

  /** The depth rises by one from offset j-1 to offset j of the block at s. */
  ghost predicate Rise(d: seq<int>, s: nat, j: nat) {
    j >= 1 && s + j < |d| && d[s + j] == d[s + j - 1] + 1
  }

  /** The description of the first m offsets of the block at s: bit j-1 for each rise at offset j < m. */
  ghost function Key(d: seq<int>, s: nat, m: nat): (k: nat)
    ensures m >= 1 ==> k < Pow2(m - 1)
  {
    if m <= 1 then 0 else Key(d, s, m - 1) + (if Rise(d, s, m - 1) then Pow2(m - 2) else 0)
  }

  /** Bit j of k. */
  ghost predicate Bit(k: nat, j: nat) {
    (k / Pow2(j)) % 2 == 1
  }

  // ------------------------------------------------------------ arithmetic

  /** Adding an even multiple of q leaves bit 0 of the quotient by q unchanged. */
  lemma AddEvenMultiple(a: nat, q: nat, y: nat)
    requires q >= 1
    ensures ((a + 2 * y * q) / q) % 2 == (a / q) % 2
  {
    var h := a / q;
    assert a == h * q + a % q;
    assert (h + 2 * y) * q == h * q + 2 * y * q;
    DivModUnique(a + 2 * y * q, q, h + 2 * y, a % q);
  }

  /** Below q, adding q sets the quotient to one. */
  lemma AddBelow(a: nat, q: nat)
    requires a < q
    ensures a / q == 0 && (a + q) / q == 1
  {
    DivModUnique(a + q, q, 1, a);
  }

  // ------------------------------------------------------------ the key bits

  /** Bit j-1 of the description of the first m offsets is set exactly when the depth rises at offset j. */
  lemma {:induction false} KeyBit(d: seq<int>, s: nat, m: nat, j: nat)
    requires 1 <= j < m
    ensures Bit(Key(d, s, m), j - 1) <==> Rise(d, s, j)
    decreases m
  {
    var prev, key := Key(d, s, m - 1), Key(d, s, m);
    var q := Pow2(j - 1);
    var rises := Rise(d, s, m - 1);
    assert key == prev + (if rises then Pow2(m - 2) else 0);
    if j == m - 1 {
      AddBelow(prev, q);
      if rises {
        assert key == prev + q;
        assert key / q == 1;
      } else {
        assert key / q == 0;
      }
    } else {
      KeyBit(d, s, m - 1, j);
      if rises {
        var y := Pow2(m - 2 - j);
        HighBit(j, m, y);
        assert key == prev + 2 * y * q;
        AddEvenMultiple(prev, q, y);
        assert Bit(key, j - 1) == Bit(prev, j - 1);
      }
    }
  }

  /** 2^(m-2) is an even multiple of 2^(j-1) when j < m-1. */
  lemma HighBit(j: nat, m: nat, y: nat)
    requires 1 <= j < m - 1 && y == Pow2(m - 2 - j)
    ensures Pow2(m - 2) == 2 * y * Pow2(j - 1)
  {
    var a := Pow2(j - 1);
    Pow2Add(j, m - 2 - j);
    assert j + (m - 2 - j) == m - 2;
    assert Pow2(j) == 2 * a;
    assert Pow2(m - 2) == (2 * a) * y;
    Regroup(a, y);
  }

  /** Regrouping a product of three factors. */
  lemma Regroup(a: int, y: int)
    ensures (2 * a) * y == 2 * y * a
  {
  }

  /** Blocks with the same description rise at the same offsets. */
  lemma SameKeySameRises(d: seq<int>, s1: nat, s2: nat, m: nat, j: nat)
    requires Key(d, s1, m) == Key(d, s2, m) && 1 <= j < m
    ensures Rise(d, s1, j) <==> Rise(d, s2, j)
  {
    KeyBit(d, s1, m, j);
    KeyBit(d, s2, m, j);
  }

  /** Offsets past the end of the sequence add nothing to the description. */
  lemma {:induction false} KeyPastEnd(d: seq<int>, s: nat, m: nat, m': nat)
    requires m <= m' && s + m >= |d|
    ensures Key(d, s, m') == Key(d, s, m)
    decreases m' - m
  {
    if m' > m {
      KeyPastEnd(d, s, m, m' - 1);
      assert !Rise(d, s, m' - 1);
    }
  }

  /** One offset more: the description gains bit j-1 when the depth rises at position i = s+j. */
  lemma KeyStep(d: seq<int>, s: nat, j: nat, i: nat)
    requires i == s + j && i < |d|
    ensures Key(d, s, j + 1) == Key(d, s, j) + (if j > 0 && d[i] == d[i - 1] + 1 then Pow2(j - 1) else 0)
  {
  }

  // ------------------------------------------------------- description walk

  /** The keys are those of every block, and maxKey is the largest of them. */
  ghost predicate KeysOk(d: seq<int>, bs: nat, keys: seq<nat>, maxKey: nat)
    requires bs >= 1
  {
    && |keys| == |d| / bs + 1
    && (forall b | 0 <= b < |keys| :: keys[b] == Key(d, b * bs, bs))
    && (forall b | 0 <= b < |keys| :: keys[b] <= maxKey)
    && (maxKey == 0 || maxKey in keys)
  }

  /** The walk's state at position i = b*bs + j: blocks before b done, block b done up to offset j. */
  ghost predicate WalkAt(d: seq<int>, bs: nat, keys: seq<nat>, maxKey: nat, b: nat, j: nat)
    requires bs >= 1
  {
    && b < |keys|
    && (forall b' | 0 <= b' < b :: keys[b'] == Key(d, b' * bs, bs))
    && keys[b] == Key(d, b * bs, j)
    && (forall b' | b < b' < |keys| :: keys[b'] == 0)
    && (forall b' | 0 <= b' < |keys| :: keys[b'] <= maxKey)
    && (maxKey == 0 || maxKey in keys)
  }

  lemma WalkNextBlock(d: seq<int>, bs: nat, keys: seq<nat>, maxKey: nat, b: nat, i: nat)
    requires bs >= 1 && |keys| == |d| / bs + 1 && WalkAt(d, bs, keys, maxKey, b, bs)
    requires i == b * bs + bs && i < |d|
    ensures i == (b + 1) * bs && b + 1 < |keys|
    ensures WalkAt(d, bs, keys, maxKey, b + 1, 1)
  {
    NextBlockStart(b, bs);
    DivAtLeast(|d|, bs, b + 1);
    assert keys[b + 1] == 0 == Key(d, (b + 1) * bs, 1);
    assert forall b' | 0 <= b' < b + 1 :: keys[b'] == Key(d, b' * bs, bs) by {
      assert keys[b] == Key(d, b * bs, bs);
    }
  }

  /** Block b+1 starts one block size after block b. */
  lemma NextBlockStart(b: nat, bs: nat)
    ensures (b + 1) * bs == b * bs + bs
  {
  }

  lemma WalkRise(d: seq<int>, bs: nat, keys: seq<nat>, maxKey: nat, b: nat, j: nat, i: nat, add: nat, k: nat)
    requires bs >= 1 && b < |keys| && WalkAt(d, bs, keys, maxKey, b, j) && j < bs
    requires i == b * bs + j && i < |d|
    requires add == (if j > 0 && d[i] == d[i - 1] + 1 then Pow2(j - 1) else 0) && k == keys[b] + add
    ensures add == 0 ==> WalkAt(d, bs, keys, maxKey, b, j + 1)
    ensures WalkAt(d, bs, keys[b := k], if k > maxKey then k else maxKey, b, j + 1)
  {
    KeyStep(d, b * bs, j, i);
    WalkBump(d, bs, keys, maxKey, b, j, k);
  }

  /** Block b's description grows to k, the description up to offset j+1. */
  lemma WalkBump(d: seq<int>, bs: nat, keys: seq<nat>, maxKey: nat, b: nat, j: nat, k: nat)
    requires bs >= 1 && WalkAt(d, bs, keys, maxKey, b, j) && k == Key(d, b * bs, j + 1)
    ensures k == keys[b] ==> WalkAt(d, bs, keys, maxKey, b, j + 1)
    ensures WalkAt(d, bs, keys[b := k], if k > maxKey then k else maxKey, b, j + 1)
  {
    var keys' := keys[b := k];
    var maxKey' := if k > maxKey then k else maxKey;
    assert keys'[b] == k;
    if maxKey' != 0 {
      if k > maxKey {
        assert keys'[b] == maxKey';
      } else {
        var w :| 0 <= w < |keys| && keys[w] == maxKey;
        if w == b {
          assert keys'[b] == maxKey';
        } else {
          assert keys'[w] == maxKey';
        }
      }
    }
  }

  lemma WalkEnd(d: seq<int>, bs: nat, keys: seq<nat>, maxKey: nat, b: nat, j: nat)
    requires bs >= 1 && |keys| == |d| / bs + 1 && WalkAt(d, bs, keys, maxKey, b, j)
    requires j <= bs && b * bs + j >= |d|
    ensures KeysOk(d, bs, keys, maxKey)
  {
    KeyPastEnd(d, b * bs, j, bs);
    forall b' | b < b' < |keys| ensures keys[b'] == Key(d, b' * bs, bs) {
      PastBlock(b, b', bs);
      KeyPastEnd(d, b' * bs, 0, bs);
    }
  }

  lemma PastBlock(b: nat, b': nat, bs: nat)
    requires b < b'
    ensures b * bs + bs <= b' * bs
  {
    MulLe(b + 1, b', bs);
  }

  /**
   * The description of every block, walking the tour once: offset 0 of a
   * block carries no bit, so the walk steps over it when it enters the next
   * block. The result has one slot more than there are whole blocks, for the
   * short tail (a slot that stays 0 when there is no tail).
   */
  method BlockKeys(d: seq<int>, bs: nat) returns (keys: seq<nat>, maxKey: nat)
    requires |d| >= 1 && bs >= 1
    ensures KeysOk(d, bs, keys, maxKey)
  {
    var a := new nat[|d| / bs + 1](_ => 0);
    maxKey := 0;
    var b, i, j := 0, 0, 0;
    while i < |d|
      invariant j <= bs && i == b * bs + j && i <= |d|
      invariant WalkAt(d, bs, a[..], maxKey, b, j)
      decreases |d| - i
    {
      if j == bs {
        WalkNextBlock(d, bs, a[..], maxKey, b, i);
        j := 1;
        b := b + 1;
        i := i + 1;
        continue;
      }
      var add: nat := if j > 0 && d[i] == d[i - 1] + 1 then Pow2(j - 1) else 0;
      ghost var a0 := a[..];
      var k: nat := a[b] + add;
      WalkRise(d, bs, a0, maxKey, b, j, i, add, k);
      if add > 0 {
        a[b] := k;
        assert a[..] == a0[b := k];
        maxKey := if k > maxKey then k else maxKey;
      }
      i := i + 1;
      j := j + 1;
    }
    keys := a[..];
    WalkEnd(d, bs, keys, maxKey, b, j);
  }

  // ------------------------------------------------------ in-block tables

  /** tbl[i][j] is the offset of a minimum over offsets i..j of the block at s, wherever offset j exists. */
  ghost predicate TableFor(d: seq<int>, bs: nat, s: nat, tbl: seq<seq<nat>>) {
    && |tbl| == bs
    && (forall i | 0 <= i < bs :: |tbl[i]| == bs)
    && (forall i, j | 0 <= i <= j < bs && s + j < |d| :: IsMinPos(d, s + tbl[i][j], s + i, s + j))
  }

  /** Entries i..j-1 of row i of the table of the block at s are in place. */
  ghost predicate RowDone(d: seq<int>, s: nat, i: nat, r: seq<nat>, j: nat) {
    && i < j <= |r|
    && (forall j' | i <= j' < j :: i <= r[j'] <= j')
    && (forall j' | i <= j' < j && s + j' < |d| :: IsMinPos(d, s + r[j'], s + i, s + j'))
  }

  lemma RowStep(d: seq<int>, s: nat, i: nat, r: seq<nat>, j: nat, v: nat)
    requires RowDone(d, s, i, r, j) && j < |r|
    requires v == if s + j < |d| then MinByDepth(d, s + r[j - 1], s + j) - s else r[j - 1]
    ensures RowDone(d, s, i, r[j := v], j + 1)
  {
    if s + j < |d| {
      MinOfCover(d, s + r[j - 1], s + j, s + i, s + j - 1, s + j, s + j);
    }
  }

  /** Row i of the table of the block at s: minima over offsets i..j, for j from i on. */
  method TableRow(d: seq<int>, bs: nat, s: nat, i: nat) returns (row: seq<nat>)
    requires i < bs
    ensures |row| == bs
    ensures forall j | i <= j < bs && s + j < |d| :: IsMinPos(d, s + row[j], s + i, s + j)
  {
    var r := new nat[bs](_ => 0);
    r[i] := i;
    for j := i + 1 to bs
      invariant RowDone(d, s, i, r[..], j)
    {
      ghost var r0 := r[..];
      var v := r[j - 1];
      if s + j < |d| {
        v := MinByDepth(d, s + v, s + j) - s;
      }
      RowStep(d, s, i, r0, j, v);
      r[j] := v;
      assert r[..] == r0[j := v];
    }
    row := r[..];
  }

  /** The table of the block at s, one row per starting offset. */
  method BlockTable(d: seq<int>, bs: nat, s: nat) returns (tbl: seq<seq<nat>>)
    ensures TableFor(d, bs, s, tbl)
  {
    tbl := [];
    for i := 0 to bs
      invariant |tbl| == i && forall i' | 0 <= i' < i :: |tbl[i']| == bs
      invariant forall i', j | 0 <= i' <= j < bs && i' < i && s + j < |d| :: IsMinPos(d, s + tbl[i'][j], s + i', s + j)
    {
      var row := TableRow(d, bs, s, i);
      tbl := tbl + [row];
    }
  }

  /** One step of the depth sequence is one up or one down. */
  lemma UpOrDown(d: seq<int>, k: nat)
    requires PlusMinusOne(d) && k + 1 < |d|
    ensures d[k + 1] == d[k] + 1 || d[k + 1] == d[k] - 1
  {
    var k1 := k + 1;
    assert d[k1] == d[k] + 1 || d[k] == d[k1] + 1;
  }

  /** Two blocks with the same description have the same depth profile, as far as the later one reaches. */
  lemma {:induction false} SameProfile(d: seq<int>, bs: nat, s1: nat, s2: nat, j: nat)
    requires PlusMinusOne(d) && s1 < s2 && Key(d, s1, bs) == Key(d, s2, bs)
    requires j < bs && s2 + j < |d|
    ensures d[s2 + j] - d[s2] == d[s1 + j] - d[s1]
    decreases j
  {
    if j > 0 {
      SameProfile(d, bs, s1, s2, j - 1);
      SameKeySameRises(d, s1, s2, bs, j);
      UpOrDown(d, s1 + j - 1);
      UpOrDown(d, s2 + j - 1);
    }
  }

  /** A minimum inside one block carries over to a later block with the same description. */
  lemma TransferMin(d: seq<int>, bs: nat, s1: nat, s2: nat, i: nat, j: nat, m: nat)
    requires PlusMinusOne(d) && s1 < s2 && Key(d, s1, bs) == Key(d, s2, bs)
    requires i <= j < bs && s2 + j < |d| && IsMinPos(d, s1 + m, s1 + i, s1 + j)
    ensures IsMinPos(d, s2 + m, s2 + i, s2 + j)
  {
    SameProfile(d, bs, s1, s2, m);
    forall x | s2 + i <= x <= s2 + j ensures d[s2 + m] <= d[x] {
      var o := x - s2;
      assert d[s1 + m] <= d[s1 + o];
      SameProfile(d, bs, s1, s2, o);
    }
  }

  /** The table of a block serves every later block with the same description. */
  lemma TableTransfer(d: seq<int>, bs: nat, s1: nat, s2: nat, tbl: seq<seq<nat>>)
    requires PlusMinusOne(d) && s1 < s2 && Key(d, s1, bs) == Key(d, s2, bs)
    requires TableFor(d, bs, s1, tbl)
    ensures TableFor(d, bs, s2, tbl)
  {
    forall i, j | 0 <= i <= j < bs && s2 + j < |d| ensures IsMinPos(d, s2 + tbl[i][j], s2 + i, s2 + j) {
      TransferMin(d, bs, s1, s2, i, j, tbl[i][j]);
    }
  }

  /** The tables of the descriptions of blocks 0..b-1 are in place, each built for the first block carrying it. */
  ghost predicate TablesDone(d: seq<int>, bs: nat, keys: seq<nat>, tabs: seq<seq<seq<nat>>>, b: nat) {
    && b <= |keys|
    && (forall b' | 0 <= b' < b :: keys[b'] < |tabs| && TableFor(d, bs, b' * bs, tabs[keys[b']]))
    && (forall K | 0 <= K < |tabs| && tabs[K] != [] :: exists b0 | 0 <= b0 < b :: keys[b0] == K)
  }

  lemma TablesReuse(d: seq<int>, bs: nat, keys: seq<nat>, maxKey: nat, tabs: seq<seq<seq<nat>>>, b: nat)
    requires bs >= 1 && PlusMinusOne(d) && KeysOk(d, bs, keys, maxKey) && TablesDone(d, bs, keys, tabs, b)
    requires b < |keys| && keys[b] < |tabs| && tabs[keys[b]] != []
    ensures TablesDone(d, bs, keys, tabs, b + 1)
  {
    var key := keys[b];
    var b0 :| 0 <= b0 < b && keys[b0] == key;
    DoneTable(d, bs, keys, tabs, b, b0);
    ReuseTable(d, bs, b0, b, tabs[key]);
    TablesExtend(d, bs, keys, tabs, b);
  }

  /** The table built for block b0 serves a later block b with the same description. */
  lemma ReuseTable(d: seq<int>, bs: nat, b0: nat, b: nat, tbl: seq<seq<nat>>)
    requires bs >= 1 && PlusMinusOne(d) && b0 < b && Key(d, b0 * bs, bs) == Key(d, b * bs, bs)
    requires TableFor(d, bs, b0 * bs, tbl)
    ensures TableFor(d, bs, b * bs, tbl)
  {
    PastBlock(b0, b, bs);
    TableTransfer(d, bs, b0 * bs, b * bs, tbl);
  }

  /** A block already done has its table in place. */
  lemma DoneTable(d: seq<int>, bs: nat, keys: seq<nat>, tabs: seq<seq<seq<nat>>>, b: nat, b0: nat)
    requires TablesDone(d, bs, keys, tabs, b) && b0 < b
    ensures keys[b0] < |tabs| && TableFor(d, bs, b0 * bs, tabs[keys[b0]])
  {
  }

  /** Block b's description already has a table that serves block b. */
  lemma TablesExtend(d: seq<int>, bs: nat, keys: seq<nat>, tabs: seq<seq<seq<nat>>>, b: nat)
    requires TablesDone(d, bs, keys, tabs, b) && b < |keys| && keys[b] < |tabs|
    requires TableFor(d, bs, b * bs, tabs[keys[b]])
    ensures TablesDone(d, bs, keys, tabs, b + 1)
  {
    forall K | 0 <= K < |tabs| && tabs[K] != [] ensures exists b1 | 0 <= b1 < b + 1 :: keys[b1] == K {
      var w :| 0 <= w < b && keys[w] == K;
      assert 0 <= w < b + 1;
    }
  }

  lemma TablesNew(d: seq<int>, bs: nat, keys: seq<nat>, tabs: seq<seq<seq<nat>>>, b: nat, tbl: seq<seq<nat>>)
    requires bs >= 1 && TablesDone(d, bs, keys, tabs, b)
    requires b < |keys| && keys[b] < |tabs| && tabs[keys[b]] == [] && TableFor(d, bs, b * bs, tbl)
    ensures TablesDone(d, bs, keys, tabs[keys[b] := tbl], b + 1)
  {
    var tabs' := tabs[keys[b] := tbl];
    forall b' | 0 <= b' < b ensures keys[b'] != keys[b] {
      assert TableFor(d, bs, b' * bs, tabs[keys[b']]);
    }
    forall K | 0 <= K < |tabs'| && tabs'[K] != [] ensures exists b0 | 0 <= b0 < b + 1 :: keys[b0] == K {
      if K == keys[b] {
        assert keys[b] == K;
      } else {
        assert tabs[K] != [];
      }
    }
  }

  /**
   * One table per description that occurs, built for the first block that
   * carries it and reused by the later ones; descriptions that occur in no
   * block keep an empty table.
   */
  method MinTables(d: seq<int>, bs: nat, keys: seq<nat>, maxKey: nat) returns (tables: seq<seq<seq<nat>>>)
    requires bs >= 1 && PlusMinusOne(d) && KeysOk(d, bs, keys, maxKey)
    ensures |tables| == maxKey + 1
    ensures forall b | 0 <= b < |keys| :: keys[b] < |tables| && TableFor(d, bs, b * bs, tables[keys[b]])
  {
    var a := new seq<seq<nat>>[maxKey + 1](_ => []);
    for b := 0 to |keys|
      invariant TablesDone(d, bs, keys, a[..], b)
    {
      TableOfBlock(d, bs, keys, maxKey, a, b);
    }
    tables := a[..];
    TablesComplete(d, bs, keys, tables);
  }

  /** Block b's turn: its description's table is built unless an earlier block already built it. */
  method TableOfBlock(d: seq<int>, bs: nat, keys: seq<nat>, maxKey: nat, a: array<seq<seq<nat>>>, b: nat)
    requires bs >= 1 && PlusMinusOne(d) && KeysOk(d, bs, keys, maxKey) && a.Length == maxKey + 1
    requires b < |keys| && TablesDone(d, bs, keys, a[..], b)
    modifies a
    ensures TablesDone(d, bs, keys, a[..], b + 1)
  {
    var key := keys[b];
    ghost var a0 := a[..];
    if a[key] != [] {
      TablesReuse(d, bs, keys, maxKey, a0, b);
      return;
    }
    var tbl := BlockTable(d, bs, b * bs);
    TablesNew(d, bs, keys, a0, b, tbl);
    a[key] := tbl;
    assert a[..] == a0[key := tbl];
  }

  lemma TablesComplete(d: seq<int>, bs: nat, keys: seq<nat>, tabs: seq<seq<seq<nat>>>)
    requires TablesDone(d, bs, keys, tabs, |keys|)
    ensures forall b | 0 <= b < |keys| :: keys[b] < |tabs| && TableFor(d, bs, b * bs, tabs[keys[b]])
  {
  }
}

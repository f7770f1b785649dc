/**
 * Range minimum queries over a fixed sequence (RMQ::RMQ, RMQ::rangeMin):
 * the sequence is turned into its Cartesian tree and a range minimum becomes
 * the value at the lowest common ancestor of the range's two ends.
 */
module Rmq {
  import opened Errors
  import opened Trees
  import opened Cartesian
  import opened Lca

  /** m is the smallest value among v[lo..hi]: it occurs there and nothing there is smaller. */
  predicate IsMinOf(v: seq<int>, m: int, lo: nat, hi: nat)
    requires lo <= hi < |v|
  {
    (exists k | lo <= k <= hi :: v[k] == m) && forall k | lo <= k <= hi :: m <= v[k]
  }

  /** The top of a range holds the range's minimum value. */
  lemma TopIsMinOf(v: seq<int>, lo: nat, hi: nat, a: nat)
    requires lo <= hi < |v| && a == RangeTop(v, lo, hi)
    ensures IsMinOf(v, v[a], lo, hi)
  {
    RangeTopIsMinimum(v, lo, hi);
  }

  /** A range has one minimum value. */
  lemma {:induction false} MinOfUnique(v: seq<int>, a: int, b: int, lo: nat, hi: nat)
    requires lo <= hi < |v| && IsMinOf(v, a, lo, hi) && IsMinOf(v, b, lo, hi)
    ensures a == b
  {
    var ka :| lo <= ka <= hi && v[ka] == a;
    var kb :| lo <= kb <= hi && v[kb] == b;
    assert a <= v[kb] && b <= v[ka];
  }

  /** The smaller of two neighbouring (or equal) positions is the minimum of the range they span. */
  lemma ShortRange(v: seq<int>, i: nat, j: nat)
    requires i < |v| && j < |v| && (if i <= j then j - i else i - j) < 2
    ensures IsMinOf(v, if v[i] < v[j] then v[i] else v[j], if i <= j then i else j, if i <= j then j else i)
  {
    var lo, hi := if i <= j then i else j, if i <= j then j else i;
    var m := if v[i] < v[j] then v[i] else v[j];
    forall k | lo <= k <= hi ensures m <= v[k] {
      assert k == i || k == j;
    }
    if v[i] < v[j] { assert v[i] == m; } else { assert v[j] == m; }
  }

  /**
   * The index over one sequence. Sequences of one or two values keep no
   * tree: every query over them is a short range.
   */
  class Rmq {
    const values: seq<int>
    /** The Cartesian tree's links (empty when no tree is built). */
    const parent: seq<int>
    const left: seq<int>
    const right: seq<int>
    const root: nat
    /** The lowest-common-ancestor index over the Cartesian tree, null when no tree is built. */
    const index: LcaIndex?

    ghost predicate Valid() {
      && |values| >= 1
      && (index != null <==> |values| > 2)
      && (index != null ==>
            && CartesianLinks(values, parent, left, right, root)
            && index.Valid() && index.tree == CartesianTree(values, parent, left, right, root))
    }

    /** RMQ::RMQ for a non-empty sequence: the tree and the index only from three values on. */
    constructor (s: seq<int>)
      requires |s| >= 1
      ensures Valid() && values == s
    {
      values := s;
      if |s| > 2 {
        var p, l, r, q := BuildCartesianTree(s);
        CartesianWellFormed(s, p, l, r, q);
        var t := CartesianTree(s, p, l, r, q);
        var x := new LcaIndex(t);
        parent, left, right, root, index := p, l, r, q, x;
      } else {
        parent, left, right, root, index := [], [], [], 0, null;
      }
    }

    /** RMQ::RMQ including its check: an empty sequence is an invalid argument. */
    static method Create(s: seq<int>) returns (r: Result<Rmq>)
      ensures r.Err? <==> |s| == 0
      ensures r.Err? ==> r.error == InvalidArgument
      ensures r.Ok? ==> fresh(r.value) && r.value.Valid() && r.value.values == s
    {
      if |s| == 0 {
        return Err(InvalidArgument);
      }
      var x := new Rmq(s);
      return Ok(x);
    }

    /** The lowest common ancestor of two range ends is the position of the range's minimum. */
    lemma LcaIsRangeMin(i: nat, j: nat)
      requires Valid() && index != null && i < |values| && j < |values|
      ensures index.Lca(i, j).Ok?
      ensures IsMinOf(values, values[index.Lca(i, j).value], if i <= j then i else j, if i <= j then j else i)
    {
      var lo, hi := if i <= j then i else j, if i <= j then j else i;
      var t := CartesianTree(values, parent, left, right, root);
      CartesianLca(values, parent, left, right, root, i, j);
      var a := index.Lca(i, j).value;
      LcaUnique(t, a, RangeTop(values, lo, hi), i, j);
      TopIsMinOf(values, lo, hi, a);
    }

    /**
     * RMQ::rangeMin: OutOfRange for an index outside the sequence, the
     * smaller of the two values when the ends are at most one apart, and
     * otherwise the value at the lowest common ancestor of the ends.
     */
    function RangeMin(i: int, j: int): (r: Result<int>)
      requires Valid()
      ensures r.Err? <==> !(0 <= i < |values| && 0 <= j < |values|)
      ensures r.Err? ==> r.error == OutOfRange
      ensures r.Ok? ==> IsMinOf(values, r.value, if i <= j then i else j, if i <= j then j else i)
    {
      if i < 0 || j < 0 || i >= |values| || j >= |values| then Err(OutOfRange)
      else if (if i <= j then j - i else i - j) < 2 then
        ShortRange(values, i, j);
        Ok(if values[i] < values[j] then values[i] else values[j])
      else
        LcaIsRangeMin(i, j);
        Ok(values[index.Lca(i, j).value])
    }

    /** Over an ordered range the query answers the range's minimum value. */
    lemma RangeMinIs(lo: int, hi: int, m: int)
      requires Valid() && 0 <= lo <= hi < |values| && IsMinOf(values, m, lo, hi)
      ensures RangeMin(lo, hi) == Ok(m)
    {
      MinOfUnique(values, RangeMin(lo, hi).value, m, lo, hi);
    }

    /** A range has the same minimum whichever end is given first. */
    lemma RangeMinSymmetric(i: int, j: int)
      requires Valid()
      ensures RangeMin(i, j) == RangeMin(j, i)
    {
      var a, b := RangeMin(i, j), RangeMin(j, i);
      if a.Ok? {
        var lo, hi := if i <= j then i else j, if i <= j then j else i;
        assert (if j <= i then j else i) == lo && (if j <= i then i else j) == hi;
        MinOfUnique(values, a.value, b.value, lo, hi);
      }
    }

    /**
     * RMQ::rangeMin as written: for ends two or more apart it returns the
     * LCA itself, a position in the sequence, not the value found there.
     */
    function RangeMinAsWritten(i: int, j: int): (r: Result<int>)
      requires Valid()
      ensures r.Err? <==> !(0 <= i < |values| && 0 <= j < |values|)
      ensures r.Ok? && (if i <= j then j - i else i - j) >= 2 ==>
        r.value == RangeTop(values, if i <= j then i else j, if i <= j then j else i)
    {
      if i < 0 || j < 0 || i >= |values| || j >= |values| then Err(OutOfRange)
      else if (if i <= j then j - i else i - j) < 2 then
        Ok(if values[i] < values[j] then values[i] else values[j])
      else
        var lo, hi := if i <= j then i else j, if i <= j then j else i;
        CartesianLca(values, parent, left, right, root, i, j);
        LcaUnique(CartesianTree(values, parent, left, right, root), index.Lca(i, j).value, RangeTop(values, lo, hi), i, j);
        Ok(index.Lca(i, j).value)
    }

    /** Over [5, 3, 7] the query (0, 2) answers position 1 as written, where the minimum is 3. */
    lemma AsWrittenReturnsPosition()
      requires Valid() && values == [5, 3, 7]
      ensures RangeMinAsWritten(0, 2) == Ok(1)
      ensures RangeMin(0, 2) == Ok(3)
    {
      RangeTopIsMinimum(values, 0, 2);
      assert values[RangeTop(values, 0, 2)] <= values[1];
      var r := RangeMin(0, 2);
      var k :| 0 <= k <= 2 && values[k] == r.value;
      assert r.value <= values[1];
    }
  }

  /**
   * The tree RMQ::buildCartesianTree hands to the LCA preprocessing as
   * written: values, parent links and root are set, while the inherited
   * child lists keep the zero entries the default LCA constructor leaves.
   */
  function AsWrittenTree(v: seq<int>, parent: seq<int>, root: nat): (t: Tree) {
    Tree(v, parent, [], root)
  }

  /**
   * The root buildCartesianTree records is a position of the sequence, but
   * the child list the Euler tour reads first, that of the root, lies past
   * the end of the child lists; the tree is not shaped either.
   */
  lemma AsWrittenTourReadsPastEnd(v: seq<int>, parent: seq<int>, left: seq<int>, right: seq<int>, root: nat)
    requires CartesianLinks(v, parent, left, right, root)
    ensures AsWrittenTree(v, parent, root).root == root < |v|
    ensures |AsWrittenTree(v, parent, root).children| <= AsWrittenTree(v, parent, root).root
    ensures !Shaped(AsWrittenTree(v, parent, root))
  {
  }
}

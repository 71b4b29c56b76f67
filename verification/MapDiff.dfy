/** The differences of two maps, as one sequence of keys. */
module MapDiff {
  import opened Keys
  import opened Trees
  import opened Ranges
  import opened Diffs
  import opened KeyMerge
  import opened Iterators
  import opened Outcomes

  lemma {:induction false} IndicesCovered(ranges: seq<IndexRange>, i: nat)
    ensures i in Indices(ranges) <==> Covered(ranges, i)
    decreases |ranges|
  {
    if ranges != [] {
      IndicesCovered(ranges[1..], i);
      CoveredFirst(ranges, i);
      assert i in Span(ranges[0]) <==> In(ranges[0], i) by {
        if In(ranges[0], i) {
          assert Span(ranges[0])[i - ranges[0].start] == i;
        }
      }
    }
  }

  lemma CoveredFirst(ranges: seq<IndexRange>, i: int)
    requires ranges != []
    ensures Covered(ranges, i) <==> In(ranges[0], i) || Covered(ranges[1..], i)
  {
    if k :| 0 <= k < |ranges| && In(ranges[k], i) {
      assert k > 0 ==> In(ranges[1..][k - 1], i);
    }
    if k :| 0 <= k < |ranges[1..]| && In(ranges[1..][k], i) {
      assert In(ranges[k + 1], i);
    }
  }

  /** The ranges hold exactly the elements of `l` that `r` lacks, and those in `out`. */
  ghost predicate DiffRanges(l: seq<Entry>, r: seq<Entry>, out: set<Entry>, ranges: seq<IndexRange>) {
    InOrder(ranges, |l|) && forall i :: Covered(ranges, i) <==> 0 <= i < |l| && (l[i] !in r || l[i] in out)
  }

  /** A key is among the keys of the ranges exactly if the element under it is not under
      it on the other side, or in `out`. */
  lemma DiffKeys(l: seq<Entry>, r: seq<Entry>, out: set<Entry>, ranges: seq<IndexRange>, key: Slice)
    requires Sorted(ByKey, l) && Sorted(ByKey, r) && DiffRanges(l, r, out, ranges)
    ensures Bytes(key) in KeysOf(ByKey, l, ranges) <==>
            Lookup(l, key).Some? && (Lookup(l, key) != Lookup(r, key) || Lookup(l, key).value in out)
  {
    var ks := KeysOf(ByKey, l, ranges);
    LookupFinds(l, key);
    LookupFinds(r, key);
    if Bytes(key) in ks {
      var p :| 0 <= p < |ks| && ks[p] == Bytes(key);
      var i := Indices(ranges)[p];
      IndicesCovered(ranges, i);
      LookupIs(l, l[i]);
    }
    if Lookup(l, key).Some? && (Lookup(l, key) != Lookup(r, key) || Lookup(l, key).value in out) {
      var x := Lookup(l, key).value;
      var i :| 0 <= i < |l| && l[i] == x;
      if x in r {
        LookupIs(r, x);
      }
      IndicesCovered(ranges, i);
      var p :| 0 <= p < |Indices(ranges)| && Indices(ranges)[p] == i;
      assert ks[p] == Bytes(key);
    }
  }

  lemma MaximalInOrder(l: seq<Entry>, r: seq<Entry>, out: set<Entry>, ranges: seq<IndexRange>)
    requires Maximal(ranges)
    requires forall i :: Covered(ranges, i) <==> 0 <= i < |l| && (l[i] !in r || l[i] in out)
    ensures DiffRanges(l, r, out, ranges)
  {
    forall k | 0 <= k < |ranges| ensures ranges[k].num > 0 && ranges[k].Upper() <= |l| {
      assert In(ranges[k], ranges[k].Upper() - 1);
      assert Covered(ranges, ranges[k].Upper() - 1);
    }
  }

  /** The element under a key is overlooked when one map is compared with the other. */
  ghost predicate OverlooksKey(lhs: Tree, rhs: Tree, key: Slice) {
    Lookup(Flatten(lhs), key).Some? && Overlooks(lhs, rhs, Lookup(Flatten(lhs), key).value)
  }

  /** Iterates over exactly the keys under which two maps differ, in order, and those that a
      comparison overlooks. */
  method DuallyDiff(lhs: Tree, rhs: Tree) returns (it: DuallyDiffIterator)
    requires IsTree(ByKey, lhs) && IsTree(ByKey, rhs)
    ensures fresh(it) && it.Valid() && it.place == 0
    ensures Increasing(it.keys)
    ensures forall key :: Bytes(key) in it.keys <==>
      || Lookup(Flatten(lhs), key) != Lookup(Flatten(rhs), key)
      || OverlooksKey(lhs, rhs, key) || OverlooksKey(rhs, lhs, key)
  {
    var l, r := Flatten(lhs), Flatten(rhs);
    var lhsRanges := KeyDiff(lhs, rhs);
    MaximalInOrder(l, r, Unseen(lhs, rhs), lhsRanges);
    var rhsRanges := KeyDiff(rhs, lhs);
    MaximalInOrder(r, l, Unseen(rhs, lhs), rhsRanges);
    var lhsIt := new CursorIterator(l, lhsRanges);
    var rhsIt := new CursorIterator(r, rhsRanges);
    var _ := lhsIt.Previous();
    var _ := rhsIt.Previous();
    it := new DuallyDiffIterator(ByKey, lhsIt, rhsIt);
    forall key ensures Bytes(key) in it.keys <==>
      || Lookup(l, key) != Lookup(r, key) || OverlooksKey(lhs, rhs, key) || OverlooksKey(rhs, lhs, key)
    {
      DiffKeys(l, r, Unseen(lhs, rhs), lhsRanges, key);
      DiffKeys(r, l, Unseen(rhs, lhs), rhsRanges, key);
      LookupFinds(l, key);
      LookupFinds(r, key);
    }
  }
}

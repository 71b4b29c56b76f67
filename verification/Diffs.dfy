/** Whole-tree comparisons: differ, intersector and mapper, by position and by key. */
module Diffs {
  import opened Keys
  import opened Trees
  import opened Ranges
  import opened Overlap
  import opened Leaves
  import opened Comparator
  import opened Overlooked
  import opened Outcomes

  /** A tree the comparator may be given: its cached counts and keys are right, and its
      elements are in strict key order. */
  ghost predicate IsTree(kt: KeyTrait, t: Tree) {
    WellFormed(kt, t) && Sorted(kt, Flatten(t))
  }

  // ----- what goes wrong

  /** Comparing two lists meets a pair of equal nodes at different positions. */
  ghost predicate Misaligned(lhs: Tree, rhs: Tree) {
    && Flatten(lhs) != [] && Flatten(rhs) != [] && WellShaped(lhs)
    && Misplaced(ByIndex, lhs, 0, MinKey(ByIndex), rhs, 0)
  }

  /** Comparing two maps, the search of `rhs` passes element `x` by. */
  ghost predicate Overlooks(lhs: Tree, rhs: Tree, x: Entry) {
    Flatten(lhs) != [] && WellShaped(lhs) && PassedBy(Flatten(rhs), lhs, rhs, 0, x)
  }

  /** No list longer than the other, no misalignment: the node the search returns encloses
      the left one, so an equal node starts where it starts. */
  lemma ShorterIsAligned(lhs: Tree, rhs: Tree)
    requires IsTree(ByIndex, lhs) && IsTree(ByIndex, rhs) && |Flatten(lhs)| <= |Flatten(rhs)|
    ensures !Misaligned(lhs, rhs)
  {
    if Flatten(lhs) != [] {
      RootComparable(lhs, rhs);
      EnclosedNotMisplaced(Flatten(lhs), Flatten(rhs), lhs, 0, MinKey(ByIndex), rhs, 0);
    }
  }

  lemma RootComparable(lhs: Tree, rhs: Tree)
    requires IsTree(ByIndex, lhs) && IsTree(ByIndex, rhs) && Flatten(lhs) != []
    ensures Comparable(ByIndex, Flatten(lhs), Flatten(rhs), lhs, 0, MinKey(ByIndex), rhs, 0)
  {
    WellFormedIsShaped(ByIndex, lhs);
  }

  lemma {:induction false} EnclosedNotMisplaced(l: seq<Entry>, r: seq<Entry>, lhs: Tree, ls: nat, min: OrderedKey,
                                                rhs: Tree, rs: nat)
    requires Comparable(ByIndex, l, r, lhs, ls, min, rhs, rs) && ls + |Flatten(lhs)| <= |r|
    ensures !Misplaced(ByIndex, lhs, ls, min, rhs, rs)
    decreases lhs, if lhs.Meta? then |lhs.children| + 1 else 0
  {
    var (d, ds) := Deepest(ByIndex, min, NodeMaxKey(ByIndex, lhs, ls), rhs, rs);
    Found(ByIndex, l, r, lhs, ls, min, rhs, rs, d, ds);
    if lhs == d {
      if ls != ds {
        MisplacedWrong(Differ, l, r, d, ls, min, ds);
      }
    } else if lhs.Meta? && d.Meta? {
      assert lhs.children[..0] == [] && lhs.children[0..] == lhs.children;
      EnclosedChildren(l, r, lhs, ls, min, d, ds, 0, min);
    }
  }

  lemma {:induction false} EnclosedChildren(l: seq<Entry>, r: seq<Entry>, lhs: Tree, ls: nat, min: OrderedKey,
                                            rhs: Tree, rs: nat, i: nat, childMin: OrderedKey)
    requires Comparable(ByIndex, l, r, lhs, ls, min, rhs, rs) && ls + |Flatten(lhs)| <= |r|
    requires lhs.Meta? && i <= |lhs.children| && IsMinOf(ByIndex, l, lhs, ls, min, i, childMin)
    ensures !MisplacedFrom(ByIndex, lhs.children[i..], ls + SumElements(lhs.children[..i]), childMin, rhs, rs)
    decreases lhs, |lhs.children| - i
  {
    if i < |lhs.children| {
      var child, start := lhs.children[i], ls + SumElements(lhs.children[..i]);
      ChildComparable(ByIndex, l, r, lhs, ls, min, rhs, rs, i, childMin);
      ChildOccupies(ByIndex, l, lhs, ls, i);
      EnclosedNotMisplaced(l, r, child.node, start, childMin, rhs, rs);
      NextMin(ByIndex, l, lhs, ls, min, i);
      EnclosedChildren(l, r, lhs, ls, min, rhs, rs, i + 1, NodeMaxKey(ByIndex, child.node, start));
      MisplacedStep(ByIndex, lhs.children, i, start, childMin, rhs, rs);
    }
  }

  lemma {:induction false} KeysNotMisplaced(lhs: Tree, ls: nat, min: OrderedKey, rhs: Tree, rs: nat)
    requires WellShaped(lhs)
    ensures !Misplaced(ByKey, lhs, ls, min, rhs, rs)
    decreases lhs, 0
  {
    var (d, ds) := Deepest(ByKey, min, NodeMaxKey(ByKey, lhs, ls), rhs, rs);
    if lhs != d && lhs.Meta? {
      KeysNotMisplacedFrom(lhs.children, ls, min, d, ds);
    }
  }

  lemma {:induction false} KeysNotMisplacedFrom(cs: seq<MetaEntry>, start: nat, min: OrderedKey, rhs: Tree, rs: nat)
    requires forall i :: 0 <= i < |cs| ==> WellShaped(cs[i].node)
    ensures !MisplacedFrom(ByKey, cs, start, min, rhs, rs)
    decreases cs, 0
  {
    if cs != [] {
      KeysNotMisplaced(cs[0].node, start, min, rhs, rs);
      KeysNotMisplacedFrom(cs[1..], start + cs[0].numElements, NodeMaxKey(ByKey, cs[0].node, start), rhs, rs);
    }
  }

  /** An element is overlooked only if its key is at most the smallest key, and only if some
      right node ends with such a key. */
  lemma OverlooksSmall(lhs: Tree, rhs: Tree, x: Entry)
    requires IsTree(ByKey, lhs) && IsTree(ByKey, rhs) && Overlooks(lhs, rhs, x)
    ensures AtMost(Bytes(x.key), MinKey(ByKey)) && !Clear(rhs, MinKey(ByKey))
  {
    PassedIsSmall(Flatten(lhs), Flatten(rhs), lhs, rhs, 0, x);
    if Clear(rhs, MinKey(ByKey)) {
      ClearNotPassed(Flatten(rhs), lhs, rhs, 0, x);
      assert false;
    }
  }

  /** The window of an element of a map holds it exactly if it is on the right and not
      overlooked. */
  lemma SeenByKey(lhs: Tree, rhs: Tree, i: nat)
    requires IsTree(ByKey, lhs) && IsTree(ByKey, rhs) && i < |Flatten(lhs)|
    ensures WellShaped(lhs)
    ensures Common(ByKey, Flatten(lhs), Flatten(rhs), Windows(ByKey, lhs, 0, MinKey(ByKey), rhs, 0)[i], i) <==>
            Flatten(lhs)[i] in Flatten(rhs) && !Overlooks(lhs, rhs, Flatten(lhs)[i])
  {
    WellFormedIsShaped(ByKey, lhs);
    var l, r, w := Flatten(lhs), Flatten(rhs), Windows(ByKey, lhs, 0, MinKey(ByKey), rhs, 0)[i];
    if Common(ByKey, l, r, w, i) {
      var j :| In(w, j) && j < |r| && Match(ByKey, l, r, i, j);
      PassedIsOutside(l, r, lhs, rhs, 0, i, j);
    }
    if l[i] in r && !Overlooks(lhs, rhs, l[i]) {
      var j :| 0 <= j < |r| && r[j] == l[i];
      PassedIsOutside(l, r, lhs, rhs, 0, i, j);
      assert Match(ByKey, l, r, i, j);
    }
  }

  /** The window of an element of a list holds the element at its position, if there is one. */
  lemma SeenByIndex(lhs: Tree, rhs: Tree, i: nat)
    requires IsTree(ByIndex, lhs) && IsTree(ByIndex, rhs) && i < |Flatten(lhs)|
    ensures WellShaped(lhs)
    ensures Common(ByIndex, Flatten(lhs), Flatten(rhs), Windows(ByIndex, lhs, 0, MinKey(ByIndex), rhs, 0)[i], i) <==>
            SameAt(Flatten(lhs), Flatten(rhs), i)
  {
    var l, r := Flatten(lhs), Flatten(rhs);
    RootComparable(lhs, rhs);
    if i < |r| {
      WindowsKeep(ByIndex, l, r, lhs, 0, MinKey(ByIndex), rhs, 0, i, i);
      assert SameAt(l, r, i) ==> Match(ByIndex, l, r, i, i);
    }
  }

  ghost predicate SameAt(l: seq<Entry>, r: seq<Entry>, i: nat)
    requires i < |l|
  {
    i < |r| && l[i].data == r[i].data
  }

  // ----- the comparisons

  /** Every element is reported rightly as far as its window goes, unless lists are misaligned. */
  method Compare(tr: Traverser, kt: KeyTrait, lhs: Tree, rhs: Tree) returns (ps: seq<Piece>)
    requires IsTree(kt, lhs) && IsTree(kt, rhs) && Flatten(lhs) != []
    ensures WellShaped(lhs) && Within(tr, ps, 0, |Flatten(lhs)|)
    ensures Right(tr, kt, Flatten(lhs), Flatten(rhs), Windows(kt, lhs, 0, MinKey(kt), rhs, 0), ps, 0) <==>
            kt.ByKey? || !Misplaced(kt, lhs, 0, MinKey(kt), rhs, 0)
  {
    WellFormedIsShaped(kt, lhs);
    if kt.ByIndex? {
      RootComparable(lhs, rhs);
    } else {
      KeysNotMisplaced(lhs, 0, MinKey(kt), rhs, 0);
    }
    ps := CompareNodes(tr, kt, lhs, 0, MinKey(kt), rhs, 0, Flatten(lhs), Flatten(rhs));
  }

  function LeftRanges(ps: seq<Piece>): seq<IndexRange> {
    seq(|ps|, k requires 0 <= k < |ps| => ps[k].lhs)
  }

  lemma LeftRangesOrdered(tr: Traverser, ps: seq<Piece>, to: nat)
    requires Within(tr, ps, 0, to)
    ensures Ordered(LeftRanges(ps))
    ensures forall i :: Covered(LeftRanges(ps), i) <==> Reported(ps, i)
    ensures forall i :: Reported(ps, i) ==> 0 <= i < to
  {
    var rs := LeftRanges(ps);
    forall k | 0 <= k < |ps| ensures rs[k].num > 0 { assert Fits(tr, ps[k], 0, to); }
    forall i ensures Covered(rs, i) <==> Reported(ps, i) {
      if Covered(rs, i) {
        var k :| 0 <= k < |rs| && In(rs[k], i);
        assert In(ps[k].lhs, i);
      }
      if Reported(ps, i) {
        var k :| 0 <= k < |ps| && In(ps[k].lhs, i);
        assert In(rs[k], i);
      }
    }
    forall i | Reported(ps, i) ensures 0 <= i < to {
      var k :| 0 <= k < |ps| && In(ps[k].lhs, i);
      assert Fits(tr, ps[k], 0, to);
    }
  }

  /** The index ranges of a comparison, compacted. */
  method CompareRanges(tr: Traverser, kt: KeyTrait, lhs: Tree, rhs: Tree) returns (ranges: seq<IndexRange>)
    requires IsTree(kt, lhs) && IsTree(kt, rhs) && Flatten(lhs) != [] && !tr.Mapper?
    ensures WellShaped(lhs) && Maximal(ranges) && forall i :: Covered(ranges, i) ==> 0 <= i < |Flatten(lhs)|
    ensures var ws := Windows(kt, lhs, 0, MinKey(kt), rhs, 0);
      (forall i :: 0 <= i < |Flatten(lhs)| ==>
         (Covered(ranges, i) <==> Selected(tr, kt, Flatten(lhs), Flatten(rhs), ws[i], i))) <==>
      kt.ByKey? || !Misplaced(kt, lhs, 0, MinKey(kt), rhs, 0)
  {
    var ps := Compare(tr, kt, lhs, rhs);
    LeftRangesOrdered(tr, ps, |Flatten(lhs)|);
    var compacted := Compact(LeftRanges(ps));
    ranges := compacted.value;
    RangesRight(tr, kt, Flatten(lhs), Flatten(rhs), Windows(kt, lhs, 0, MinKey(kt), rhs, 0), ps);
    assert forall i :: Covered(ranges, i) <==> Reported(ps, i);
  }

  lemma RangesRight(tr: Traverser, kt: KeyTrait, l: seq<Entry>, r: seq<Entry>, ws: seq<IndexRange>, ps: seq<Piece>)
    requires Within(tr, ps, 0, |l|) && !tr.Mapper? && |ws| == |l|
    ensures Right(tr, kt, l, r, ws, ps, 0) <==>
            forall i :: 0 <= i < |l| ==> (Reported(ps, i) <==> Selected(tr, kt, l, r, ws[i], i))
  {
    forall i | 0 <= i < |l|
      ensures RightAt(tr, kt, l, r, ws[i], ps, i) <==> (Reported(ps, i) <==> Selected(tr, kt, l, r, ws[i], i))
    {
      assert forall k :: 0 <= k < |ps| ==> Fits(tr, ps[k], 0, |l|);
    }
    if Right(tr, kt, l, r, ws, ps, 0) {
      forall i | 0 <= i < |l| ensures Reported(ps, i) <==> Selected(tr, kt, l, r, ws[i], i) {
        assert RightAt(tr, kt, l, r, ws[i], ps, 0 + i);
      }
    }
  }

  lemma WholeRange(n: nat)
    requires n > 0
    ensures Maximal([IndexRange(0, n)]) && forall i :: Covered([IndexRange(0, n)], i) <==> 0 <= i < n
  {
    forall i ensures Covered([IndexRange(0, n)], i) <==> 0 <= i < n {
      if 0 <= i < n {
        assert In([IndexRange(0, n)][0], i);
      }
    }
  }

  /** The elements of a map or set that the other lacks, and those it overlooks. Together
      with `KeyIntersect` this splits the indices of `lhs`; nothing else goes wrong. */
  method KeyDiff(lhs: Tree, rhs: Tree) returns (ranges: seq<IndexRange>)
    requires IsTree(ByKey, lhs) && IsTree(ByKey, rhs)
    ensures Maximal(ranges)
    ensures forall i :: Covered(ranges, i) <==>
      && 0 <= i < |Flatten(lhs)|
      && (Flatten(lhs)[i] !in Flatten(rhs) || Overlooks(lhs, rhs, Flatten(lhs)[i]))
  {
    NumElementsIsLength(ByKey, lhs);
    NumElementsIsLength(ByKey, rhs);
    if NumElements(lhs) == 0 {
      ranges := [];
    } else if NumElements(rhs) == 0 {
      ranges := [IndexRange(0, NumElements(lhs))];
      WholeRange(NumElements(lhs));
    } else {
      ranges := CompareRanges(Differ, ByKey, lhs, rhs);
      forall i | 0 <= i < |Flatten(lhs)| { SeenByKey(lhs, rhs, i); }
    }
  }

  method KeyIntersect(lhs: Tree, rhs: Tree) returns (ranges: seq<IndexRange>)
    requires IsTree(ByKey, lhs) && IsTree(ByKey, rhs)
    ensures Maximal(ranges)
    ensures forall i :: Covered(ranges, i) <==>
      && 0 <= i < |Flatten(lhs)|
      && Flatten(lhs)[i] in Flatten(rhs) && !Overlooks(lhs, rhs, Flatten(lhs)[i])
  {
    NumElementsIsLength(ByKey, lhs);
    NumElementsIsLength(ByKey, rhs);
    if NumElements(lhs) == 0 || NumElements(rhs) == 0 {
      ranges := [];
    } else {
      ranges := CompareRanges(Intersector, ByKey, lhs, rhs);
      forall i | 0 <= i < |Flatten(lhs)| { SeenByKey(lhs, rhs, i); }
    }
  }

  /** The positions at which a list differs from another. The answer is the position by
      position comparison exactly if the lists are not misaligned, which they never are for
      a list no longer than the other. */
  method IndexDiff(lhs: Tree, rhs: Tree) returns (ranges: seq<IndexRange>)
    requires IsTree(ByIndex, lhs) && IsTree(ByIndex, rhs)
    ensures Maximal(ranges) && forall i :: Covered(ranges, i) ==> 0 <= i < |Flatten(lhs)|
    ensures (forall i :: 0 <= i < |Flatten(lhs)| ==>
               (Covered(ranges, i) <==> !SameAt(Flatten(lhs), Flatten(rhs), i))) <==>
            !Misaligned(lhs, rhs)
  {
    NumElementsIsLength(ByIndex, lhs);
    NumElementsIsLength(ByIndex, rhs);
    if NumElements(lhs) == 0 {
      ranges := [];
    } else if NumElements(rhs) == 0 {
      ranges := [IndexRange(0, NumElements(lhs))];
      WholeRange(NumElements(lhs));
    } else {
      ranges := CompareRanges(Differ, ByIndex, lhs, rhs);
      forall i | 0 <= i < |Flatten(lhs)| { SeenByIndex(lhs, rhs, i); }
    }
  }

  method IndexIntersect(lhs: Tree, rhs: Tree) returns (ranges: seq<IndexRange>)
    requires IsTree(ByIndex, lhs) && IsTree(ByIndex, rhs)
    ensures Maximal(ranges) && forall i :: Covered(ranges, i) ==> 0 <= i < |Flatten(lhs)|
    ensures (forall i :: 0 <= i < |Flatten(lhs)| ==>
               (Covered(ranges, i) <==> SameAt(Flatten(lhs), Flatten(rhs), i))) <==>
            !Misaligned(lhs, rhs)
  {
    NumElementsIsLength(ByIndex, lhs);
    NumElementsIsLength(ByIndex, rhs);
    if NumElements(lhs) == 0 || NumElements(rhs) == 0 {
      ranges := [];
    } else {
      ranges := CompareRanges(Intersector, ByIndex, lhs, rhs);
      forall i | 0 <= i < |Flatten(lhs)| { SeenByIndex(lhs, rhs, i); }
    }
  }

  lemma LeafFirst(x: Entry, t: MetaEntry, rest: seq<MetaEntry>)
    requires t.numElements == 1 && t.node == Leaf([x])
    ensures FlattenAll([t] + rest) == [x] + FlattenAll(rest) && SumElements([t] + rest) == 1 + SumElements(rest)
  {
    assert ([t] + rest)[1..] == rest;
  }

  /** A longer list can be misaligned: the last leaf of `lhs` equals the last leaf of
      `rhs`, which stands one position earlier. */
  lemma LongerCanBeMisaligned(a: Entry, b: Entry, c: Entry, d: Entry) returns (lhs: Tree, rhs: Tree)
    ensures IsTree(ByIndex, lhs) && IsTree(ByIndex, rhs)
    ensures Flatten(lhs) == [c, d, b] && Flatten(rhs) == [a, b]
    ensures Misaligned(lhs, rhs)
  {
    var ta, tb := MetaEntry(1, a.key, Leaf([a])), MetaEntry(1, b.key, Leaf([b]));
    var tc, td := MetaEntry(1, c.key, Leaf([c])), MetaEntry(1, d.key, Leaf([d]));
    var ls, rs := [tc] + ([td] + ([tb] + [])), [ta] + ([tb] + []);
    lhs, rhs := Meta(ls), Meta(rs);
    LeafFirst(b, tb, []);
    LeafFirst(d, td, [tb]);
    LeafFirst(c, tc, [td] + [tb]);
    LeafFirst(a, ta, [tb]);
    assert ls[1..] == [td, tb] && ls[1..][1..] == [tb] && rs[1..] == [tb];
    assert Pick(ByIndex, Value(0), Value(3), rs, 1, 1, Value(1)).None?;
    assert Deepest(ByIndex, Value(0), Value(3), rhs, 0) == (rhs, 0);
    assert Pick(ByIndex, Value(2), Value(3), rs, 1, 1, Value(1)) == Some((1, 1));
    assert Deepest(ByIndex, Value(2), Value(3), rhs, 0) == (tb.node, 1);
    assert Misplaced(ByIndex, tb.node, 2, Value(2), rhs, 0);
    assert MisplacedFrom(ByIndex, [tb], 2, Value(2), rhs, 0);
    assert MisplacedFrom(ByIndex, [td, tb], 1, Value(1), rhs, 0);
  }

  /** Keys up to the smallest key can be missed: the first leaf of `rhs` holds just the
      smallest key, and the search passes it by. */
  lemma SmallestKeyCanBeMissed(x: Entry, y: Entry) returns (lhs: Tree, rhs: Tree)
    requires Bytes(x.key) == MinKey(ByKey) && SliceLess(x.key, y.key)
    ensures IsTree(ByKey, lhs) && IsTree(ByKey, rhs) && Flatten(lhs) == Flatten(rhs) == [x, y]
    ensures Overlooks(lhs, rhs, x)
  {
    var cx, cy := MetaEntry(1, x.key, Leaf([x])), MetaEntry(1, y.key, Leaf([y]));
    var cs := [cx, cy];
    lhs, rhs := Leaf([x, y]), Meta(cs);
    SliceTrichotomy(x.key, y.key);
    SliceTrichotomy(x.key, x.key);
    LeafFirst(y, cy, []);
    LeafFirst(x, cx, [cy]);
    assert [cy] + [] == [cy] && [cx] + [cy] == cs;
    assert Pick(ByKey, Bytes(x.key), Bytes(y.key), cs, 1, 1, Bytes(x.key)) == Some((1, 1));
    assert Deepest(ByKey, Bytes(x.key), Bytes(y.key), rhs, 0) == (Leaf([y]), 1);
    assert Flatten(rhs)[0] == x;
  }

  // ----- the mapper

  function RangeMaps(ps: seq<Piece>): seq<RangeMap>
    requires forall k :: 0 <= k < |ps| ==> ps[k].Map?
  {
    seq(|ps|, k requires 0 <= k < |ps| => RangeMap(ps[k].lhs, ps[k].rhs))
  }

  /** Pieces of a mapper that pair every element rightly, as far as its window goes. */
  ghost predicate Mapped(l: seq<Entry>, r: seq<Entry>, ws: seq<IndexRange>, ps: seq<Piece>) {
    && Sorted(ByKey, l) && Sorted(ByKey, r) && |ws| == |l|
    && (forall k :: 0 <= k < |ps| ==> ps[k].Map?)
    && Within(Mapper, ps, 0, |l|) && Right(Mapper, ByKey, l, r, ws, ps, 0)
  }

  lemma MappedAt(l: seq<Entry>, r: seq<Entry>, ws: seq<IndexRange>, ps: seq<Piece>, i: nat)
    requires Mapped(l, r, ws, ps) && i < |l|
    ensures RightAt(Mapper, ByKey, l, r, ws[i], ps, i)
  {
    assert RightAt(Mapper, ByKey, l, r, ws[i], ps, 0 + i);
  }

  lemma MapsOrdered(l: seq<Entry>, r: seq<Entry>, ws: seq<IndexRange>, ps: seq<Piece>)
    requires Mapped(l, r, ws, ps)
    ensures OrderedMaps(RangeMaps(ps))
  {
    forall k, m | 0 <= k < m < |ps| ensures ps[k].rhs.Upper() <= ps[m].rhs.start {
      assert Fits(Mapper, ps[k], 0, |l|) && Fits(Mapper, ps[m], 0, |l|);
      var i, i' := ps[k].lhs.Upper() - 1, ps[m].lhs.start;
      var j, j' := ps[k].rhs.Upper() - 1, ps[m].rhs.start;
      MappedAt(l, r, ws, ps, i);
      MappedAt(l, r, ws, ps, i');
      assert In(ps[k].lhs, i) && Match(ByKey, l, r, i, j);
      assert In(ps[m].lhs, i') && Match(ByKey, l, r, i', j');
      SortedReflects(ByKey, l, i, i');
      SortedReflects(ByKey, r, j, j');
    }
    forall k | 0 <= k < |ps| ensures ps[k].lhs.num == ps[k].rhs.num > 0 {
      assert Fits(Mapper, ps[k], 0, |l|);
    }
  }

  lemma PairsAreEqual(l: seq<Entry>, r: seq<Entry>, ws: seq<IndexRange>, ps: seq<Piece>, i: int, j: int)
    requires Mapped(l, r, ws, ps) && Paired(RangeMaps(ps), i, j)
    ensures 0 <= i < |l| && 0 <= j < |r| && l[i] == r[j] && Common(ByKey, l, r, ws[i], i)
  {
    var ms := RangeMaps(ps);
    var k :| 0 <= k < |ms| && Pairs(ms[k], i, j);
    assert Fits(Mapper, ps[k], 0, |l|) && In(ps[k].lhs, i);
    MappedAt(l, r, ws, ps, i);
  }

  lemma EqualsArePaired(l: seq<Entry>, r: seq<Entry>, ws: seq<IndexRange>, ps: seq<Piece>, i: int, j: int)
    requires Mapped(l, r, ws, ps)
    requires 0 <= i < |l| && 0 <= j < |r| && l[i] == r[j] && Common(ByKey, l, r, ws[i], i)
    ensures Paired(RangeMaps(ps), i, j)
  {
    MappedAt(l, r, ws, ps, i);
    var k :| 0 <= k < |ps| && In(ps[k].lhs, i);
    var j' := ps[k].rhs.start + (i - ps[k].lhs.start);
    assert Match(ByKey, l, r, i, j');
    SortedReflects(ByKey, r, j, j');
    assert Pairs(RangeMaps(ps)[k], i, j);
  }

  // ----- the mapper's reference: look every element up, then compact

  function IndexIn(s: seq<Entry>, x: Entry): (j: nat)
    requires x in s
    ensures j < |s| && s[j] == x
  {
    if s[0] == x then 0 else 1 + IndexIn(s[1..], x)
  }

  /** Pairs of equal elements, but for those in `out`. */
  function PairUp(l: seq<Entry>, r: seq<Entry>, out: set<Entry>, i: nat): seq<RangeMap>
    decreases |l| - i
  {
    if i >= |l| then []
    else if l[i] in r && l[i] !in out then
      [RangeMap(IndexRange(i, 1), IndexRange(IndexIn(r, l[i]), 1))] + PairUp(l, r, out, i + 1)
    else PairUp(l, r, out, i + 1)
  }

  function KeyMaps(l: seq<Entry>, r: seq<Entry>, out: set<Entry>): seq<RangeMap> {
    Compaction(PairUp(l, r, out, 0))
  }

  /** `m` pairs one element of `l`, not before `i`, with an equal one of `r`. */
  predicate IsPair(l: seq<Entry>, r: seq<Entry>, i: nat, m: RangeMap) {
    && m.lhs.num == m.rhs.num == 1 && i <= m.lhs.start < |l| && m.rhs.start < |r|
    && l[m.lhs.start] == r[m.rhs.start]
  }

  lemma {:induction false} PairUpPairs(l: seq<Entry>, r: seq<Entry>, out: set<Entry>, i: nat)
    requires Sorted(ByKey, l) && Sorted(ByKey, r)
    ensures forall k :: 0 <= k < |PairUp(l, r, out, i)| ==> IsPair(l, r, i, PairUp(l, r, out, i)[k])
    ensures OrderedMaps(PairUp(l, r, out, i))
    decreases |l| - i
  {
    if i < |l| {
      PairUpPairs(l, r, out, i + 1);
      if l[i] in r && l[i] !in out {
        var m, rest := RangeMap(IndexRange(i, 1), IndexRange(IndexIn(r, l[i]), 1)), PairUp(l, r, out, i + 1);
        forall k | 0 <= k < |rest| ensures m.rhs.start < rest[k].rhs.start && i < rest[k].lhs.start {
          assert IsPair(l, r, i + 1, rest[k]);
          SortedReflects(ByKey, l, i, rest[k].lhs.start);
          SortedReflects(ByKey, r, m.rhs.start, rest[k].rhs.start);
        }
      }
    }
  }

  lemma {:induction false} PairUpComplete(l: seq<Entry>, r: seq<Entry>, out: set<Entry>, i: nat, a: int, b: int)
    requires Sorted(ByKey, l) && Sorted(ByKey, r)
    ensures Paired(PairUp(l, r, out, i), a, b) <==>
            i <= a < |l| && 0 <= b < |r| && l[a] == r[b] && l[a] !in out
    decreases |l| - i
  {
    if i < |l| {
      PairUpComplete(l, r, out, i + 1, a, b);
      if l[i] in r && l[i] !in out {
        var j := IndexIn(r, l[i]);
        PairedPrepend(RangeMap(IndexRange(i, 1), IndexRange(j, 1)), PairUp(l, r, out, i + 1), a, b);
        if a == i && 0 <= b < |r| && l[a] == r[b] {
          SortedReflects(ByKey, r, j, b);
        }
      }
    }
  }

  /** The reference maps are maximal and pair exactly the equal elements, but for those left
      out. */
  lemma KeyMapsCorrect(l: seq<Entry>, r: seq<Entry>, out: set<Entry>)
    requires Sorted(ByKey, l) && Sorted(ByKey, r)
    ensures MaximalMaps(KeyMaps(l, r, out))
    ensures forall i, j :: Paired(KeyMaps(l, r, out), i, j) <==>
              0 <= i < |l| && 0 <= j < |r| && l[i] == r[j] && l[i] !in out
  {
    PairUpPairs(l, r, out, 0);
    CompactionMaximal(PairUp(l, r, out, 0));
    forall i, j { PairUpComplete(l, r, out, 0, i, j); }
  }

  /** The elements of `lhs` that comparing it with `rhs` overlooks. */
  ghost function Unseen(lhs: Tree, rhs: Tree): set<Entry> {
    set x | x in Flatten(lhs) && Overlooks(lhs, rhs, x)
  }

  /** Pairs every element of `lhs` that occurs in `rhs` and is not overlooked with its index
      there, and nothing else, as maximal runs that increase on both sides: the same maps as
      looking every element up and compacting. `None` is the fatal exit for a left tree
      without elements, whose last key is asked for. */
  method KeyMap(lhs: Tree, rhs: Tree) returns (maps: Option<seq<RangeMap>>)
    requires IsTree(ByKey, lhs) && IsTree(ByKey, rhs)
    ensures maps == if Flatten(lhs) == [] then None
                    else Some(KeyMaps(Flatten(lhs), Flatten(rhs), Unseen(lhs, rhs)))
  {
    ghost var l, r, out := Flatten(lhs), Flatten(rhs), Unseen(lhs, rhs);
    NumElementsIsLength(ByKey, lhs);
    if NumElements(lhs) == 0 {
      return None;
    }
    var ps := Compare(Mapper, ByKey, lhs, rhs);
    assert forall k :: 0 <= k < |ps| ==> Fits(Mapper, ps[k], 0, |l|);
    maps := CompactMaps(RangeMaps(ps));
    ghost var ws := Windows(ByKey, lhs, 0, MinKey(ByKey), rhs, 0);
    MapsOrdered(l, r, ws, ps);
    CompactionMaximal(RangeMaps(ps));
    KeyMapsCorrect(l, r, out);
    forall i, j ensures Paired(RangeMaps(ps), i, j) <==>
                        0 <= i < |l| && 0 <= j < |r| && l[i] == r[j] && l[i] !in out
    {
      MappedPairs(lhs, rhs, ws, ps, i, j);
    }
    MaximalMapsUnique(maps.value, KeyMaps(l, r, out));
  }

  lemma MappedPairs(lhs: Tree, rhs: Tree, ws: seq<IndexRange>, ps: seq<Piece>, i: int, j: int)
    requires IsTree(ByKey, lhs) && IsTree(ByKey, rhs) && Flatten(lhs) != [] && WellShaped(lhs)
    requires ws == Windows(ByKey, lhs, 0, MinKey(ByKey), rhs, 0) && Mapped(Flatten(lhs), Flatten(rhs), ws, ps)
    ensures Paired(RangeMaps(ps), i, j) <==>
            && 0 <= i < |Flatten(lhs)| && 0 <= j < |Flatten(rhs)|
            && Flatten(lhs)[i] == Flatten(rhs)[j] && Flatten(lhs)[i] !in Unseen(lhs, rhs)
  {
    var l, r := Flatten(lhs), Flatten(rhs);
    if Paired(RangeMaps(ps), i, j) {
      PairsAreEqual(l, r, ws, ps, i, j);
      SeenByKey(lhs, rhs, i);
    }
    if 0 <= i < |l| && 0 <= j < |r| && l[i] == r[j] && l[i] !in Unseen(lhs, rhs) {
      SeenByKey(lhs, rhs, i);
      EqualsArePaired(l, r, ws, ps, i, j);
    }
  }
}

/** The merge of two versions key by key. */
module KeyMerge {
  import opened Keys
  import opened Trees
  import opened Ranges
  import opened Edits
  import opened Diffs
  import opened Splices
  import opened Merger
  import opened MergeLaws
  import opened MergeOrder
  import opened Outcomes

  // ----- maps

  /** The element under a key. */
  function Lookup(s: seq<Entry>, key: Slice): Option<Entry> {
    if s == [] then None else if s[0].key == key then Some(s[0]) else Lookup(s[1..], key)
  }

  /** Under `key`, `r` holds the first version's change of the base if there is one, else
      what the second version holds. */
  ghost predicate ThreeWay(base: seq<Entry>, n1: seq<Entry>, n2: seq<Entry>, r: seq<Entry>, key: Slice) {
    Lookup(r, key) ==
      if Lookup(n1, key) != Lookup(base, key) then Lookup(n1, key) else Lookup(n2, key)
  }

  lemma {:induction false} LookupFinds(s: seq<Entry>, key: Slice)
    ensures Lookup(s, key).Some? ==> Lookup(s, key).value in s && Lookup(s, key).value.key == key
    decreases |s|
  {
    if s != [] {
      LookupFinds(s[1..], key);
    }
  }

  /** The element under a key of a sorted sequence. */
  lemma {:induction false} LookupIs(s: seq<Entry>, x: Entry)
    requires Sorted(ByKey, s) && x in s
    ensures Lookup(s, x.key) == Some(x)
    decreases |s|
  {
    if s[0] != x {
      var i :| 0 < i < |s| && s[i] == x;
      SortedReflects(ByKey, s, 0, i);
      SortedSlice(s, 1, |s|);
      assert s[1..|s|] == s[1..] && s[1..][i - 1] == x;
      LookupIs(s[1..], x);
    }
  }

  // ----- a merge in key order

  /** An element that replaces another under its key stands in the edit that removes it. */
  lemma StandsInstead(base: seq<Entry>, node: seq<Entry>, i: nat, z: Entry) returns (k: nat)
    requires Sorted(ByKey, base) && Sorted(ByKey, node) && i < |base| && base[i].key == z.key && base[i] != z
    requires z in node
    ensures k < |EditsOf(base, node)| && In(EditsOf(base, node)[k].lhs, i) && z in Content(node, EditsOf(base, node)[k])
  {
    var edits := EditsOf(base, node);
    if z in base {
      LookupIs(base, z);
      LookupIs(base, base[i]);
      assert false;
    }
    BringsNew(base, node, z);
    k :| k < |edits| && z in Content(node, edits[k]);
    ScriptFramed(base, node, edits, 0, 0);
    ContentStands(base, node, edits[k], z, i);
    SliceTrichotomy(z.key, z.key);
  }

  /** What one version removes the other does not replace. */
  lemma NotReplaced(base: seq<Entry>, n1: seq<Entry>, n2: seq<Entry>, y: Entry, z: Entry)
    requires Sorted(ByKey, base) && Sorted(ByKey, n1) && Sorted(ByKey, n2)
    requires MergeOf(true, base, n1, n2).Merged?
    requires y in base && y !in n1 && z in n2 && z.key == y.key && z != y
    ensures z in n1
  {
    var i :| 0 <= i < |base| && base[i] == y;
    var q := StandsInstead(base, n2, i, z);
    var p := RemovedBy(base, n1, i);
    NoClash(base, n1, n2, p, q);
    SharedContent(n1, n2, EditsOf(base, n1)[p], EditsOf(base, n2)[q], i, z);
  }

  lemma RemovedBy(base: seq<Entry>, node: seq<Entry>, i: nat) returns (p: nat)
    requires Sorted(ByKey, base) && Sorted(ByKey, node) && i < |base| && base[i] !in node
    ensures p < |EditsOf(base, node)| && In(EditsOf(base, node)[p].lhs, i)
  {
    EditsCover(base, node, i);
    p :| p < |EditsOf(base, node)| && In(EditsOf(base, node)[p].lhs, i);
  }

  /** Edits of one base element that do not clash bring in the same. */
  lemma SharedContent(n1: seq<Entry>, n2: seq<Entry>, e: RangeMap, f: RangeMap, i: nat, z: Entry)
    requires e.rhs.Upper() <= |n1| && f.rhs.Upper() <= |n2| && !Clash(true, n1, n2, e, f)
    requires In(e.lhs, i) && In(f.lhs, i) && z in Content(n2, f)
    ensures z in n1
  {
    assert Content(n1, e) == Content(n2, f);
    assert z in Content(n1, e);
  }

  lemma NoClash(base: seq<Entry>, n1: seq<Entry>, n2: seq<Entry>, p: nat, q: nat)
    requires Sorted(ByKey, base) && Sorted(ByKey, n1) && Sorted(ByKey, n2)
    requires MergeOf(true, base, n1, n2).Merged? && p < |EditsOf(base, n1)| && q < |EditsOf(base, n2)|
    ensures !Clash(true, n1, n2, EditsOf(base, n1)[p], EditsOf(base, n2)[q])
  {
    MergeOutcome(true, base, n1, n2);
  }

  lemma IntendedThreeWay(base: seq<Entry>, n1: seq<Entry>, n2: seq<Entry>, key: Slice)
    requires Sorted(ByKey, base) && Sorted(ByKey, n1) && Sorted(ByKey, n2)
    requires MergeOf(true, base, n1, n2).Merged? && Sorted(ByKey, MergeOf(true, base, n1, n2).elements)
    ensures ThreeWay(base, n1, n2, MergeOf(true, base, n1, n2).elements, key)
  {
    var r := MergeOf(true, base, n1, n2).elements;
    LookupFinds(r, key);
    var want := if Lookup(n1, key) != Lookup(base, key) then Lookup(n1, key) else Lookup(n2, key);
    if want.Some? {
      WantedIsThere(base, n1, n2, key);
      LookupIs(r, want.value);
    } else if Lookup(r, key).Some? {
      UnwantedIsNot(base, n1, n2, key, Lookup(r, key).value);
      assert false;
    }
  }

  /** Where a merge that goes through without mistaken edits is in key order, every key takes
      the first version's change if there is one, else the second's, else the base's value. */
  lemma MergeThreeWay(intended: bool, base: seq<Entry>, n1: seq<Entry>, n2: seq<Entry>, key: Slice)
    requires Sorted(ByKey, base) && Sorted(ByKey, n1) && Sorted(ByKey, n2)
    requires intended || !Mistakes(n1, n2, EditsOf(base, n1), EditsOf(base, n2))
    requires MergeOf(intended, base, n1, n2).Merged? && Sorted(ByKey, MergeOf(intended, base, n1, n2).elements)
    ensures ThreeWay(base, n1, n2, MergeOf(intended, base, n1, n2).elements, key)
  {
    MergeAsIntended(base, n1, n2);
    IntendedThreeWay(base, n1, n2, key);
  }

  lemma WantedIsThere(base: seq<Entry>, n1: seq<Entry>, n2: seq<Entry>, key: Slice)
    requires Sorted(ByKey, base) && Sorted(ByKey, n1) && Sorted(ByKey, n2)
    requires MergeOf(true, base, n1, n2).Merged?
    requires (if Lookup(n1, key) != Lookup(base, key) then Lookup(n1, key) else Lookup(n2, key)).Some?
    ensures var want := if Lookup(n1, key) != Lookup(base, key) then Lookup(n1, key) else Lookup(n2, key);
      want.value in MergeOf(true, base, n1, n2).elements && want.value.key == key
  {
    var x := (if Lookup(n1, key) != Lookup(base, key) then Lookup(n1, key) else Lookup(n2, key)).value;
    LookupFinds(n1, key);
    LookupFinds(n2, key);
    LookupFinds(base, key);
    if x in base {
      LookupIs(base, x);
    }
    MergeHolds(base, n1, n2, x);
  }

  lemma UnwantedIsNot(base: seq<Entry>, n1: seq<Entry>, n2: seq<Entry>, key: Slice, z: Entry)
    requires Sorted(ByKey, base) && Sorted(ByKey, n1) && Sorted(ByKey, n2)
    requires MergeOf(true, base, n1, n2).Merged?
    requires (if Lookup(n1, key) != Lookup(base, key) then Lookup(n1, key) else Lookup(n2, key)).None?
    requires z.key == key
    ensures z !in MergeOf(true, base, n1, n2).elements
  {
    MergeHolds(base, n1, n2, z);
    LookupFinds(base, key);
    if z in n1 { LookupIs(n1, z); }
    if z in n2 { LookupIs(n2, z); }
    if z in base { LookupIs(base, z); }
    if z in n2 && z !in base && z !in n1 && Lookup(base, key).Some? {
      var y := Lookup(base, key).value;
      if y in n1 { LookupIs(n1, y); }
      NotReplaced(base, n1, n2, y, z);
    }
  }

  // ----- versions whose different edits keep apart

  /** Any two edits of the two sides are the same, or base elements lie between them. */
  ghost predicate Separate(n1: seq<Entry>, n2: seq<Entry>, es: seq<RangeMap>, fs: seq<RangeMap>)
    requires Bounded(n1, es) && Bounded(n2, fs)
  {
    forall i, j :: 0 <= i < |es| && 0 <= j < |fs| ==>
      || SameEdit(true, n1, n2, es[i], fs[j])
      || es[i].lhs.Upper() < fs[j].lhs.start || fs[j].lhs.Upper() < es[i].lhs.start
  }

  lemma SeparateMeans(intended: bool, n1: seq<Entry>, n2: seq<Entry>, es: seq<RangeMap>, fs: seq<RangeMap>)
    requires Bounded(n1, es) && Bounded(n2, fs) && Separate(n1, n2, es, fs)
    ensures !Clashes(intended, n1, n2, es, fs) && !Mistakes(n1, n2, es, fs) && AllInTurn(intended, n1, n2, es, fs)
  {
  }

  /** If any two edits of the two sides are the same or strictly apart, the merge goes
      through unless a side cuts the tail. The result is sorted by key, and every key
      takes the first side's change if there is one, else the second's, else the base's
      value. */
  lemma MergeByKey(intended: bool, base: seq<Entry>, n1: seq<Entry>, n2: seq<Entry>)
    requires Sorted(ByKey, base) && Sorted(ByKey, n1) && Sorted(ByKey, n2)
    requires Separate(n1, n2, EditsOf(base, n1), EditsOf(base, n2))
    ensures var r := MergeOf(intended, base, n1, n2);
      if CutsTail(n1, EditsOf(base, n1)) || CutsTail(n2, EditsOf(base, n2)) then r == Aborted
      else r.Merged? && Sorted(ByKey, r.elements) && forall key :: ThreeWay(base, n1, n2, r.elements, key)
  {
    var r := MergeOf(intended, base, n1, n2);
    SeparateMeans(intended, n1, n2, EditsOf(base, n1), EditsOf(base, n2));
    MergeOutcome(intended, base, n1, n2);
    if r.Merged? {
      MergeSorted(intended, base, n1, n2);
      forall key ensures ThreeWay(base, n1, n2, r.elements, key) {
        MergeThreeWay(intended, base, n1, n2, key);
      }
    }
  }

  // ----- laws

  /** What merging yields if it comes down to the edits of one version. */
  function OneSided(base: seq<Entry>, node: seq<Entry>): MergeResult
    requires node != []
  {
    if base != [] && node[|node| - 1] in base[..|base| - 1] then Aborted else Merged(node)
  }

  lemma UnchangedHasNoEdits(base: seq<Entry>)
    requires Sorted(ByKey, base) && base != []
    ensures EditsOf(base, base) == []
  {
    var edits := EditsOf(base, base);
    if edits != [] {
      EditsReplace(base, base);
      var i := if edits[0].lhs.num > 0 then edits[0].lhs.start else edits[0].rhs.start;
      assert In(edits[0].lhs, i) || In(edits[0].rhs, i);
      EditsCover(base, base, i);
      assert false;
    }
  }

  lemma {:induction false} WalkOne(intended: bool, n1: seq<Entry>, n2: seq<Entry>, edits: seq<RangeMap>, p: nat, n: nat)
    ensures EditList(n2, edits, p, n) ==>
      Walk(intended, n1, n2, [], edits) == if CutsTail(n2, edits) then Abort else Ops(SplicesOf(edits, n2))
    ensures EditList(n1, edits, p, n) ==>
      Walk(intended, n1, n2, edits, []) == if CutsTail(n1, edits) then Abort else Ops(SplicesOf(edits, n1))
    decreases |edits|
  {
    if edits != [] {
      WalkOne(intended, n1, n2, edits[1..], edits[0].lhs.Upper(), n);
      if EditList(n1, edits, p, n) { EditListTail(n1, edits, p, n); }
      if EditList(n2, edits, p, n) { EditListTail(n2, edits, p, n); }
    }
  }

  lemma {:induction false} WalkTwice(intended: bool, node: seq<Entry>, edits: seq<RangeMap>, p: nat, n: nat)
    requires EditList(node, edits, p, n)
    ensures Walk(intended, node, node, edits, edits) ==
            if CutsTail(node, edits) then Abort else Ops(SplicesOf(edits, node))
    decreases |edits|
  {
    if edits != [] {
      EditListTail(node, edits, p, n);
      WalkTwice(intended, node, edits[1..], edits[0].lhs.Upper(), n);
    }
  }

  /** Merging with an unchanged side yields the other side, and merging a version with
      itself yields that version, unless the version cuts the tail of the base. */
  lemma MergeOneSided(intended: bool, base: seq<Entry>, node: seq<Entry>)
    requires Sorted(ByKey, base) && Sorted(ByKey, node) && base != [] && node != []
    ensures MergeOf(intended, base, base, node) == OneSided(base, node)
    ensures MergeOf(intended, base, node, base) == OneSided(base, node)
    ensures MergeOf(intended, base, node, node) == OneSided(base, node)
  {
    var edits := EditsOf(base, node);
    UnchangedHasNoEdits(base);
    EditsAreList(base, node);
    CutsTailMeans(base, node);
    WalkOne(intended, base, node, edits, 0, |base|);
    WalkOne(intended, node, base, edits, 0, |base|);
    WalkTwice(intended, node, edits, 0, |base|);
    ScriptReplays(base, node, edits, 0, 0);
    assert node[0..] == node;
  }

  // ----- what the conditions exclude

  lemma OneReplaced(x: Entry, y: Entry, y': Entry)
    requires SliceLess(x.key, y.key) && y.key == y'.key && y != y'
    ensures Sorted(ByKey, [x, y]) && Sorted(ByKey, [x, y'])
    ensures EditsOf([x, y], [x, y']) == [RangeMap(IndexRange(1, 1), IndexRange(1, 1))]
  {
    var base, node := [x, y], [x, y'];
    SliceTrichotomy(x.key, y.key);
    assert PairUp(base, node, {}, 2) == [] && PairUp(base, node, {}, 1) == [];
    var m := RangeMap(IndexRange(0, 1), IndexRange(0, 1));
    assert IndexIn(node, x) == 0;
    assert PairUp(base, node, {}, 0) == [m] + [] == [m];
    assert CompactRun(m, []) == [m] && KeyMaps(base, node, {}) == [m];
    KeyMapsEqual(base, node, {});
    FlipIsScript(base, node, [m]);
    assert [m][1..] == [];
    assert Gaps([m], 0, 0, 2, 2) == [] + Gap(1, 1, 2, 2);
  }

  /** The written comparison drops a conflicting change: both sides replace the same
      element differently, and the merge keeps the first side's element. */
  lemma ConflictCanPass(x: Entry, y: Entry, y1: Entry, y2: Entry)
    requires SliceLess(x.key, y.key) && y.key == y1.key == y2.key && y != y1 && y != y2 && y1 != y2
    ensures Sorted(ByKey, [x, y]) && Sorted(ByKey, [x, y1]) && Sorted(ByKey, [x, y2])
    ensures MergeOf(false, [x, y], [x, y1], [x, y2]) == Merged([x, y1])
    ensures MergeOf(true, [x, y], [x, y1], [x, y2]) == Failed
  {
    OneReplaced(x, y, y1);
    OneReplaced(x, y, y2);
    ConflictWalk(x, y1, y2);
    SplicedCons([x, y], Splice(1, 1, [y1]), [], 0);
    assert Spliced([x, y], [], 2) == [] && [x, y][0..1] == [x];
  }

  lemma ConflictWalk(x: Entry, y1: Entry, y2: Entry)
    requires y1 != y2
    ensures var e := RangeMap(IndexRange(1, 1), IndexRange(1, 1));
      && Walk(false, [x, y1], [x, y2], [e], [e]) == Ops([Splice(1, 1, [y1])] + [])
      && Walk(true, [x, y1], [x, y2], [e], [e]) == Conflict
  {
    var n1, n2, e := [x, y1], [x, y2], RangeMap(IndexRange(1, 1), IndexRange(1, 1));
    assert n1[1] == y1 && n2[1] == y2;
    assert [e][1..] == [] && Content(n1, e) == [y1] && Content(n2, e) == [y2];
  }

  lemma OnlyAppended(x: Entry, tail: seq<Entry>)
    requires tail != [] && Sorted(ByKey, [x] + tail)
    ensures Sorted(ByKey, [x])
    ensures EditsOf([x], [x] + tail) == [RangeMap(IndexRange(1, 0), IndexRange(1, |tail|))]
  {
    var base, node := [x], [x] + tail;
    var m := RangeMap(IndexRange(0, 1), IndexRange(0, 1));
    assert node[0] == x && IndexIn(node, x) == 0;
    assert PairUp(base, node, {}, 1) == [];
    assert PairUp(base, node, {}, 0) == [m] + [] == [m];
    assert CompactRun(m, []) == [m] && KeyMaps(base, node, {}) == [m];
    KeyMapsEqual(base, node, {});
    FlipIsScript(base, node, [m]);
    assert [m][1..] == [];
    assert Gaps([m], 0, 0, 1, 1 + |tail|) == [] + Gap(1, 1, 1, 1 + |tail|);
  }

  lemma AppendsWalk(x: Entry, s: seq<Entry>, t: seq<Entry>)
    requires s != [] && t != [] && |s| != |t|
    ensures var e, f := RangeMap(IndexRange(1, 0), IndexRange(1, |s|)), RangeMap(IndexRange(1, 0), IndexRange(1, |t|));
      Walk(false, [x] + s, [x] + t, [e], [f]) == Ops([Splice(1, 0, s)] + ([Splice(1, 0, t)] + []))
  {
    var n1, n2 := [x] + s, [x] + t;
    var e, f := RangeMap(IndexRange(1, 0), IndexRange(1, |s|)), RangeMap(IndexRange(1, 0), IndexRange(1, |t|));
    assert [e][1..] == [] && [f][1..] == [];
    assert Content(n1, e) == s && Content(n2, f) == t;
    assert Walk(false, n1, n2, [], [f]) == Prepend([Splice(1, 0, t)], Ops([]));
  }

  /** Edits that touch can break the key order: two insertions at one place are both
      applied, the first side's first, if they differ in length. */
  lemma TouchingAppends(x: Entry, s: seq<Entry>, t: seq<Entry>)
    requires s != [] && t != [] && |s| != |t| && Sorted(ByKey, [x] + s) && Sorted(ByKey, [x] + t)
    ensures Sorted(ByKey, [x])
    ensures MergeOf(false, [x], [x] + s, [x] + t) == Merged([x] + s + t)
    ensures Sorted(ByKey, [x] + s + t) <==> SliceLess(s[|s| - 1].key, t[0].key)
  {
    OnlyAppended(x, s);
    OnlyAppended(x, t);
    AppendsWalk(x, s, t);
    AppendsSpliced(x, s, t);
    AppendsSorted(x, s, t);
  }

  lemma AppendsSpliced(x: Entry, s: seq<Entry>, t: seq<Entry>)
    ensures var ops := [Splice(1, 0, s)] + ([Splice(1, 0, t)] + []);
      InOrder(ops, 0, 1) && Spliced([x], ops, 0) == [x] + s + t
  {
    SplicedCons([x], Splice(1, 0, t), [], 1);
    SplicedCons([x], Splice(1, 0, s), [Splice(1, 0, t)] + [], 0);
    assert Spliced([x], [], 1) == [];
  }

  lemma AppendsSorted(x: Entry, s: seq<Entry>, t: seq<Entry>)
    requires s != [] && t != [] && Sorted(ByKey, [x] + s) && Sorted(ByKey, [x] + t)
    ensures Sorted(ByKey, [x] + s + t) <==> SliceLess(s[|s| - 1].key, t[0].key)
  {
    SortedSlice([x] + t, 1, 1 + |t|);
    assert ([x] + t)[1..1 + |t|] == t;
    InTurnMeans([x] + s, t);
    SortedPlus([x] + s, t);
  }

  lemma MiddleReplaced(x: Entry, y: Entry, z: Entry, y': Entry)
    requires Sorted(ByKey, [x, y, z]) && Sorted(ByKey, [x, y', z]) && y != y'
    ensures EditsOf([x, y, z], [x, y', z]) == [RangeMap(IndexRange(1, 1), IndexRange(1, 1))]
  {
    var base, node := [x, y, z], [x, y', z];
    Distinct(base);
    Distinct(node);
    var m, m' := RangeMap(IndexRange(0, 1), IndexRange(0, 1)), RangeMap(IndexRange(2, 1), IndexRange(2, 1));
    assert base[0] != base[1] && base[1] != base[2] && base[1] !in node;
    assert node[1..][1..] == [z] && IndexIn(node[1..][1..], z) == 0;
    assert IndexIn(node[1..], z) == 1 && IndexIn(node, z) == 2 && IndexIn(node, x) == 0;
    assert PairUp(base, node, {}, 3) == [];
    assert PairUp(base, node, {}, 2) == [m'] + [] == PairUp(base, node, {}, 1);
    assert PairUp(base, node, {}, 0) == [m] + [m'];
    assert [m, m'][1..] == [m'] && [m'][1..] == [];
    assert CompactRun(m, [m']) == [m] + CompactRun(m', []) && KeyMaps(base, node, {}) == [m, m'];
    KeyMapsEqual(base, node, {});
    FlipIsScript(base, node, [m, m']);
    assert Gaps([m'], 1, 1, 3, 3) == Gap(1, 1, 2, 2) + Gap(3, 3, 3, 3);
    assert Gaps([m, m'], 0, 0, 3, 3) == Gap(0, 0, 0, 0) + Gaps([m'], 1, 1, 3, 3);
  }

  lemma LastReplaced(x: Entry, y: Entry, z: Entry, z': Entry)
    requires Sorted(ByKey, [x, y, z]) && Sorted(ByKey, [x, y, z']) && z != z'
    ensures EditsOf([x, y, z], [x, y, z']) == [RangeMap(IndexRange(2, 1), IndexRange(2, 1))]
  {
    var base, node := [x, y, z], [x, y, z'];
    Distinct(base);
    Distinct(node);
    var m, m' := RangeMap(IndexRange(0, 1), IndexRange(0, 1)), RangeMap(IndexRange(1, 1), IndexRange(1, 1));
    var both := RangeMap(IndexRange(0, 2), IndexRange(0, 2));
    assert base[0] != base[2] && base[1] != base[2] && base[2] !in node;
    assert node[1..][0] == y && IndexIn(node[1..], y) == 0 && IndexIn(node, y) == 1 && IndexIn(node, x) == 0;
    assert PairUp(base, node, {}, 3) == [] == PairUp(base, node, {}, 2);
    assert PairUp(base, node, {}, 1) == [m'] + [];
    assert PairUp(base, node, {}, 0) == [m] + [m'];
    assert [m, m'][1..] == [m'] && [m'][1..] == [];
    assert CompactRun(m, [m']) == CompactRun(both, []) && KeyMaps(base, node, {}) == [both];
    KeyMapsEqual(base, node, {});
    FlipIsScript(base, node, [both]);
    assert [both][1..] == [];
    assert Gaps([both], 0, 0, 3, 3) == Gap(0, 0, 0, 0) + Gap(2, 2, 3, 3);
  }

  lemma Distinct(s: seq<Entry>)
    requires Sorted(ByKey, s)
    ensures forall i, j :: 0 <= i < |s| && 0 <= j < |s| && i != j ==> s[i] != s[j] && s[i].key != s[j].key
  {
    forall i, j | 0 <= i < j < |s| ensures s[i].key != s[j].key {
      SortedReflects(ByKey, s, i, j);
      SliceTrichotomy(s[i].key, s[j].key);
    }
  }

  /** So can replacements of neighbours: both are applied, and the result is in key order
      exactly if the new keys are. */
  lemma TouchingReplacements(intended: bool, x: Entry, y: Entry, z: Entry, y': Entry, z': Entry)
    requires Sorted(ByKey, [x, y, z]) && Sorted(ByKey, [x, y', z]) && Sorted(ByKey, [x, y, z'])
    requires y != y' && z != z'
    ensures MergeOf(intended, [x, y, z], [x, y', z], [x, y, z']) == Merged([x, y', z'])
    ensures Sorted(ByKey, [x, y', z']) <==> SliceLess(y'.key, z'.key)
  {
    MiddleReplaced(x, y, z, y');
    LastReplaced(x, y, z, z');
    ReplacementsWalk(intended, x, y, z, y', z');
    ReplacementsSpliced(x, y, z, y', z');
    OrderedEnds(x, y, z, y', z');
    SortedPlus([x, y'], [z']);
    assert [x, y'] + [z'] == [x, y', z'] && [x, y'][1] == y' && [z'][0] == z';
  }

  lemma ReplacementsWalk(intended: bool, x: Entry, y: Entry, z: Entry, y': Entry, z': Entry)
    ensures var e, f := RangeMap(IndexRange(1, 1), IndexRange(1, 1)), RangeMap(IndexRange(2, 1), IndexRange(2, 1));
      Walk(intended, [x, y', z], [x, y, z'], [e], [f]) == Ops([Splice(1, 1, [y'])] + ([Splice(2, 1, [z'])] + []))
  {
    var n1, n2 := [x, y', z], [x, y, z'];
    var e, f := RangeMap(IndexRange(1, 1), IndexRange(1, 1)), RangeMap(IndexRange(2, 1), IndexRange(2, 1));
    assert [e][1..] == [] && [f][1..] == [];
    assert Content(n1, e) == [y'] && Content(n2, f) == [z'];
    assert Walk(intended, n1, n2, [], [f]) == Prepend([Splice(2, 1, [z'])], Ops([]));
  }

  lemma ReplacementsSpliced(x: Entry, y: Entry, z: Entry, y': Entry, z': Entry)
    ensures var ops := [Splice(1, 1, [y'])] + ([Splice(2, 1, [z'])] + []);
      InOrder(ops, 0, 3) && Spliced([x, y, z], ops, 0) == [x, y', z']
  {
    var base, o, o' := [x, y, z], Splice(1, 1, [y']), Splice(2, 1, [z']);
    SplicedCons(base, o', [], 2);
    SplicedCons(base, o, [o'] + [], 0);
    assert Spliced(base, [], 3) == [] && base[2..2] == [] && base[0..1] == [x];
  }

  lemma OrderedEnds(x: Entry, y: Entry, z: Entry, y': Entry, z': Entry)
    requires Sorted(ByKey, [x, y, z]) && Sorted(ByKey, [x, y', z]) && Sorted(ByKey, [x, y, z'])
    ensures Sorted(ByKey, [x, y']) && Sorted(ByKey, [z']) && SliceLess(x.key, z'.key)
  {
    SortedReflects(ByKey, [x, y, z'], 0, 2);
    SortedSlice([x, y', z], 0, 2);
    assert [x, y', z][0..2] == [x, y'];
  }

  lemma LastRemoved(x: Entry, y: Entry)
    requires SliceLess(x.key, y.key)
    ensures Sorted(ByKey, [x, y]) && Sorted(ByKey, [x])
    ensures EditsOf([x, y], [x]) == [RangeMap(IndexRange(1, 1), IndexRange(1, 0))]
  {
    var base, node := [x, y], [x];
    SliceTrichotomy(x.key, y.key);
    assert base[1] !in node;
    var m := RangeMap(IndexRange(0, 1), IndexRange(0, 1));
    assert IndexIn(node, x) == 0;
    assert PairUp(base, node, {}, 2) == [] && PairUp(base, node, {}, 1) == [];
    assert PairUp(base, node, {}, 0) == [m] + [] == [m];
    assert CompactRun(m, []) == [m] && KeyMaps(base, node, {}) == [m];
    KeyMapsEqual(base, node, {});
    FlipIsScript(base, node, [m]);
    assert [m][1..] == [];
    assert Gaps([m], 0, 0, 2, 1) == [] + Gap(1, 1, 2, 1);
  }

  /** Removing the last element of the base stops the process. */
  lemma TailCutAborts(intended: bool, x: Entry, y: Entry)
    requires SliceLess(x.key, y.key)
    ensures Sorted(ByKey, [x, y]) && Sorted(ByKey, [x])
    ensures MergeOf(intended, [x, y], [x], [x, y]) == Aborted
  {
    var e := RangeMap(IndexRange(1, 1), IndexRange(1, 0));
    LastRemoved(x, y);
    UnchangedHasNoEdits([x, y]);
    assert [e][1..] == [] && Walk(intended, [x], [x, y], [e], []) == Abort;
  }
}

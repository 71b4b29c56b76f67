/** The search for the deepest right-hand node that holds a span of keys. */
module Overlap {
  import opened Keys
  import opened Trees
  import opened Ranges
  import opened Outcomes

  // ----- key traits

  /** The one-byte key 0 for ordered keys, index 0 for positions. */
  function MinKey(kt: KeyTrait): OrderedKey {
    if kt.ByIndex? then Value(0) else Bytes([0])
  }

  function EntryMaxKey(kt: KeyTrait, me: MetaEntry, start: nat): OrderedKey {
    if kt.ByIndex? then Value(start + me.numElements) else Bytes(me.key)
  }

  function NodeMaxKey(kt: KeyTrait, t: Tree, start: nat): OrderedKey
    requires kt.ByIndex? || (t.Leaf? && t.entries != []) || (t.Meta? && t.children != [])
  {
    match kt
    case ByIndex => Value(start + NumElements(t))
    case ByKey =>
      match t
      case Leaf(entries) => Bytes(entries[|entries| - 1].key)
      case Meta(children) => Bytes(children[|children| - 1].key)
  }

  /** Whether a key falls under a bound: positions lie strictly below the end
      index that bounds them, ordered keys may equal their greatest key. */
  predicate Below(kt: KeyTrait, k: OrderedKey, bound: OrderedKey) {
    if kt.ByIndex? then Less(k, bound) else AtMost(k, bound)
  }

  /** `bound` separates the first `n` elements of `s` from the rest. */
  ghost predicate IsCut(kt: KeyTrait, s: seq<Entry>, bound: OrderedKey, n: nat) {
    forall j :: 0 <= j < |s| ==> (Below(kt, KeyAt(kt, s, j), bound) <==> j < n)
  }

  /** The key `k` lies in the span between two bounds. */
  predicate InSpan(kt: KeyTrait, lower: OrderedKey, upper: OrderedKey, k: OrderedKey) {
    !Below(kt, k, lower) && Below(kt, k, upper)
  }

  /** Every element of `s` whose key lies in the span has its index in [from, to). */
  ghost predicate Holds(kt: KeyTrait, s: seq<Entry>, lower: OrderedKey, upper: OrderedKey, from: nat, to: nat) {
    forall j :: 0 <= j < |s| && InSpan(kt, lower, upper, KeyAt(kt, s, j)) ==> from <= j < to
  }

  // ----- the choice of entry and the descent

  /** The entry to descend into, with the index of its first element, looking from
      entry `i` on: `lower` is the bound of the entry before it. */
  function Pick(kt: KeyTrait, lower: OrderedKey, upper: OrderedKey,
                cs: seq<MetaEntry>, i: nat, start: nat, meLower: OrderedKey): (r: Option<(nat, nat)>)
    requires i <= |cs|
    ensures r.Some? ==> r.value.0 < |cs|
    decreases |cs| - i
  {
    if i == |cs| || (i > 0 && Less(lower, meLower)) then None
    else
      var meUpper := EntryMaxKey(kt, cs[i], start);
      if i == |cs| - 1 || AtMost(upper, meUpper) then Some((i, start))
      else Pick(kt, lower, upper, cs, i + 1, start + cs[i].numElements, meUpper)
  }

  function Deepest(kt: KeyTrait, lower: OrderedKey, upper: OrderedKey, t: Tree, start: nat): (Tree, nat)
    decreases t
  {
    match t
    case Leaf(_) => (t, start)
    case Meta(cs) =>
      match Pick(kt, lower, upper, cs, 0, start, Value(0))
      case None => (t, start)
      case Some((i, childStart)) => Deepest(kt, lower, upper, cs[i].node, childStart)
  }

  method SmallestOverlap(kt: KeyTrait, lower: OrderedKey, upper: OrderedKey, t: Tree, start: nat)
    returns (node: Tree, nodeStart: nat)
    ensures (node, nodeStart) == Deepest(kt, lower, upper, t, start)
    decreases t
  {
    if t.Meta? {
      var cs := t.children;
      var meStart: nat := start;
      var meLower, meUpper := Value(0), Value(0);
      for i := 0 to |cs|
        invariant Pick(kt, lower, upper, cs, 0, start, Value(0)) == Pick(kt, lower, upper, cs, i, meStart, meLower)
      {
        if i > 0 && Less(lower, meLower) {
          break;
        }
        meUpper := EntryMaxKey(kt, cs[i], meStart);
        if i == |cs| - 1 || AtMost(upper, meUpper) {
          node, nodeStart := SmallestOverlap(kt, lower, upper, cs[i].node, meStart);
          return;
        }
        meStart := meStart + cs[i].numElements;
        meLower := meUpper;
      }
    }
    return t, start;
  }

  // ----- bounds and cuts

  lemma BelowMonotone(kt: KeyTrait, k: OrderedKey, m: OrderedKey, m': OrderedKey)
    requires Below(kt, k, m) && AtMost(m, m')
    ensures Below(kt, k, m')
  {
    if Less(k, m) && Less(m, m') {
      Transitive(k, m, m');
    }
  }

  /** The bound of the first `n` elements. */
  function BoundAt(kt: KeyTrait, s: seq<Entry>, n: nat): OrderedKey
    requires 0 < n <= |s|
  {
    if kt.ByIndex? then Value(n) else Bytes(s[n - 1].key)
  }

  lemma BoundCuts(kt: KeyTrait, s: seq<Entry>, n: nat)
    requires Sorted(kt, s) && 0 < n <= |s|
    ensures IsCut(kt, s, BoundAt(kt, s, n), n)
  {
    if kt.ByKey? {
      forall j | 0 <= j < |s| ensures AtMost(KeyAt(kt, s, j), KeyAt(kt, s, n - 1)) <==> j < n {
        Trichotomy(KeyAt(kt, s, j), KeyAt(kt, s, n - 1));
        assert j < n - 1 ==> Less(KeyAt(kt, s, j), KeyAt(kt, s, n - 1));
        assert j > n - 1 ==> Less(KeyAt(kt, s, n - 1), KeyAt(kt, s, j));
      }
    }
  }

  lemma EntryBound(kt: KeyTrait, s: seq<Entry>, me: MetaEntry, start: nat)
    requires Caches(kt, me) && Occupies(s, me.node, start)
    ensures EntryMaxKey(kt, me, start) == BoundAt(kt, s, start + me.numElements)
  {
    var below := Flatten(me.node);
    assert s[start..start + |below|][|below| - 1] == below[|below| - 1];
  }

  lemma NodeBound(kt: KeyTrait, s: seq<Entry>, t: Tree, start: nat)
    requires WellFormed(kt, t) && Occupies(s, t, start) && Flatten(t) != []
    ensures NodeMaxKey(kt, t, start) == BoundAt(kt, s, start + |Flatten(t)|)
  {
    NumElementsIsLength(kt, t);
    if kt.ByKey? {
      LastKey(s, t, start);
    }
  }

  /** The last key of a node is that of its last element. */
  lemma LastKey(s: seq<Entry>, t: Tree, start: nat)
    requires WellFormed(ByKey, t) && Occupies(s, t, start) && Flatten(t) != []
    ensures NodeMaxKey(ByKey, t, start) == Bytes(s[start + |Flatten(t)| - 1].key)
  {
    if t.Leaf? {
      var n := |t.entries|;
      assert s[start..start + n][n - 1] == t.entries[n - 1];
    } else {
      LastChildKey(s, t, start);
    }
  }

  lemma LastChildKey(s: seq<Entry>, t: Tree, start: nat)
    requires t.Meta? && WellFormed(ByKey, t) && Occupies(s, t, start)
    ensures Flatten(t) != [] && t.children[|t.children| - 1].key == s[start + |Flatten(t)| - 1].key
  {
    var last := |t.children| - 1;
    var me, from := t.children[last], start + SumElements(t.children[..last]);
    ChildOccupies(ByKey, s, t, start, last);
    assert Caches(ByKey, me);
    EntryBound(ByKey, s, me, from);
    assert from + me.numElements == start + |Flatten(t)|;
  }

  // ----- what the search returns

  /** Of the elements from `outer`, those before `inner` lie below the span and those behind
      it above. */
  ghost predicate Narrows(kt: KeyTrait, s: seq<Entry>, lower: OrderedKey, upper: OrderedKey,
                          outer: IndexRange, inner: IndexRange) {
    && outer.start <= inner.start <= inner.Upper() <= outer.Upper() <= |s|
    && (forall j :: outer.start <= j < inner.start ==> Below(kt, KeyAt(kt, s, j), lower))
    && (forall j :: inner.Upper() <= j < outer.Upper() ==> !Below(kt, KeyAt(kt, s, j), upper))
  }

  lemma NotBefore(kt: KeyTrait, s: seq<Entry>, lower: OrderedKey, meLower: OrderedKey, n: nat, j: nat)
    requires IsCut(kt, s, meLower, n) && !Less(lower, meLower) && j < n && j < |s|
    ensures Below(kt, KeyAt(kt, s, j), lower)
  {
    Trichotomy(lower, meLower);
    BelowMonotone(kt, KeyAt(kt, s, j), meLower, lower);
  }

  lemma NotBehind(kt: KeyTrait, s: seq<Entry>, upper: OrderedKey, meUpper: OrderedKey, n: nat, j: nat)
    requires IsCut(kt, s, meUpper, n) && AtMost(upper, meUpper) && n <= j < |s|
    ensures !Below(kt, KeyAt(kt, s, j), upper)
  {
    if Below(kt, KeyAt(kt, s, j), upper) {
      BelowMonotone(kt, KeyAt(kt, s, j), upper, meUpper);
    }
  }

  /** The bound of an entry cuts the elements behind it. */
  lemma EntryCuts(kt: KeyTrait, s: seq<Entry>, t: Tree, start: nat, i: nat, meStart: nat)
    requires Sorted(kt, s) && t.Meta? && WellFormed(kt, t) && Occupies(s, t, start) && i < |t.children|
    requires meStart == start + SumElements(t.children[..i])
    ensures Occupies(s, t.children[i].node, meStart)
    ensures |Flatten(t.children[i].node)| == t.children[i].numElements
    ensures start + SumElements(t.children[..i + 1]) == meStart + t.children[i].numElements
    ensures IsCut(kt, s, EntryMaxKey(kt, t.children[i], meStart), meStart + t.children[i].numElements)
    ensures meStart + t.children[i].numElements <= start + |Flatten(t)|
    ensures i == |t.children| - 1 ==> meStart + t.children[i].numElements == start + |Flatten(t)|
  {
    ChildOccupies(kt, s, t, start, i);
    EntryBound(kt, s, t.children[i], meStart);
    BoundCuts(kt, s, meStart + t.children[i].numElements);
  }

  lemma ChildNarrows(kt: KeyTrait, s: seq<Entry>, lower: OrderedKey, upper: OrderedKey,
                     outer: IndexRange, inner: IndexRange,
                     i: nat, n: nat, meLower: OrderedKey, meUpper: OrderedKey)
    requires i < n && outer.start <= inner.start <= inner.Upper() <= outer.Upper() <= |s|
    requires if i > 0 then IsCut(kt, s, meLower, inner.start) && !Less(lower, meLower) else inner.start == outer.start
    requires if i < n - 1 then IsCut(kt, s, meUpper, inner.Upper()) && AtMost(upper, meUpper)
             else inner.Upper() == outer.Upper()
    ensures Narrows(kt, s, lower, upper, outer, inner)
  {
    forall j | outer.start <= j < inner.start ensures Below(kt, KeyAt(kt, s, j), lower) {
      NotBefore(kt, s, lower, meLower, inner.start, j);
    }
    forall j | inner.Upper() <= j < outer.Upper() ensures !Below(kt, KeyAt(kt, s, j), upper) {
      NotBehind(kt, s, upper, meUpper, inner.Upper(), j);
    }
  }

  /** The entry picked, if any, starts at the index picked and narrows the elements. */
  ghost predicate PickNarrows(kt: KeyTrait, s: seq<Entry>, lower: OrderedKey, upper: OrderedKey,
                              t: Tree, start: nat, r: Option<(nat, nat)>)
    requires t.Meta?
  {
    r.Some? ==>
      && r.value.0 < |t.children| && Occupies(s, t.children[r.value.0].node, r.value.1)
      && Narrows(kt, s, lower, upper, SpanOf(t, start), SpanOf(t.children[r.value.0].node, r.value.1))
  }

  function SpanOf(t: Tree, start: nat): IndexRange {
    IndexRange(start, |Flatten(t)|)
  }

  lemma {:induction false} PickedNarrows(kt: KeyTrait, s: seq<Entry>, lower: OrderedKey, upper: OrderedKey,
                                         t: Tree, start: nat, i: nat, meStart: nat, meLower: OrderedKey)
    requires Sorted(kt, s) && t.Meta? && WellFormed(kt, t) && Occupies(s, t, start) && i < |t.children|
    requires meStart == start + SumElements(t.children[..i])
    requires i > 0 ==> IsCut(kt, s, meLower, meStart)
    ensures PickNarrows(kt, s, lower, upper, t, start, Pick(kt, lower, upper, t.children, i, meStart, meLower))
    decreases |t.children| - i
  {
    var cs := t.children;
    if !(i > 0 && Less(lower, meLower)) {
      EntryCuts(kt, s, t, start, i, meStart);
      var meEnd := meStart + cs[i].numElements;
      var meUpper := EntryMaxKey(kt, cs[i], meStart);
      if i == |cs| - 1 || AtMost(upper, meUpper) {
        assert i == 0 ==> cs[..i] == [];
        ChildNarrows(kt, s, lower, upper, SpanOf(t, start), SpanOf(cs[i].node, meStart), i, |cs|, meLower, meUpper);
        assert PickNarrows(kt, s, lower, upper, t, start, Some((i, meStart)));
      } else {
        PickedNarrows(kt, s, lower, upper, t, start, i + 1, meEnd, meUpper);
      }
    }
  }

  lemma NarrowsOn(kt: KeyTrait, s: seq<Entry>, lower: OrderedKey, upper: OrderedKey,
                  a: IndexRange, b: IndexRange, c: IndexRange)
    requires Narrows(kt, s, lower, upper, a, b) && Narrows(kt, s, lower, upper, b, c)
    ensures Narrows(kt, s, lower, upper, a, c)
  {
  }

  /** Whatever the bounds and the depth of the descent, the search returns a node and the
      index of its first element, and leaves out only elements below or above the span. */
  lemma {:induction false} DeepestNarrows(kt: KeyTrait, s: seq<Entry>, lower: OrderedKey, upper: OrderedKey,
                                          t: Tree, start: nat)
    requires Sorted(kt, s) && WellFormed(kt, t) && Occupies(s, t, start)
    ensures var (d, dStart) := Deepest(kt, lower, upper, t, start);
      && WellFormed(kt, d) && Occupies(s, d, dStart)
      && Narrows(kt, s, lower, upper, SpanOf(t, start), SpanOf(d, dStart))
    decreases t
  {
    if t.Meta? {
      var cs, r := t.children, Pick(kt, lower, upper, t.children, 0, start, Value(0));
      if r.Some? {
        assert cs[..0] == [];
        PickedNarrows(kt, s, lower, upper, t, start, 0, start, Value(0));
        var child, childStart := cs[r.value.0].node, r.value.1;
        DeepestNarrows(kt, s, lower, upper, child, childStart);
        var (d, dStart) := Deepest(kt, lower, upper, child, childStart);
        NarrowsOn(kt, s, lower, upper, SpanOf(t, start), SpanOf(child, childStart), SpanOf(d, dStart));
      }
    }
  }

  /** A node that holds every element whose key lies in the span leads to one that does. */
  lemma DeepestHolds(kt: KeyTrait, s: seq<Entry>, lower: OrderedKey, upper: OrderedKey, t: Tree, start: nat)
    requires Sorted(kt, s) && WellFormed(kt, t) && Occupies(s, t, start)
    requires Holds(kt, s, lower, upper, start, start + |Flatten(t)|)
    ensures var (d, dStart) := Deepest(kt, lower, upper, t, start);
            && WellFormed(kt, d) && Occupies(s, d, dStart)
            && Holds(kt, s, lower, upper, dStart, dStart + |Flatten(d)|)
  {
    DeepestNarrows(kt, s, lower, upper, t, start);
  }

  /** No entry of the tree has a key up to `min`. */
  ghost predicate Clear(t: Tree, min: OrderedKey)
    decreases t
  {
    t.Meta? ==> forall i :: 0 <= i < |t.children| ==>
      Less(min, Bytes(t.children[i].key)) && Clear(t.children[i].node, min)
  }

  /** In a clear tree the search passes no element by. */
  lemma {:induction false} DeepestClear(min: OrderedKey, upper: OrderedKey, t: Tree, start: nat)
    requires Clear(t, min)
    ensures Clear(Deepest(ByKey, min, upper, t, start).0, min) && Deepest(ByKey, min, upper, t, start).1 == start
    decreases t
  {
    if t.Meta? && t.children != [] {
      var cs := t.children;
      if |cs| > 1 && !AtMost(upper, Bytes(cs[0].key)) {
        assert Pick(ByKey, min, upper, cs, 1, start + cs[0].numElements, Bytes(cs[0].key)).None?;
      }
      DeepestClear(min, upper, cs[0].node, start);
    }
  }

  /** The bound after the first `k` entries of `cs` lies strictly inside the span. */
  ghost predicate SplitsSpan(kt: KeyTrait, lower: OrderedKey, upper: OrderedKey,
                             cs: seq<MetaEntry>, start: nat, k: nat)
    requires 0 < k <= |cs|
  {
    var bound := EntryMaxKey(kt, cs[k - 1], start + SumElements(cs[..k - 1]));
    Less(lower, bound) && Less(bound, upper)
  }

  lemma {:induction false} PickNone(kt: KeyTrait, lower: OrderedKey, upper: OrderedKey,
                                    cs: seq<MetaEntry>, i: nat, start: nat, meLower: OrderedKey)
    requires i < |cs|
    requires Pick(kt, lower, upper, cs, i, start + SumElements(cs[..i]), meLower).None?
    requires i > 0 ==>
               meLower == EntryMaxKey(kt, cs[i - 1], start + SumElements(cs[..i - 1])) && Less(meLower, upper)
    ensures exists k :: 0 < k < |cs| && SplitsSpan(kt, lower, upper, cs, start, k)
    decreases |cs| - i
  {
    if i > 0 && Less(lower, meLower) {
      assert SplitsSpan(kt, lower, upper, cs, start, i);
    } else {
      var meStart := start + SumElements(cs[..i]);
      var meUpper := EntryMaxKey(kt, cs[i], meStart);
      SumSnoc(cs, i);
      Trichotomy(upper, meUpper);
      PickNone(kt, lower, upper, cs, i + 1, start, meUpper);
    }
  }

  /** The node found is the smallest: it is a leaf, or the span straddles the
      boundary between two of its entries. */
  lemma {:induction false} DeepestIsSmallest(kt: KeyTrait, lower: OrderedKey, upper: OrderedKey, t: Tree, start: nat)
    requires WellFormed(kt, t)
    ensures var (d, dStart) := Deepest(kt, lower, upper, t, start);
            d.Meta? ==> exists k :: 0 < k < |d.children| && SplitsSpan(kt, lower, upper, d.children, dStart, k)
    decreases t
  {
    if t.Meta? {
      var r := Pick(kt, lower, upper, t.children, 0, start, Value(0));
      if r.Some? {
        DeepestIsSmallest(kt, lower, upper, t.children[r.value.0].node, r.value.1);
      } else {
        assert t.children[..0] == [];
        PickNone(kt, lower, upper, t.children, 0, start, Value(0));
      }
    }
  }
}

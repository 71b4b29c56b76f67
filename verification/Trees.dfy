/** POS-trees: leaves hold elements, meta nodes hold entries that cache what is
    below them. Two nodes have the same hash exactly when they are the same tree:
    hashes are taken to be free of collisions. */
module Trees {
  import opened Keys

  /** An element: its key and its encoded bytes. */
  datatype Entry = Entry(key: Slice, data: seq<Byte>)

  datatype Tree = Leaf(entries: seq<Entry>) | Meta(children: seq<MetaEntry>)

  /** `numElements` and `key` are the cached element count and greatest key of `node`. */
  datatype MetaEntry = MetaEntry(numElements: nat, key: Slice, node: Tree)

  /** How elements are addressed: by position, or by their own key. */
  datatype KeyTrait = ByIndex | ByKey

  function Flatten(t: Tree): seq<Entry>
    decreases t, 0
  {
    match t
    case Leaf(entries) => entries
    case Meta(children) => FlattenAll(children)
  }

  function FlattenAll(cs: seq<MetaEntry>): seq<Entry>
    decreases cs, 0
  {
    if cs == [] then [] else Flatten(cs[0].node) + FlattenAll(cs[1..])
  }

  function SumElements(cs: seq<MetaEntry>): nat {
    if cs == [] then 0 else cs[0].numElements + SumElements(cs[1..])
  }

  function NumElements(t: Tree): nat {
    match t
    case Leaf(entries) => |entries|
    case Meta(children) => SumElements(children)
  }

  /** Meta nodes have entries, no entry is empty, and every entry caches the truth. */
  ghost predicate WellFormed(kt: KeyTrait, t: Tree)
    decreases t
  {
    match t
    case Leaf(_) => true
    case Meta(cs) =>
      && cs != []
      && (forall i :: 0 <= i < |cs| ==> Caches(kt, cs[i]))
      && (forall i :: 0 <= i < |cs| ==> WellFormed(kt, cs[i].node))
  }

  ghost predicate Caches(kt: KeyTrait, c: MetaEntry) {
    var below := Flatten(c.node);
    below != [] && c.numElements == |below| && (kt.ByKey? ==> c.key == below[|below| - 1].key)
  }

  function KeyAt(kt: KeyTrait, s: seq<Entry>, i: nat): OrderedKey
    requires i < |s|
  {
    match kt
    case ByIndex => Value(i)
    case ByKey => Bytes(s[i].key)
  }

  ghost predicate Sorted(kt: KeyTrait, s: seq<Entry>) {
    forall i, j :: 0 <= i < j < |s| ==> Less(KeyAt(kt, s, i), KeyAt(kt, s, j))
  }

  /** In a sorted sequence keys are ordered as their indices are. */
  lemma SortedReflects(kt: KeyTrait, s: seq<Entry>, i: nat, j: nat)
    requires Sorted(kt, s) && i < |s| && j < |s|
    ensures Less(KeyAt(kt, s, i), KeyAt(kt, s, j)) <==> i < j
    ensures KeyAt(kt, s, i) == KeyAt(kt, s, j) <==> i == j
  {
    Trichotomy(KeyAt(kt, s, i), KeyAt(kt, s, j));
    if j < i {
      assert Less(KeyAt(kt, s, j), KeyAt(kt, s, i));
    }
  }

  /** The elements of `t` are those of `s` from index `start` on. */
  ghost predicate Occupies(s: seq<Entry>, t: Tree, start: nat) {
    start + |Flatten(t)| <= |s| && s[start..start + |Flatten(t)|] == Flatten(t)
  }

  lemma {:induction false} FlattenSplit(cs: seq<MetaEntry>, i: nat)
    requires i <= |cs|
    ensures FlattenAll(cs) == FlattenAll(cs[..i]) + FlattenAll(cs[i..])
    decreases i
  {
    if i == 0 {
      assert cs[0..] == cs && cs[..0] == [];
    } else {
      FlattenSplit(cs[1..], i - 1);
      assert cs[1..][..i - 1] == cs[..i][1..] && cs[1..][i - 1..] == cs[i..];
      assert cs[..i][0] == cs[0];
    }
  }

  lemma {:induction false} SumIsLength(kt: KeyTrait, cs: seq<MetaEntry>)
    requires forall i :: 0 <= i < |cs| ==> Caches(kt, cs[i])
    ensures SumElements(cs) == |FlattenAll(cs)|
    decreases |cs|
  {
    if cs != [] {
      SumIsLength(kt, cs[1..]);
    }
  }

  /** The cached counts add up to the number of elements below. */
  lemma NumElementsIsLength(kt: KeyTrait, t: Tree)
    requires WellFormed(kt, t)
    ensures NumElements(t) == |Flatten(t)|
  {
    if t.Meta? {
      SumIsLength(kt, t.children);
    }
  }

  lemma {:induction false} SumSnoc(cs: seq<MetaEntry>, i: nat)
    requires i < |cs|
    ensures SumElements(cs[..i + 1]) == SumElements(cs[..i]) + cs[i].numElements
    decreases i
  {
    if i > 0 {
      SumSnoc(cs[1..], i - 1);
      assert cs[1..][..i - 1] == cs[..i][1..] && cs[1..][..i] == cs[..i + 1][1..];
    } else {
      assert cs[..1][1..] == [] && cs[..0] == [];
    }
  }

  lemma MiddleOfSlice<T>(s: seq<T>, start: nat, a: seq<T>, m: seq<T>, c: seq<T>)
    requires start + |a + m + c| <= |s| && s[start..start + |a + m + c|] == a + m + c
    ensures s[start + |a|..start + |a| + |m|] == m
  {
    forall k | 0 <= k < |m| ensures s[start + |a| + k] == m[k] {
      assert s[start..start + |a + m + c|][|a| + k] == (a + m + c)[|a| + k] == m[k];
    }
  }

  lemma ChildSplit(kt: KeyTrait, t: Tree, i: nat) returns (after: seq<Entry>)
    requires t.Meta? && WellFormed(kt, t) && i < |t.children|
    ensures Flatten(t) == FlattenAll(t.children[..i]) + Flatten(t.children[i].node) + after
    ensures |FlattenAll(t.children[..i])| == SumElements(t.children[..i])
    ensures |Flatten(t.children[i].node)| == t.children[i].numElements
    ensures i == |t.children| - 1 ==> after == []
  {
    var cs := t.children;
    FlattenSplit(cs, i);
    SumIsLength(kt, cs[..i]);
    assert cs[i..][0] == cs[i] && cs[i..][1..] == cs[i + 1..];
    after := FlattenAll(cs[i + 1..]);
  }

  /** A child occupies its share of whatever its parent occupies. */
  lemma ChildOccupies(kt: KeyTrait, s: seq<Entry>, t: Tree, start: nat, i: nat)
    requires t.Meta? && WellFormed(kt, t) && Occupies(s, t, start) && i < |t.children|
    ensures Occupies(s, t.children[i].node, start + SumElements(t.children[..i]))
    ensures |Flatten(t.children[i].node)| == t.children[i].numElements
    ensures SumElements(t.children[..i + 1]) == SumElements(t.children[..i]) + t.children[i].numElements
    ensures SumElements(t.children[..i + 1]) <= |Flatten(t)|
    ensures i == |t.children| - 1 ==> SumElements(t.children[..i + 1]) == |Flatten(t)|
  {
    var after := ChildSplit(kt, t, i);
    SumSnoc(t.children, i);
    MiddleOfSlice(s, start, FlattenAll(t.children[..i]), Flatten(t.children[i].node), after);
  }
}

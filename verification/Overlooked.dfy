/** What a comparison by key overlooks: the search of the right tree starts from a smallest
    key that is not below all keys, and may pass elements by. */
module Overlooked {
  import opened Keys
  import opened Trees
  import opened Ranges
  import opened Overlap
  import opened Comparator

  // ----- a search with a right bound

  lemma NotLast(cs: seq<MetaEntry>, c: nat)
    requires c <= |cs| && FlattenAll(cs[c..]) != []
    ensures c < |cs|
  {
  }

  /** The windows from child `c` on are those of the child, then those of the later ones. */
  lemma WindowAt(kt: KeyTrait, cs: seq<MetaEntry>, c: nat, start: nat, childMin: OrderedKey, rhs: Tree, rs: nat, k: nat)
    requires c < |cs| && k < |FlattenAll(cs[c..])| && forall i :: 0 <= i < |cs| ==> WellShaped(cs[i].node)
    requires cs[c].numElements == |Flatten(cs[c].node)|
    ensures var child, n := cs[c].node, |Flatten(cs[c].node)|;
      && (k >= n ==> k - n < |FlattenAll(cs[c + 1..])|)
      && WindowsFrom(kt, cs[c..], start, childMin, rhs, rs)[k] ==
         if k < n then Windows(kt, child, start, childMin, rhs, rs)[k]
         else WindowsFrom(kt, cs[c + 1..], start + n, NodeMaxKey(kt, child, start), rhs, rs)[k - n]
  {
    assert cs[c..][0] == cs[c] && cs[c..][1..] == cs[c + 1..];
    WindowsStep(kt, cs, c, start, childMin, rhs, rs);
  }

  /** Where a window comes from: child, its start and bound, and the element in it. */
  datatype Origin = Origin(c: nat, start: nat, childMin: OrderedKey, k: nat)

  /** The child that holds the k-th element from child `c` on. */
  function OriginOf(kt: KeyTrait, cs: seq<MetaEntry>, c: nat, start: nat, childMin: OrderedKey, k: nat): Origin
    requires c < |cs| && k < |FlattenAll(cs[c..])| && forall i :: 0 <= i < |cs| ==> WellShaped(cs[i].node)
    decreases |cs| - c
  {
    LaterElement(cs, c, k);
    var child, n := cs[c].node, |Flatten(cs[c].node)|;
    assert WellShaped(child);
    if k < n then Origin(c, start, childMin, k)
    else OriginOf(kt, cs, c + 1, start + n, NodeMaxKey(kt, child, start), k - n)
  }

  lemma LaterElement(cs: seq<MetaEntry>, c: nat, k: nat)
    requires c < |cs| && k < |FlattenAll(cs[c..])|
    ensures var n := |Flatten(cs[c].node)|; k >= n ==> c + 1 < |cs| && k - n < |FlattenAll(cs[c + 1..])|
  {
    assert cs[c..][0] == cs[c] && cs[c..][1..] == cs[c + 1..];
  }

  lemma OriginLater(kt: KeyTrait, cs: seq<MetaEntry>, c: nat, start: nat, childMin: OrderedKey, k: nat)
    requires c < |cs| && k < |FlattenAll(cs[c..])| && forall i :: 0 <= i < |cs| ==> WellShaped(cs[i].node)
    requires |Flatten(cs[c].node)| <= k
    ensures var n := |Flatten(cs[c].node)|;
      && c + 1 < |cs| && k - n < |FlattenAll(cs[c + 1..])| && WellShaped(cs[c].node)
      && OriginOf(kt, cs, c, start, childMin, k) ==
         OriginOf(kt, cs, c + 1, start + n, NodeMaxKey(kt, cs[c].node, start), k - n)
  {
    LaterElement(cs, c, k);
  }

  /** The child stands at its start and bound, and holds the left element with index `i`. */
  ghost predicate Stands(kt: KeyTrait, l: seq<Entry>, lhs: Tree, ls: nat, min: OrderedKey, i: nat, o: Origin)
    requires lhs.Meta?
  {
    && o.c < |lhs.children| && o.k < |Flatten(lhs.children[o.c].node)| && o.start + o.k == i
    && StartsAt(kt, l, lhs, ls, min, o.c, o.start, o.childMin)
  }

  lemma {:induction false} OriginStarts(kt: KeyTrait, l: seq<Entry>, lhs: Tree, ls: nat, min: OrderedKey,
                                        c: nat, start: nat, childMin: OrderedKey, k: nat)
    requires lhs.Meta? && WellFormed(kt, lhs) && WellShaped(lhs) && Occupies(l, lhs, ls) && c < |lhs.children|
    requires StartsAt(kt, l, lhs, ls, min, c, start, childMin) && k < |FlattenAll(lhs.children[c..])|
    ensures c <= OriginOf(kt, lhs.children, c, start, childMin, k).c
    ensures Stands(kt, l, lhs, ls, min, start + k, OriginOf(kt, lhs.children, c, start, childMin, k))
    decreases |lhs.children| - c
  {
    var cs, n := lhs.children, |Flatten(lhs.children[c].node)|;
    if k < n {
      assert Stands(kt, l, lhs, ls, min, start + k, Origin(c, start, childMin, k));
    } else {
      OriginLater(kt, cs, c, start, childMin, k);
      StartOn(kt, l, lhs, ls, min, c, start, childMin);
      assert start + n + (k - n) == start + k;
      OriginStarts(kt, l, lhs, ls, min, c + 1, start + n, NodeMaxKey(kt, cs[c].node, start), k - n);
    }
  }

  lemma {:induction false} OriginWindow(kt: KeyTrait, cs: seq<MetaEntry>, rhs: Tree, rs: nat,
                                        c: nat, start: nat, childMin: OrderedKey, k: nat)
    requires c < |cs| && k < |FlattenAll(cs[c..])|
    requires forall i :: 0 <= i < |cs| ==> WellShaped(cs[i].node) && cs[i].numElements == |Flatten(cs[i].node)|
    ensures var o := OriginOf(kt, cs, c, start, childMin, k);
      && o.c < |cs| && o.k < |Flatten(cs[o.c].node)|
      && WindowsFrom(kt, cs[c..], start, childMin, rhs, rs)[k] ==
         Windows(kt, cs[o.c].node, o.start, o.childMin, rhs, rs)[o.k]
    decreases |cs| - c
  {
    WindowAt(kt, cs, c, start, childMin, rhs, rs, k);
    var n := |Flatten(cs[c].node)|;
    if k >= n {
      OriginLater(kt, cs, c, start, childMin, k);
      OriginWindow(kt, cs, rhs, rs, c + 1, start + n, NodeMaxKey(kt, cs[c].node, start), k - n);
    }
  }

  /** The windows of the children from `c` on are the windows of the children's elements. */
  lemma WindowOf(kt: KeyTrait, l: seq<Entry>, lhs: Tree, ls: nat, min: OrderedKey,
                 rhs: Tree, rs: nat, c: nat, start: nat, childMin: OrderedKey, k: nat)
    returns (o: Origin)
    requires lhs.Meta? && WellFormed(kt, lhs) && WellShaped(lhs) && Occupies(l, lhs, ls) && c <= |lhs.children|
    requires StartsAt(kt, l, lhs, ls, min, c, start, childMin) && k < |FlattenAll(lhs.children[c..])|
    ensures c <= o.c && Stands(kt, l, lhs, ls, min, start + k, o) && WellShaped(lhs.children[o.c].node)
    ensures WindowsFrom(kt, lhs.children[c..], start, childMin, rhs, rs)[k] ==
            Windows(kt, lhs.children[o.c].node, o.start, o.childMin, rhs, rs)[o.k]
  {
    NotLast(lhs.children, c);
    o := OriginOf(kt, lhs.children, c, start, childMin, k);
    OriginStarts(kt, l, lhs, ls, min, c, start, childMin, k);
    OriginWindow(kt, lhs.children, rhs, rs, c, start, childMin, k);
  }

  /** Windows lie inside the node searched. */
  lemma {:induction false} WindowsNested(kt: KeyTrait, l: seq<Entry>, r: seq<Entry>, lhs: Tree, ls: nat,
                                         min: OrderedKey, rhs: Tree, rs: nat, k: nat)
    requires AreNodes(kt, l, r, lhs, ls, rhs, rs) && k < |Flatten(lhs)|
    ensures var w := Windows(kt, lhs, ls, min, rhs, rs)[k]; rs <= w.start && w.Upper() <= rs + |Flatten(rhs)|
    decreases lhs, 1
  {
    var (d, ds) := Deepest(kt, min, NodeMaxKey(kt, lhs, ls), rhs, rs);
    Found(kt, l, r, lhs, ls, min, rhs, rs, d, ds);
    DeepestNarrows(kt, r, min, NodeMaxKey(kt, lhs, ls), rhs, rs);
    if !Settled(lhs, d) {
      assert lhs.children[..0] == [] && lhs.children[0..] == lhs.children;
      WindowsFromNested(kt, l, r, lhs, ls, min, d, ds, 0, ls, min, k);
    }
  }

  lemma {:induction false} WindowsFromNested(kt: KeyTrait, l: seq<Entry>, r: seq<Entry>, lhs: Tree, ls: nat,
                                             min: OrderedKey, rhs: Tree, rs: nat, c: nat, start: nat,
                                             childMin: OrderedKey, k: nat)
    requires AreNodes(kt, l, r, lhs, ls, rhs, rs) && lhs.Meta? && c <= |lhs.children|
    requires StartsAt(kt, l, lhs, ls, min, c, start, childMin) && k < |FlattenAll(lhs.children[c..])|
    ensures var w := WindowsFrom(kt, lhs.children[c..], start, childMin, rhs, rs)[k];
      rs <= w.start && w.Upper() <= rs + |Flatten(rhs)|
    decreases lhs, 0
  {
    var o := WindowOf(kt, l, lhs, ls, min, rhs, rs, c, start, childMin, k);
    ChildIsNode(kt, l, r, lhs, ls, rhs, rs, o.c);
    WindowsNested(kt, l, r, lhs.children[o.c].node, o.start, o.childMin, rhs, rs, o.k);
  }

  /** Under a right bound an element's window keeps every right element with its key. */
  lemma {:induction false} WindowsKeep(kt: KeyTrait, l: seq<Entry>, r: seq<Entry>, lhs: Tree, ls: nat,
                                       min: OrderedKey, rhs: Tree, rs: nat, k: nat, j: nat)
    requires AreNodes(kt, l, r, lhs, ls, rhs, rs) && IsCut(kt, l, min, ls) && k < |Flatten(lhs)|
    requires j < |r| && KeyAt(kt, l, ls + k) == KeyAt(kt, r, j) && In(SpanOf(rhs, rs), j)
    ensures In(Windows(kt, lhs, ls, min, rhs, rs)[k], j)
    decreases lhs, 1
  {
    var (d, ds) := Deepest(kt, min, NodeMaxKey(kt, lhs, ls), rhs, rs);
    Found(kt, l, r, lhs, ls, min, rhs, rs, d, ds);
    FoundKeeps(kt, l, r, lhs, ls, min, rhs, rs, d, ds, ls + k, j);
    if !Settled(lhs, d) {
      assert lhs.children[..0] == [] && lhs.children[0..] == lhs.children;
      WindowsFromKeep(kt, l, r, lhs, ls, min, d, ds, 0, ls, min, k, j);
    }
  }

  lemma {:induction false} WindowsFromKeep(kt: KeyTrait, l: seq<Entry>, r: seq<Entry>, lhs: Tree, ls: nat,
                                           min: OrderedKey, rhs: Tree, rs: nat, c: nat, start: nat,
                                           childMin: OrderedKey, k: nat, j: nat)
    requires AreNodes(kt, l, r, lhs, ls, rhs, rs) && lhs.Meta? && c <= |lhs.children|
    requires StartsAt(kt, l, lhs, ls, min, c, start, childMin) && (c == 0 ==> IsCut(kt, l, min, ls))
    requires k < |FlattenAll(lhs.children[c..])| && start + k < |l|
    requires j < |r| && KeyAt(kt, l, start + k) == KeyAt(kt, r, j) && In(SpanOf(rhs, rs), j)
    ensures In(WindowsFrom(kt, lhs.children[c..], start, childMin, rhs, rs)[k], j)
    decreases lhs, 0
  {
    var o := WindowOf(kt, l, lhs, ls, min, rhs, rs, c, start, childMin, k);
    ChildIsNode(kt, l, r, lhs, ls, rhs, rs, o.c);
    ChildIsCut(kt, l, lhs, ls, min, o.c, o.childMin);
    WindowsKeep(kt, l, r, lhs.children[o.c].node, o.start, o.childMin, rhs, rs, o.k, j);
  }

  // ----- the search from the smallest key

  /** Comparing `lhs`, on the left edge of its tree, the search passes element `x` of `rhs` by:
      it moves on to a later entry of some node, or does so for the first child. */
  ghost predicate PassedBy(r: seq<Entry>, lhs: Tree, rhs: Tree, rs: nat, x: Entry)
    requires WellShaped(lhs)
    decreases lhs
  {
    var (d, ds) := Deepest(ByKey, MinKey(ByKey), NodeMaxKey(ByKey, lhs, 0), rhs, rs);
    && lhs != d
    && (|| (exists j :: rs <= j < ds && j < |r| && r[j] == x)
        || (lhs.Meta? && d.Meta? && x in Flatten(lhs.children[0].node) && PassedBy(r, lhs.children[0].node, d, ds, x)))
  }

  /** An element of `lhs` that occurs in `rhs` lies outside its window exactly if the search
      passes it by. */
  lemma {:induction false} PassedIsOutside(l: seq<Entry>, r: seq<Entry>, lhs: Tree, rhs: Tree, rs: nat, k: nat, j: nat)
    requires AreNodes(ByKey, l, r, lhs, 0, rhs, rs) && k < |Flatten(lhs)|
    requires j < |r| && l[k] == r[j] && In(SpanOf(rhs, rs), j)
    ensures !In(Windows(ByKey, lhs, 0, MinKey(ByKey), rhs, rs)[k], j) <==> PassedBy(r, lhs, rhs, rs, l[k])
    decreases lhs
  {
    var min := MinKey(ByKey);
    var (d, ds) := Deepest(ByKey, min, NodeMaxKey(ByKey, lhs, 0), rhs, rs);
    Found(ByKey, l, r, lhs, 0, min, rhs, rs, d, ds);
    FoundKeeps(ByKey, l, r, lhs, 0, min, rhs, rs, d, ds, k, j);
    OnlyIndex(r, j, l[k]);
    if lhs == d {
      assert l[0..|Flatten(lhs)|][k] == l[k] && r[ds..ds + |Flatten(d)|][k] == r[ds + k];
    } else if !Settled(lhs, d) {
      PassedBelow(l, r, lhs, d, ds, k, j);
    }
  }

  lemma OnlyIndex(r: seq<Entry>, j: nat, x: Entry)
    requires Sorted(ByKey, r) && j < |r| && r[j] == x
    ensures forall h :: 0 <= h < |r| && r[h] == x ==> h == j
  {
    forall h | 0 <= h < |r| && r[h] == x ensures h == j {
      SortedReflects(ByKey, r, h, j);
    }
  }

  lemma {:induction false} PassedBelow(l: seq<Entry>, r: seq<Entry>, lhs: Tree, d: Tree, ds: nat, k: nat, j: nat)
    requires AreNodes(ByKey, l, r, lhs, 0, d, ds) && lhs.Meta? && d.Meta? && k < |Flatten(lhs)|
    requires j < |r| && l[k] == r[j] && j < ds + |Flatten(d)|
    ensures !In(WindowsFrom(ByKey, lhs.children, 0, MinKey(ByKey), d, ds)[k], j) <==>
            j < ds || (l[k] in Flatten(lhs.children[0].node) && PassedBy(r, lhs.children[0].node, d, ds, l[k]))
    decreases lhs, 1
  {
    var min, child := MinKey(ByKey), lhs.children[0].node;
    FirstChild(l, r, lhs, d, ds);
    FirstHolds(l, child, k);
    WindowAt(ByKey, lhs.children, 0, 0, min, d, ds, k);
    var n := |Flatten(child)|;
    if k < n {
      PassedFirst(l, r, lhs, child, d, ds, k, j);
    } else {
      PassedLater(l, r, lhs, child, d, ds, k, n, j);
    }
  }

  lemma FirstChild(l: seq<Entry>, r: seq<Entry>, lhs: Tree, d: Tree, ds: nat)
    requires AreNodes(ByKey, l, r, lhs, 0, d, ds) && lhs.Meta?
    ensures lhs.children[0..] == lhs.children
    ensures var child := lhs.children[0].node;
      && AreNodes(ByKey, l, r, child, 0, d, ds) && lhs.children[0].numElements == |Flatten(child)|
      && StartsAt(ByKey, l, lhs, 0, MinKey(ByKey), 1, |Flatten(child)|, NodeMaxKey(ByKey, child, 0))
  {
    assert lhs.children[..0] == [];
    ChildIsNode(ByKey, l, r, lhs, 0, d, ds, 0);
    StartOn(ByKey, l, lhs, 0, MinKey(ByKey), 0, 0, MinKey(ByKey));
  }

  lemma {:induction false} PassedFirst(l: seq<Entry>, r: seq<Entry>, lhs: Tree, child: Tree, d: Tree, ds: nat,
                                       k: nat, j: nat)
    requires lhs.Meta? && lhs.children != [] && child == lhs.children[0].node
    requires AreNodes(ByKey, l, r, child, 0, d, ds) && k < |Flatten(child)|
    requires j < |r| && l[k] == r[j] && j < ds + |Flatten(d)|
    ensures !In(Windows(ByKey, child, 0, MinKey(ByKey), d, ds)[k], j) <==> j < ds || PassedBy(r, child, d, ds, l[k])
    decreases lhs, 0
  {
    if j < ds {
      WindowsNested(ByKey, l, r, child, 0, MinKey(ByKey), d, ds, k);
    } else {
      PassedIsOutside(l, r, child, d, ds, k, j);
    }
  }

  /** From the second child on the bound is right. */
  lemma PassedLater(l: seq<Entry>, r: seq<Entry>, lhs: Tree, child: Tree, d: Tree, ds: nat, k: nat, n: nat, j: nat)
    requires AreNodes(ByKey, l, r, lhs, 0, d, ds) && lhs.Meta? && WellShaped(child) && child == lhs.children[0].node
    requires StartsAt(ByKey, l, lhs, 0, MinKey(ByKey), 1, n, NodeMaxKey(ByKey, child, 0))
    requires n <= k < |l| && k - n < |FlattenAll(lhs.children[1..])|
    requires j < |r| && l[k] == r[j] && j < ds + |Flatten(d)|
    ensures !In(WindowsFrom(ByKey, lhs.children[1..], n, NodeMaxKey(ByKey, child, 0), d, ds)[k - n], j) <==> j < ds
  {
    var min, next := MinKey(ByKey), NodeMaxKey(ByKey, child, 0);
    if j < ds {
      WindowsFromNested(ByKey, l, r, lhs, 0, min, d, ds, 1, n, next, k - n);
    } else {
      WindowsFromKeep(ByKey, l, r, lhs, 0, min, d, ds, 1, n, next, k - n, j);
    }
  }

  lemma FirstHolds(l: seq<Entry>, t: Tree, k: nat)
    requires Sorted(ByKey, l) && Occupies(l, t, 0) && k < |l|
    ensures l[k] in Flatten(t) <==> k < |Flatten(t)|
  {
    var n := |Flatten(t)|;
    if k < n {
      assert l[0..n][k] == l[k];
    } else {
      NotInFirst(l, n, k);
    }
  }

  lemma NotInFirst(l: seq<Entry>, n: nat, k: nat)
    requires Sorted(ByKey, l) && n <= k < |l|
    ensures l[k] !in l[0..n]
  {
    if l[k] in l[0..n] {
      var h :| 0 <= h < n && l[0..n][h] == l[k];
      SortedReflects(ByKey, l, h, k);
      assert false;
    }
  }

  /** Only the keys up to the smallest key are ever passed by: the empty key and the one-byte
      key 0. */
  lemma {:induction false} PassedIsSmall(l: seq<Entry>, r: seq<Entry>, lhs: Tree, rhs: Tree, rs: nat, x: Entry)
    requires AreNodes(ByKey, l, r, lhs, 0, rhs, rs) && PassedBy(r, lhs, rhs, rs, x)
    ensures AtMost(Bytes(x.key), MinKey(ByKey))
    decreases lhs
  {
    var min, upper := MinKey(ByKey), NodeMaxKey(ByKey, lhs, 0);
    var (d, ds) := Deepest(ByKey, min, upper, rhs, rs);
    DeepestNarrows(ByKey, r, min, upper, rhs, rs);
    if j :| rs <= j < ds && j < |r| && r[j] == x {
      assert Below(ByKey, KeyAt(ByKey, r, j), min);
    } else {
      Found(ByKey, l, r, lhs, 0, min, rhs, rs, d, ds);
      assert lhs.children[..0] == [];
      ChildIsNode(ByKey, l, r, lhs, 0, d, ds, 0);
      PassedIsSmall(l, r, lhs.children[0].node, d, ds, x);
    }
  }

  /** A right tree none of whose nodes ends with such a key lets no element be passed by. */
  lemma {:induction false} ClearNotPassed(r: seq<Entry>, lhs: Tree, rhs: Tree, rs: nat, x: Entry)
    requires WellShaped(lhs) && Clear(rhs, MinKey(ByKey))
    ensures !PassedBy(r, lhs, rhs, rs, x)
    decreases lhs
  {
    var upper := NodeMaxKey(ByKey, lhs, 0);
    var (d, ds) := Deepest(ByKey, MinKey(ByKey), upper, rhs, rs);
    DeepestClear(MinKey(ByKey), upper, rhs, rs);
    if lhs.Meta? && d.Meta? {
      ClearNotPassed(r, lhs.children[0].node, d, ds, x);
    }
  }
}

/** Comparison of two trees: nodes with equal hashes are not opened, each left node
    is compared with the smallest right node that holds its span of keys, and leaves
    are joined element by element. */
module Comparator {
  import opened Keys
  import opened Trees
  import opened Ranges
  import opened Overlap
  import opened Leaves
  import opened Sequences

  /** Equal hashes: everything below is common, at the same relative positions. */
  function IdenticalHashes(tr: Traverser, lhs: Tree, ls: nat, rhs: Tree, rs: nat): seq<Piece> {
    match tr
    case Intersector => [Range(IndexRange(ls, NumElements(lhs)))]
    case Differ => []
    case Mapper => [Map(IndexRange(ls, NumElements(lhs)), IndexRange(rs, NumElements(rhs)))]
  }

  /** The join of two nodes reports exactly the selected elements of the left one. */
  method IterateLeaves(tr: Traverser, n: Join) returns (ps: seq<Piece>)
    requires Aligned(n)
    ensures Within(tr, ps, n.ls, n.LeftEnd()) && Exact(tr, n.kt, n.l, n.r, n.Seen(), ps, n.ls, n.LeftEnd())
  {
    JoinExact(tr, n);
    match tr {
      case Intersector => ps := IntersectLeaves(n);
      case Differ => ps := DiffLeaves(n);
      case Mapper => ps := MapLeaves(n);
    }
  }

  // ----- what a comparison looks at

  /** No node below is without entries. */
  predicate WellShaped(t: Tree)
    decreases t
  {
    match t
    case Leaf(entries) => entries != []
    case Meta(cs) => cs != [] && forall i :: 0 <= i < |cs| ==> WellShaped(cs[i].node)
  }

  lemma {:induction false} WellFormedIsShaped(kt: KeyTrait, t: Tree)
    requires WellFormed(kt, t) && Flatten(t) != []
    ensures WellShaped(t)
    decreases t
  {
    if t.Meta? {
      forall i | 0 <= i < |t.children| ensures WellShaped(t.children[i].node) {
        WellFormedIsShaped(kt, t.children[i].node);
      }
    }
  }

  /** Neither of the nodes is opened further. */
  predicate Settled(lhs: Tree, rhs: Tree) {
    lhs == rhs || lhs.Leaf? || rhs.Leaf?
  }

  /** For every element of `lhs` the right indices it is compared with. */
  function Windows(kt: KeyTrait, lhs: Tree, ls: nat, min: OrderedKey, rhs: Tree, rs: nat): (ws: seq<IndexRange>)
    requires WellShaped(lhs)
    ensures |ws| == |Flatten(lhs)|
    decreases lhs, 0
  {
    var (d, ds) := Deepest(kt, min, NodeMaxKey(kt, lhs, ls), rhs, rs);
    if Settled(lhs, d) then seq(|Flatten(lhs)|, _ => SpanOf(d, ds))
    else WindowsFrom(kt, lhs.children, ls, min, d, ds)
  }

  function WindowsFrom(kt: KeyTrait, cs: seq<MetaEntry>, start: nat, min: OrderedKey, rhs: Tree, rs: nat):
    (ws: seq<IndexRange>)
    requires forall i :: 0 <= i < |cs| ==> WellShaped(cs[i].node)
    ensures |ws| == |FlattenAll(cs)|
    decreases cs, 0
  {
    if cs == [] then []
    else Windows(kt, cs[0].node, start, min, rhs, rs)
         + WindowsFrom(kt, cs[1..], start + cs[0].numElements, NodeMaxKey(kt, cs[0].node, start), rhs, rs)
  }

  lemma WindowsStep(kt: KeyTrait, cs: seq<MetaEntry>, i: nat, start: nat, min: OrderedKey, rhs: Tree, rs: nat)
    requires i < |cs| && forall k :: 0 <= k < |cs| ==> WellShaped(cs[k].node)
    ensures WindowsFrom(kt, cs[i..], start, min, rhs, rs) ==
            Windows(kt, cs[i].node, start, min, rhs, rs)
            + WindowsFrom(kt, cs[i + 1..], start + cs[i].numElements, NodeMaxKey(kt, cs[i].node, start), rhs, rs)
  {
    assert cs[i..][0] == cs[i] && cs[i..][1..] == cs[i + 1..];
  }

  /** Every element from index `from` on is reported rightly, as far as its window goes. */
  ghost predicate Right(tr: Traverser, kt: KeyTrait, l: seq<Entry>, r: seq<Entry>, ws: seq<IndexRange>,
                        ps: seq<Piece>, from: nat)
    requires from + |ws| <= |l|
  {
    forall k :: 0 <= k < |ws| ==> RightAt(tr, kt, l, r, ws[k], ps, from + k)
  }

  /** Results for adjacent spans are both right exactly if their concatenation is. */
  lemma RightConcat(tr: Traverser, kt: KeyTrait, l: seq<Entry>, r: seq<Entry>, ws: seq<IndexRange>, vs: seq<IndexRange>,
                    ps: seq<Piece>, qs: seq<Piece>, from: nat)
    requires from + |ws| + |vs| <= |l|
    requires Within(tr, ps, from, from + |ws|) && Within(tr, qs, from + |ws|, from + |ws| + |vs|)
    ensures Within(tr, ps + qs, from, from + |ws| + |vs|)
    ensures Right(tr, kt, l, r, ws + vs, ps + qs, from) <==>
            Right(tr, kt, l, r, ws, ps, from) && Right(tr, kt, l, r, vs, qs, from + |ws|)
  {
    var mid, to := from + |ws|, from + |ws| + |vs|;
    WithinConcat(tr, ps, qs, from, mid, to);
    forall k | 0 <= k < |ws| + |vs| ensures RightAlike(tr, kt, l, r, ws, vs, ps, qs, from, k) {
      AlikeAt(tr, kt, l, r, ws, vs, ps, qs, from, k);
    }
    RightBoth(tr, kt, l, r, ws, vs, ps, qs, from);
  }

  /** An element is rightly reported by both results exactly if by that for its span. */
  ghost predicate RightAlike(tr: Traverser, kt: KeyTrait, l: seq<Entry>, r: seq<Entry>,
                             ws: seq<IndexRange>, vs: seq<IndexRange>, ps: seq<Piece>, qs: seq<Piece>,
                             from: nat, k: nat)
    requires from + |ws| + |vs| <= |l| && k < |ws| + |vs|
  {
    var w, i := (ws + vs)[k], from + k;
    && (i < from + |ws| ==> (RightAt(tr, kt, l, r, w, ps + qs, i) <==> RightAt(tr, kt, l, r, w, ps, i)))
    && (from + |ws| <= i ==> (RightAt(tr, kt, l, r, w, ps + qs, i) <==> RightAt(tr, kt, l, r, w, qs, i)))
  }

  lemma AlikeAt(tr: Traverser, kt: KeyTrait, l: seq<Entry>, r: seq<Entry>, ws: seq<IndexRange>, vs: seq<IndexRange>,
                ps: seq<Piece>, qs: seq<Piece>, from: nat, k: nat)
    requires from + |ws| + |vs| <= |l| && k < |ws| + |vs|
    requires Within(tr, ps, from, from + |ws|) && Within(tr, qs, from + |ws|, from + |ws| + |vs|)
    ensures RightAlike(tr, kt, l, r, ws, vs, ps, qs, from, k)
  {
    RightAtConcat(tr, kt, l, r, (ws + vs)[k], ps, qs, from, from + |ws|, from + |ws| + |vs|, from + k);
  }

  lemma RightBoth(tr: Traverser, kt: KeyTrait, l: seq<Entry>, r: seq<Entry>, ws: seq<IndexRange>, vs: seq<IndexRange>,
                  ps: seq<Piece>, qs: seq<Piece>, from: nat)
    requires from + |ws| + |vs| <= |l|
    requires forall k :: 0 <= k < |ws| + |vs| ==> RightAlike(tr, kt, l, r, ws, vs, ps, qs, from, k)
    ensures Right(tr, kt, l, r, ws + vs, ps + qs, from) <==>
            Right(tr, kt, l, r, ws, ps, from) && Right(tr, kt, l, r, vs, qs, from + |ws|)
  {
    if Right(tr, kt, l, r, ws + vs, ps + qs, from) {
      forall k | 0 <= k < |vs| ensures RightAt(tr, kt, l, r, vs[k], qs, from + |ws| + k) {
        assert RightAlike(tr, kt, l, r, ws, vs, ps, qs, from, |ws| + k) && (ws + vs)[|ws| + k] == vs[k];
      }
      forall k | 0 <= k < |ws| ensures RightAt(tr, kt, l, r, ws[k], ps, from + k) {
        assert RightAlike(tr, kt, l, r, ws, vs, ps, qs, from, k) && (ws + vs)[k] == ws[k];
      }
    }
    if Right(tr, kt, l, r, ws, ps, from) && Right(tr, kt, l, r, vs, qs, from + |ws|) {
      forall k | 0 <= k < |ws + vs| ensures RightAt(tr, kt, l, r, (ws + vs)[k], ps + qs, from + k) {
        assert RightAlike(tr, kt, l, r, ws, vs, ps, qs, from, k);
      }
    }
  }

  // ----- where the equal-hash shortcut misfires

  /** Comparing `lhs` from index `ls` with `rhs` from index `rs` meets a pair of equal
      nodes at different positions while positions are the keys. */
  predicate Misplaced(kt: KeyTrait, lhs: Tree, ls: nat, min: OrderedKey, rhs: Tree, rs: nat)
    requires WellShaped(lhs)
    decreases lhs, 0
  {
    var (d, ds) := Deepest(kt, min, NodeMaxKey(kt, lhs, ls), rhs, rs);
    if lhs == d then kt.ByIndex? && ls != ds
    else lhs.Meta? && d.Meta? && MisplacedFrom(kt, lhs.children, ls, min, d, ds)
  }

  /** The same for one of the children in `cs`, the first of which starts at `start`. */
  predicate MisplacedFrom(kt: KeyTrait, cs: seq<MetaEntry>, start: nat, min: OrderedKey, rhs: Tree, rs: nat)
    requires forall i :: 0 <= i < |cs| ==> WellShaped(cs[i].node)
    decreases cs, 0
  {
    cs != [] &&
    (|| Misplaced(kt, cs[0].node, start, min, rhs, rs)
     || MisplacedFrom(kt, cs[1..], start + cs[0].numElements, NodeMaxKey(kt, cs[0].node, start), rhs, rs))
  }

  lemma MisplacedStep(kt: KeyTrait, cs: seq<MetaEntry>, i: nat, start: nat, min: OrderedKey, rhs: Tree, rs: nat)
    requires i < |cs| && forall k :: 0 <= k < |cs| ==> WellShaped(cs[k].node)
    ensures MisplacedFrom(kt, cs[i..], start, min, rhs, rs) <==>
            || Misplaced(kt, cs[i].node, start, min, rhs, rs)
            || MisplacedFrom(kt, cs[i + 1..], start + cs[i].numElements, NodeMaxKey(kt, cs[i].node, start), rhs, rs)
  {
    assert cs[i..][0] == cs[i] && cs[i..][1..] == cs[i + 1..];
  }

  // ----- one node against one node

  /** `lhs` and `rhs` are nodes of two sorted trees with elements `l` and `r`. */
  ghost predicate AreNodes(kt: KeyTrait, l: seq<Entry>, r: seq<Entry>, lhs: Tree, ls: nat, rhs: Tree, rs: nat) {
    && Sorted(kt, l) && Sorted(kt, r)
    && WellFormed(kt, lhs) && WellFormed(kt, rhs) && WellShaped(lhs)
    && Flatten(lhs) != [] && Occupies(l, lhs, ls) && Occupies(r, rhs, rs)
  }

  /** The right indices `w` are all that have the key of a left element in `v`. */
  ghost predicate Reaches(kt: KeyTrait, l: seq<Entry>, r: seq<Entry>, v: IndexRange, w: IndexRange) {
    forall i, j :: In(v, i) && i < |l| && 0 <= j < |r| && KeyAt(kt, l, i) == KeyAt(kt, r, j) ==> In(w, j)
  }

  /** `min` is the bound before `lhs`, and `rhs` holds every right element with one of its keys. */
  ghost predicate Comparable(kt: KeyTrait, l: seq<Entry>, r: seq<Entry>,
                             lhs: Tree, ls: nat, min: OrderedKey, rhs: Tree, rs: nat) {
    && AreNodes(kt, l, r, lhs, ls, rhs, rs) && IsCut(kt, l, min, ls)
    && Reaches(kt, l, r, SpanOf(lhs, ls), SpanOf(rhs, rs))
  }

  /** Equal nodes at positions that agree: the shortcut is right. */
  lemma IdenticalExact(tr: Traverser, kt: KeyTrait, l: seq<Entry>, r: seq<Entry>,
                       t: Tree, ls: nat, rs: nat)
    requires WellFormed(kt, t) && Flatten(t) != [] && Occupies(l, t, ls) && Occupies(r, t, rs)
    requires kt.ByKey? || ls == rs
    ensures Exact(tr, kt, l, r, SpanOf(t, rs), IdenticalHashes(tr, t, ls, t, rs), ls, ls + |Flatten(t)|)
  {
    NumElementsIsLength(kt, t);
    var ps, es := IdenticalHashes(tr, t, ls, t, rs), Flatten(t);
    forall i | ls <= i < ls + |es| ensures RightAt(tr, kt, l, r, SpanOf(t, rs), ps, i) {
      var j := rs + (i - ls);
      assert l[ls..ls + |es|][i - ls] == l[i] && r[rs..rs + |es|][i - ls] == r[j];
      assert In(SpanOf(t, rs), j) && Match(kt, l, r, i, j);
      if !tr.Differ? {
        RightAtSingle(tr, kt, l, r, SpanOf(t, rs), ps[0], i);
      }
    }
  }

  /** Equal nodes at different positions lie past the end of the right side, where
      nothing is common: the shortcut is wrong about the last element. */
  lemma MisplacedWrong(tr: Traverser, l: seq<Entry>, r: seq<Entry>, t: Tree, ls: nat, min: OrderedKey, rs: nat)
    requires Comparable(ByIndex, l, r, t, ls, min, t, rs) && ls != rs
    ensures ls + |Flatten(t)| > |r|
    ensures !RightAt(tr, ByIndex, l, r, SpanOf(t, rs), IdenticalHashes(tr, t, ls, t, rs), ls + |Flatten(t)| - 1)
  {
    NumElementsIsLength(ByIndex, t);
    var n := |Flatten(t)|;
    if ls + n <= |r| {
      assert KeyAt(ByIndex, l, ls) == KeyAt(ByIndex, r, ls) && In(SpanOf(t, ls), ls);
      assert KeyAt(ByIndex, l, ls + n - 1) == KeyAt(ByIndex, r, ls + n - 1) && In(SpanOf(t, ls), ls + n - 1);
    }
    var ps := IdenticalHashes(tr, t, ls, t, rs);
    assert !Common(ByIndex, l, r, SpanOf(t, rs), ls + n - 1);
    if !tr.Differ? {
      assert In(ps[0].lhs, ls + n - 1);
    }
  }

  lemma IdenticalWithin(tr: Traverser, kt: KeyTrait, t: Tree, ls: nat, rs: nat)
    requires WellFormed(kt, t) && Flatten(t) != []
    ensures Within(tr, IdenticalHashes(tr, t, ls, t, rs), ls, ls + |Flatten(t)|)
  {
    NumElementsIsLength(kt, t);
  }

  /** The shortcut is right unless positions are compared and the nodes stand apart. */
  lemma IdenticalRight(tr: Traverser, kt: KeyTrait, l: seq<Entry>, r: seq<Entry>, t: Tree, ls: nat,
                       min: OrderedKey, rs: nat)
    requires AreNodes(kt, l, r, t, ls, t, rs) && (kt.ByIndex? ==> Comparable(kt, l, r, t, ls, min, t, rs))
    ensures Within(tr, IdenticalHashes(tr, t, ls, t, rs), ls, ls + |Flatten(t)|)
    ensures Exact(tr, kt, l, r, SpanOf(t, rs), IdenticalHashes(tr, t, ls, t, rs), ls, ls + |Flatten(t)|) <==>
            kt.ByKey? || ls == rs
  {
    IdenticalWithin(tr, kt, t, ls, rs);
    if kt.ByKey? || ls == rs {
      IdenticalExact(tr, kt, l, r, t, ls, rs);
    } else {
      MisplacedWrong(tr, l, r, t, ls, min, rs);
    }
  }

  /** A node compared as a whole has one window for all its elements. */
  lemma OneWindow(tr: Traverser, kt: KeyTrait, l: seq<Entry>, r: seq<Entry>, ws: seq<IndexRange>, w: IndexRange,
                  ps: seq<Piece>, from: nat)
    requires from + |ws| <= |l| && ws == seq(|ws|, _ => w)
    ensures Right(tr, kt, l, r, ws, ps, from) <==> Exact(tr, kt, l, r, w, ps, from, from + |ws|)
  {
    if Right(tr, kt, l, r, ws, ps, from) {
      forall i | from <= i < from + |ws| ensures RightAt(tr, kt, l, r, w, ps, i) {
        assert ws[i - from] == w;
      }
    }
  }

  // ----- bounds

  /** The bound before child `i`: that of the parent for the first, else the bound of
      the child before it. */
  ghost predicate IsMinOf(kt: KeyTrait, l: seq<Entry>, lhs: Tree, ls: nat, min: OrderedKey, i: nat,
                          childMin: OrderedKey)
    requires lhs.Meta? && i <= |lhs.children|
  {
    var start := ls + SumElements(lhs.children[..i]);
    if i == 0 then childMin == min else 0 < start <= |l| && childMin == BoundAt(kt, l, start)
  }

  lemma NextMin(kt: KeyTrait, l: seq<Entry>, lhs: Tree, ls: nat, min: OrderedKey, i: nat)
    requires lhs.Meta? && WellFormed(kt, lhs) && Occupies(l, lhs, ls)
    requires i < |lhs.children| && WellShaped(lhs.children[i].node)
    ensures IsMinOf(kt, l, lhs, ls, min, i + 1,
                    NodeMaxKey(kt, lhs.children[i].node, ls + SumElements(lhs.children[..i])))
  {
    ChildOccupies(kt, l, lhs, ls, i);
    NodeBound(kt, l, lhs.children[i].node, ls + SumElements(lhs.children[..i]));
  }

  lemma ChildIsNode(kt: KeyTrait, l: seq<Entry>, r: seq<Entry>, lhs: Tree, ls: nat, rhs: Tree, rs: nat, i: nat)
    requires AreNodes(kt, l, r, lhs, ls, rhs, rs) && lhs.Meta? && i < |lhs.children|
    ensures AreNodes(kt, l, r, lhs.children[i].node, ls + SumElements(lhs.children[..i]), rhs, rs)
  {
    ChildOccupies(kt, l, lhs, ls, i);
  }

  lemma ChildIsCut(kt: KeyTrait, l: seq<Entry>, lhs: Tree, ls: nat, min: OrderedKey, i: nat, childMin: OrderedKey)
    requires Sorted(kt, l) && lhs.Meta? && i < |lhs.children| && (i == 0 ==> IsCut(kt, l, min, ls))
    requires IsMinOf(kt, l, lhs, ls, min, i, childMin)
    ensures IsCut(kt, l, childMin, ls + SumElements(lhs.children[..i]))
  {
    if i == 0 {
      assert lhs.children[..0] == [];
    } else {
      BoundCuts(kt, l, ls + SumElements(lhs.children[..i]));
    }
  }

  lemma ChildComparable(kt: KeyTrait, l: seq<Entry>, r: seq<Entry>, lhs: Tree, ls: nat, min: OrderedKey,
                        rhs: Tree, rs: nat, i: nat, childMin: OrderedKey)
    requires Comparable(kt, l, r, lhs, ls, min, rhs, rs) && lhs.Meta? && i < |lhs.children|
    requires IsMinOf(kt, l, lhs, ls, min, i, childMin)
    ensures Comparable(kt, l, r, lhs.children[i].node, ls + SumElements(lhs.children[..i]), childMin, rhs, rs)
  {
    var child, start := lhs.children[i].node, ls + SumElements(lhs.children[..i]);
    ChildIsNode(kt, l, r, lhs, ls, rhs, rs, i);
    ChildIsCut(kt, l, lhs, ls, min, i, childMin);
    ChildOccupies(kt, l, lhs, ls, i);
    forall k | In(SpanOf(child, start), k) ensures In(SpanOf(lhs, ls), k) {
    }
  }

  /** The search leaves out no right element with the key of a left one, if the bound is
      right; whatever the bound, it leaves out none behind. */
  lemma FoundKeeps(kt: KeyTrait, l: seq<Entry>, r: seq<Entry>, lhs: Tree, ls: nat, min: OrderedKey,
                   rhs: Tree, rs: nat, d: Tree, ds: nat, i: nat, j: nat)
    requires AreNodes(kt, l, r, lhs, ls, rhs, rs) && In(SpanOf(lhs, ls), i)
    requires (d, ds) == Deepest(kt, min, NodeMaxKey(kt, lhs, ls), rhs, rs)
    requires j < |r| && KeyAt(kt, l, i) == KeyAt(kt, r, j) && In(SpanOf(rhs, rs), j)
    ensures j < ds + |Flatten(d)| && (IsCut(kt, l, min, ls) ==> In(SpanOf(d, ds), j))
  {
    var upper := NodeMaxKey(kt, lhs, ls);
    DeepestNarrows(kt, r, min, upper, rhs, rs);
    NodeBound(kt, l, lhs, ls);
    BoundCuts(kt, l, ls + |Flatten(lhs)|);
    assert Below(kt, KeyAt(kt, l, i), upper);
    assert IsCut(kt, l, min, ls) ==> !Below(kt, KeyAt(kt, l, i), min);
  }

  /** The node found can stand for the node searched. */
  lemma Found(kt: KeyTrait, l: seq<Entry>, r: seq<Entry>, lhs: Tree, ls: nat, min: OrderedKey,
              rhs: Tree, rs: nat, d: Tree, ds: nat)
    requires AreNodes(kt, l, r, lhs, ls, rhs, rs)
    requires (d, ds) == Deepest(kt, min, NodeMaxKey(kt, lhs, ls), rhs, rs)
    ensures AreNodes(kt, l, r, lhs, ls, d, ds)
    ensures Comparable(kt, l, r, lhs, ls, min, rhs, rs) ==> Comparable(kt, l, r, lhs, ls, min, d, ds)
  {
    DeepestNarrows(kt, r, min, NodeMaxKey(kt, lhs, ls), rhs, rs);
    if Comparable(kt, l, r, lhs, ls, min, rhs, rs) {
      forall i, j | In(SpanOf(lhs, ls), i) && i < |l| && 0 <= j < |r| && KeyAt(kt, l, i) == KeyAt(kt, r, j)
        ensures In(SpanOf(d, ds), j)
      {
        FoundKeeps(kt, l, r, lhs, ls, min, rhs, rs, d, ds, i, j);
      }
    }
  }

  // ----- the comparison

  method CompareLeaves(tr: Traverser, kt: KeyTrait, lhs: Tree, ls: nat, rhs: Tree, rs: nat,
                       ghost l: seq<Entry>, ghost r: seq<Entry>) returns (results: seq<Piece>)
    requires AreNodes(kt, l, r, lhs, ls, rhs, rs)
    ensures Within(tr, results, ls, ls + |Flatten(lhs)|)
    ensures Exact(tr, kt, l, r, SpanOf(rhs, rs), results, ls, ls + |Flatten(lhs)|)
  {
    results := IterateLeaves(tr, Join(kt, l, r, Flatten(lhs), ls, Flatten(rhs), rs));
  }

  /** Results for a node: every element is reported rightly, as far as its window goes,
      unless an equal pair of nodes is misplaced. */
  ghost predicate NodeRight(tr: Traverser, kt: KeyTrait, l: seq<Entry>, r: seq<Entry>, lhs: Tree, ls: nat,
                            min: OrderedKey, rhs: Tree, rs: nat, results: seq<Piece>)
    requires WellShaped(lhs)
  {
    && ls + |Flatten(lhs)| <= |l| && Within(tr, results, ls, ls + |Flatten(lhs)|)
    && (Right(tr, kt, l, r, Windows(kt, lhs, ls, min, rhs, rs), results, ls) <==>
        !Misplaced(kt, lhs, ls, min, rhs, rs))
  }

  /** What a comparison of two nodes takes for granted: by position also the bound. */
  ghost predicate Ready(kt: KeyTrait, l: seq<Entry>, r: seq<Entry>,
                        lhs: Tree, ls: nat, min: OrderedKey, rhs: Tree, rs: nat) {
    AreNodes(kt, l, r, lhs, ls, rhs, rs) && (kt.ByIndex? ==> Comparable(kt, l, r, lhs, ls, min, rhs, rs))
  }

  /** Compares two nodes. Every element is reported rightly, as far as its window goes,
      unless an equal pair of nodes is misplaced. */
  method CompareNodes(tr: Traverser, kt: KeyTrait, lhs: Tree, ls: nat, min: OrderedKey, rhs: Tree, rs: nat,
                      ghost l: seq<Entry>, ghost r: seq<Entry>) returns (results: seq<Piece>)
    requires Ready(kt, l, r, lhs, ls, min, rhs, rs)
    ensures Within(tr, results, ls, ls + |Flatten(lhs)|)
    ensures Right(tr, kt, l, r, Windows(kt, lhs, ls, min, rhs, rs), results, ls) <==>
            !Misplaced(kt, lhs, ls, min, rhs, rs)
    decreases lhs
  {
    var d, ds := SmallestOverlap(kt, min, NodeMaxKey(kt, lhs, ls), rhs, rs);
    Found(kt, l, r, lhs, ls, min, rhs, rs, d, ds);
    if lhs == d {
      results := IdenticalHashes(tr, lhs, ls, d, ds);
      IdenticalDone(tr, kt, l, r, lhs, ls, min, rhs, rs, ds);
    } else if lhs.Leaf? || d.Leaf? {
      results := CompareLeaves(tr, kt, lhs, ls, d, ds, l, r);
      LeavesDone(tr, kt, l, r, lhs, ls, min, rhs, rs, d, ds, results);
    } else {
      results := CompareChildren(tr, kt, lhs, ls, min, d, ds, l, r);
    }
  }

  lemma IdenticalDone(tr: Traverser, kt: KeyTrait, l: seq<Entry>, r: seq<Entry>, lhs: Tree, ls: nat, min: OrderedKey,
                      rhs: Tree, rs: nat, ds: nat)
    requires AreNodes(kt, l, r, lhs, ls, lhs, ds) && (kt.ByIndex? ==> Comparable(kt, l, r, lhs, ls, min, lhs, ds))
    requires Deepest(kt, min, NodeMaxKey(kt, lhs, ls), rhs, rs) == (lhs, ds)
    ensures var results := IdenticalHashes(tr, lhs, ls, lhs, ds);
      && Within(tr, results, ls, ls + |Flatten(lhs)|)
      && (Right(tr, kt, l, r, Windows(kt, lhs, ls, min, rhs, rs), results, ls) <==>
          !Misplaced(kt, lhs, ls, min, rhs, rs))
  {
    IdenticalRight(tr, kt, l, r, lhs, ls, min, ds);
    OneWindow(tr, kt, l, r, Windows(kt, lhs, ls, min, rhs, rs), SpanOf(lhs, ds),
              IdenticalHashes(tr, lhs, ls, lhs, ds), ls);
  }

  lemma LeavesDone(tr: Traverser, kt: KeyTrait, l: seq<Entry>, r: seq<Entry>, lhs: Tree, ls: nat, min: OrderedKey,
                   rhs: Tree, rs: nat, d: Tree, ds: nat, results: seq<Piece>)
    requires AreNodes(kt, l, r, lhs, ls, d, ds) && lhs != d && (lhs.Leaf? || d.Leaf?)
    requires Deepest(kt, min, NodeMaxKey(kt, lhs, ls), rhs, rs) == (d, ds)
    requires Exact(tr, kt, l, r, SpanOf(d, ds), results, ls, ls + |Flatten(lhs)|)
    ensures !Misplaced(kt, lhs, ls, min, rhs, rs)
    ensures Right(tr, kt, l, r, Windows(kt, lhs, ls, min, rhs, rs), results, ls)
  {
    OneWindow(tr, kt, l, r, Windows(kt, lhs, ls, min, rhs, rs), SpanOf(d, ds), results, ls);
  }

  /** `ws` are the windows of the first `i` children. */
  ghost predicate WindowsUpTo(kt: KeyTrait, cs: seq<MetaEntry>, ls: nat, min: OrderedKey, rhs: Tree, rs: nat,
                              i: nat, start: nat, childMin: OrderedKey, ws: seq<IndexRange>)
    requires i <= |cs| && forall k :: 0 <= k < |cs| ==> WellShaped(cs[k].node)
  {
    WindowsFrom(kt, cs, ls, min, rhs, rs) == ws + WindowsFrom(kt, cs[i..], start, childMin, rhs, rs)
  }

  /** The results so far are right unless a pair is misplaced. */
  ghost predicate RightUpTo(tr: Traverser, kt: KeyTrait, l: seq<Entry>, r: seq<Entry>, cs: seq<MetaEntry>, ls: nat,
                            min: OrderedKey, rhs: Tree, rs: nat,
                            i: nat, start: nat, childMin: OrderedKey, results: seq<Piece>, ws: seq<IndexRange>)
    requires i <= |cs| && ls + |ws| <= |l| && forall k :: 0 <= k < |cs| ==> WellShaped(cs[k].node)
  {
    && Within(tr, results, ls, start)
    && (MisplacedFrom(kt, cs, ls, min, rhs, rs) <==>
        !Right(tr, kt, l, r, ws, results, ls) || MisplacedFrom(kt, cs[i..], start, childMin, rhs, rs))
  }

  /** Child `i` starts at `start`, with the bound `childMin` before it. */
  ghost predicate StartsAt(kt: KeyTrait, l: seq<Entry>, lhs: Tree, ls: nat, min: OrderedKey,
                           i: nat, start: nat, childMin: OrderedKey)
    requires lhs.Meta? && i <= |lhs.children|
  {
    start == ls + SumElements(lhs.children[..i]) && IsMinOf(kt, l, lhs, ls, min, i, childMin)
  }

  lemma StartOn(kt: KeyTrait, l: seq<Entry>, lhs: Tree, ls: nat, min: OrderedKey,
                i: nat, start: nat, childMin: OrderedKey)
    requires lhs.Meta? && i < |lhs.children| && WellFormed(kt, lhs) && WellShaped(lhs) && Occupies(l, lhs, ls)
    requires StartsAt(kt, l, lhs, ls, min, i, start, childMin) && WellShaped(lhs.children[i].node)
    ensures var child := lhs.children[i];
      && StartsAt(kt, l, lhs, ls, min, i + 1, start + child.numElements, NodeMaxKey(kt, child.node, start))
      && start + child.numElements <= ls + |Flatten(lhs)| && child.numElements == |Flatten(child.node)|
  {
    ChildOccupies(kt, l, lhs, ls, i);
    NextMin(kt, l, lhs, ls, min, i);
  }

  /** The first `i` children have been compared and the next starts at `start`. */
  ghost predicate ChildrenDone(tr: Traverser, kt: KeyTrait, l: seq<Entry>, r: seq<Entry>, lhs: Tree, ls: nat,
                               min: OrderedKey, rhs: Tree, rs: nat,
                               i: nat, start: nat, childMin: OrderedKey, results: seq<Piece>, ws: seq<IndexRange>)
    requires lhs.Meta? && i <= |lhs.children| && WellShaped(lhs) && ls + |Flatten(lhs)| <= |l|
  {
    && StartsAt(kt, l, lhs, ls, min, i, start, childMin) && start == ls + |ws| <= ls + |Flatten(lhs)|
    && WindowsUpTo(kt, lhs.children, ls, min, rhs, rs, i, start, childMin, ws)
    && RightUpTo(tr, kt, l, r, lhs.children, ls, min, rhs, rs, i, start, childMin, results, ws)
  }

  lemma WindowsOn(kt: KeyTrait, cs: seq<MetaEntry>, ls: nat, min: OrderedKey, rhs: Tree, rs: nat,
                  i: nat, start: nat, childMin: OrderedKey, ws: seq<IndexRange>)
    requires i < |cs| && forall k :: 0 <= k < |cs| ==> WellShaped(cs[k].node)
    requires WindowsUpTo(kt, cs, ls, min, rhs, rs, i, start, childMin, ws)
    ensures WindowsUpTo(kt, cs, ls, min, rhs, rs, i + 1, start + cs[i].numElements, NodeMaxKey(kt, cs[i].node, start),
                        ws + Windows(kt, cs[i].node, start, childMin, rhs, rs))
  {
    WindowsStep(kt, cs, i, start, childMin, rhs, rs);
    PlusAssociates(ws, Windows(kt, cs[i].node, start, childMin, rhs, rs),
                   WindowsFrom(kt, cs[i + 1..], start + cs[i].numElements, NodeMaxKey(kt, cs[i].node, start), rhs, rs));
  }

  lemma RightOn(tr: Traverser, kt: KeyTrait, l: seq<Entry>, r: seq<Entry>, cs: seq<MetaEntry>, ls: nat,
                min: OrderedKey, rhs: Tree, rs: nat, i: nat, start: nat, childMin: OrderedKey,
                results: seq<Piece>, ws: seq<IndexRange>, childResults: seq<Piece>)
    requires i < |cs| && forall k :: 0 <= k < |cs| ==> WellShaped(cs[k].node)
    requires start == ls + |ws| && |Flatten(cs[i].node)| == cs[i].numElements && start + cs[i].numElements <= |l|
    requires RightUpTo(tr, kt, l, r, cs, ls, min, rhs, rs, i, start, childMin, results, ws)
    requires NodeRight(tr, kt, l, r, cs[i].node, start, childMin, rhs, rs, childResults)
    ensures RightUpTo(tr, kt, l, r, cs, ls, min, rhs, rs, i + 1, start + cs[i].numElements,
                      NodeMaxKey(kt, cs[i].node, start), results + childResults,
                      ws + Windows(kt, cs[i].node, start, childMin, rhs, rs))
  {
    RightConcat(tr, kt, l, r, ws, Windows(kt, cs[i].node, start, childMin, rhs, rs), results, childResults, ls);
    MisplacedStep(kt, cs, i, start, childMin, rhs, rs);
  }

  lemma NextChild(tr: Traverser, kt: KeyTrait, l: seq<Entry>, r: seq<Entry>, lhs: Tree, ls: nat,
                  min: OrderedKey, rhs: Tree, rs: nat, i: nat, start: nat, childMin: OrderedKey,
                  results: seq<Piece>, ws: seq<IndexRange>, childResults: seq<Piece>,
                  start': nat, childMin': OrderedKey, results': seq<Piece>, ws': seq<IndexRange>)
    requires lhs.Meta? && i < |lhs.children| && Ready(kt, l, r, lhs, ls, min, rhs, rs)
    requires ChildrenDone(tr, kt, l, r, lhs, ls, min, rhs, rs, i, start, childMin, results, ws)
    requires WellShaped(lhs.children[i].node)
    requires NodeRight(tr, kt, l, r, lhs.children[i].node, start, childMin, rhs, rs, childResults)
    requires start' == start + lhs.children[i].numElements && childMin' == NodeMaxKey(kt, lhs.children[i].node, start)
    requires results' == results + childResults
    requires ws' == ws + Windows(kt, lhs.children[i].node, start, childMin, rhs, rs)
    ensures ChildrenDone(tr, kt, l, r, lhs, ls, min, rhs, rs, i + 1, start', childMin', results', ws')
  {
    var cs := lhs.children;
    StartOn(kt, l, lhs, ls, min, i, start, childMin);
    WindowsOn(kt, cs, ls, min, rhs, rs, i, start, childMin, ws);
    RightOn(tr, kt, l, r, cs, ls, min, rhs, rs, i, start, childMin, results, ws, childResults);
  }

  /** Compares each child of `lhs` with `rhs`, in order. */
  method CompareChildren(tr: Traverser, kt: KeyTrait, lhs: Tree, ls: nat, min: OrderedKey, rhs: Tree, rs: nat,
                         ghost l: seq<Entry>, ghost r: seq<Entry>) returns (results: seq<Piece>)
    requires Ready(kt, l, r, lhs, ls, min, rhs, rs)
    requires lhs.Meta?
    ensures Within(tr, results, ls, ls + |Flatten(lhs)|)
    ensures Right(tr, kt, l, r, WindowsFrom(kt, lhs.children, ls, min, rhs, rs), results, ls) <==>
            !MisplacedFrom(kt, lhs.children, ls, min, rhs, rs)
    decreases lhs, 2
  {
    var cs := lhs.children;
    results := [];
    var start: nat, childMin := ls, min;
    ghost var ws: seq<IndexRange> := [];
    assert cs[..0] == [] && cs[0..] == cs;
    for i := 0 to |cs|
      invariant ChildrenDone(tr, kt, l, r, lhs, ls, min, rhs, rs, i, start, childMin, results, ws)
    {
      results, start, childMin, ws := CompareNext(tr, kt, lhs, ls, min, rhs, rs, i, start, childMin, results, ws, l, r);
    }
    assert cs[|cs|..] == [];
    assert ws + [] == ws;
  }

  /** Compares the next child and adds its results. */
  method CompareNext(tr: Traverser, kt: KeyTrait, lhs: Tree, ghost ls: nat, ghost min: OrderedKey, rhs: Tree, rs: nat,
                     i: nat, start: nat, childMin: OrderedKey, results: seq<Piece>, ghost ws: seq<IndexRange>,
                     ghost l: seq<Entry>, ghost r: seq<Entry>)
    returns (results': seq<Piece>, start': nat, childMin': OrderedKey, ghost ws': seq<IndexRange>)
    requires Ready(kt, l, r, lhs, ls, min, rhs, rs)
    requires lhs.Meta? && i < |lhs.children|
    requires ChildrenDone(tr, kt, l, r, lhs, ls, min, rhs, rs, i, start, childMin, results, ws)
    ensures ChildrenDone(tr, kt, l, r, lhs, ls, min, rhs, rs, i + 1, start', childMin', results', ws')
    decreases lhs, 1
  {
    var childResults := CompareChild(tr, kt, lhs, ls, min, rhs, rs, i, start, childMin, l, r);
    results' := results + childResults;
    ws' := ws + Windows(kt, lhs.children[i].node, start, childMin, rhs, rs);
    childMin' := NodeMaxKey(kt, lhs.children[i].node, start);
    start' := start + lhs.children[i].numElements;
    NextChild(tr, kt, l, r, lhs, ls, min, rhs, rs, i, start, childMin, results, ws, childResults,
              start', childMin', results', ws');
  }

  method CompareChild(tr: Traverser, kt: KeyTrait, lhs: Tree, ghost ls: nat, ghost min: OrderedKey, rhs: Tree, rs: nat,
                      i: nat, start: nat, childMin: OrderedKey, ghost l: seq<Entry>, ghost r: seq<Entry>)
    returns (results: seq<Piece>)
    requires Ready(kt, l, r, lhs, ls, min, rhs, rs)
    requires lhs.Meta? && i < |lhs.children|
    requires StartsAt(kt, l, lhs, ls, min, i, start, childMin)
    ensures WellShaped(lhs.children[i].node)
    ensures NodeRight(tr, kt, l, r, lhs.children[i].node, start, childMin, rhs, rs, results)
    decreases lhs, 0
  {
    ChildIsNode(kt, l, r, lhs, ls, rhs, rs, i);
    if kt.ByIndex? {
      ChildComparable(kt, l, r, lhs, ls, min, rhs, rs, i, childMin);
    }
    ChildOccupies(kt, l, lhs, ls, i);
    results := CompareNodes(tr, kt, lhs.children[i].node, start, childMin, rhs, rs, l, r);
  }
}

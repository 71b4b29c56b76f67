/** Three-way merge: the edits of two versions of a base are walked side by side,
    checked for conflicts and spliced into the base. */
module Merger {
  import opened Keys
  import opened Trees
  import opened Ranges
  import opened Diffs
  import opened Edits
  import opened Splices
  import opened Segments
  import opened Outcomes

  /** `Failed` is the empty hash, `Aborted` a fatal check of the merger. The elements are
      what the builder is to store. Its checks see keys out of order within a leaf, and
      maximal keys out of order within a meta node; others are stored as they are. */
  datatype MergeResult = Merged(elements: seq<Entry>) | Failed | Aborted

  // ----- comparing the contents of two edits

  function SegmentBytes(seg: seq<Entry>): seq<Byte> {
    if seg == [] then [] else seg[0].data + SegmentBytes(seg[1..])
  }

  lemma {:induction false} MemcmpSelf(a: seq<Byte>, n: nat)
    requires n <= |a|
    ensures Memcmp(a, a, n) == 0
    decreases n
  {
    if n > 0 {
      MemcmpSelf(a[1..], n - 1);
    }
  }

  /** Meant to compare the two ranges byte by byte, this compares every left segment
      with itself: two ranges pass as soon as they hold equally many elements. */
  method IsIdenticalContents(lhs: Tree, lhsRange: IndexRange, rhs: Tree, rhsRange: IndexRange)
    returns (r: Option<bool>)
    requires WellFormed(ByKey, lhs) && lhsRange.Upper() <= |Flatten(lhs)|
    requires WellFormed(ByKey, rhs) && rhsRange.Upper() <= |Flatten(rhs)|
    ensures lhsRange.num != rhsRange.num ==> r == Some(false)
    ensures lhsRange.num == rhsRange.num ==>
      r == if lhsRange.start == |Flatten(lhs)| || rhsRange.start == |Flatten(rhs)| then None else Some(true)
  {
    if lhsRange.num != rhsRange.num {
      return Some(false);
    }
    var lhsFound := GetSegmentsFromIndexRange(lhs, lhsRange);
    if lhsFound.None? {
      return None;
    }
    var rhsFound := GetSegmentsFromIndexRange(rhs, rhsRange);
    if rhsFound.None? {
      return None;
    }
    var ls, rs := lhsFound.value, rhsFound.value;
    var i, j, lhsIdx, rhsIdx := 0, 0, 0, 0;
    var identical := true;
    while identical && i < |ls| && j < |rs|
      invariant identical && i <= |ls| && j <= |rs|
      invariant i < |ls| ==> lhsIdx <= |SegmentBytes(ls[i])|
      invariant j < |rs| ==> rhsIdx <= |SegmentBytes(rs[j])|
      invariant 0 <= lhsIdx && 0 <= rhsIdx
      decreases |ls| - i + |rs| - j
    {
      var l := SegmentBytes(ls[i]);
      var lhsRemaining, rhsRemaining := |l| - lhsIdx, |SegmentBytes(rs[j])| - rhsIdx;
      if lhsRemaining < rhsRemaining {
        MemcmpSelf(l, lhsRemaining);
        identical := Memcmp(l, l, lhsRemaining) == 0;
        i, lhsIdx, rhsIdx := i + 1, 0, rhsIdx + lhsRemaining;
      } else if lhsRemaining == rhsRemaining {
        MemcmpSelf(l, rhsRemaining);
        identical := Memcmp(l, l, rhsRemaining) == 0;
        i, j, lhsIdx, rhsIdx := i + 1, j + 1, 0, 0;
      } else {
        MemcmpSelf(l, rhsRemaining);
        identical := Memcmp(l, l, rhsRemaining) == 0;
        j, rhsIdx, lhsIdx := j + 1, 0, lhsIdx + rhsRemaining;
      }
    }
    r := Some(identical);
  }

  // ----- the walk over two edit lists

  function Content(node: seq<Entry>, e: RangeMap): seq<Entry>
    requires e.rhs.Upper() <= |node|
  {
    node[e.rhs.start..e.rhs.Upper()]
  }

  ghost predicate Bounded(node: seq<Entry>, edits: seq<RangeMap>) {
    forall k :: 0 <= k < |edits| ==> edits[k].rhs.Upper() <= |node|
  }

  /** One edit of both sides: as written, equal base ranges and equal element counts;
      as intended, equal contents too. */
  predicate SameEdit(intended: bool, n1: seq<Entry>, n2: seq<Entry>, a: RangeMap, b: RangeMap)
    requires a.rhs.Upper() <= |n1| && b.rhs.Upper() <= |n2|
  {
    a.lhs == b.lhs && a.rhs.num == b.rhs.num && (intended ==> Content(n1, a) == Content(n2, b))
  }

  /** A removal of the tail of the base: its range of the version starts at the end. */
  predicate AtEnd(node: seq<Entry>, e: RangeMap) {
    e.rhs.start == |node|
  }

  datatype Walked = Ops(ops: seq<Splice>) | Conflict | Abort

  function Prepend(ops: seq<Splice>, w: Walked): Walked {
    if w.Ops? then Ops(ops + w.ops) else w
  }

  function Take(node: seq<Entry>, e: RangeMap, w: Walked): Walked
    requires e.rhs.Upper() <= |node|
  {
    if AtEnd(node, e) then Abort else Prepend([SpliceOf(e, node)], w)
  }

  function Walk(intended: bool, n1: seq<Entry>, n2: seq<Entry>, es: seq<RangeMap>, fs: seq<RangeMap>): Walked
    requires Bounded(n1, es) && Bounded(n2, fs)
    decreases |es| + |fs|
  {
    if es == [] && fs == [] then Ops([])
    else if es == [] then Take(n2, fs[0], Walk(intended, n1, n2, es, fs[1..]))
    else if fs == [] then Take(n1, es[0], Walk(intended, n1, n2, es[1..], fs))
    else
      var a, b := es[0], fs[0];
      if a.lhs == b.lhs && a.rhs.num == b.rhs.num && (AtEnd(n1, a) || AtEnd(n2, b)) then Abort
      else if SameEdit(intended, n1, n2, a, b) then Take(n1, a, Walk(intended, n1, n2, es[1..], fs[1..]))
      else if a.lhs.Upper() <= b.lhs.start then Take(n1, a, Walk(intended, n1, n2, es[1..], fs))
      else if b.lhs.Upper() <= a.lhs.start then Take(n2, b, Walk(intended, n1, n2, es, fs[1..]))
      else Conflict
  }

  // ----- the edits of a version

  lemma KeyMapPair(base: seq<Entry>, node: seq<Entry>, out: set<Entry>, k: nat, d: nat)
    requires Sorted(ByKey, base) && Sorted(ByKey, node)
    requires k < |KeyMaps(base, node, out)| && d < KeyMaps(base, node, out)[k].lhs.num
    ensures var m := KeyMaps(base, node, out)[k];
      m.lhs.start + d < |base| && m.rhs.start + d < |node| && base[m.lhs.start + d] == node[m.rhs.start + d]
  {
    KeyMapsCorrect(base, node, out);
    var maps := KeyMaps(base, node, out);
    assert Pairs(maps[k], maps[k].lhs.start + d, maps[k].rhs.start + d);
    assert Paired(maps, maps[k].lhs.start + d, maps[k].rhs.start + d);
  }

  lemma KeyMapsEqual(base: seq<Entry>, node: seq<Entry>, out: set<Entry>)
    requires Sorted(ByKey, base) && Sorted(ByKey, node)
    ensures OrderedMaps(KeyMaps(base, node, out)) && PairsEqual(base, node, KeyMaps(base, node, out))
  {
    KeyMapsCorrect(base, node, out);
    var maps := KeyMaps(base, node, out);
    forall k | 0 <= k < |maps|
      ensures maps[k].lhs.Upper() <= |base| && maps[k].rhs.Upper() <= |node|
      ensures base[maps[k].lhs.start..maps[k].lhs.Upper()] == node[maps[k].rhs.start..maps[k].rhs.Upper()]
    {
      var m := maps[k];
      KeyMapPair(base, node, out, k, m.lhs.num - 1);
      var bs, ns := base[m.lhs.start..m.lhs.Upper()], node[m.rhs.start..m.rhs.Upper()];
      forall d | 0 <= d < |bs| ensures bs[d] == ns[d] {
        KeyMapPair(base, node, out, k, d);
      }
    }
  }

  /** Edits that turn `base` into `node`; the elements in `out` are replaced by themselves. */
  function EditsBut(base: seq<Entry>, node: seq<Entry>, out: set<Entry>): (edits: seq<RangeMap>)
    requires Sorted(ByKey, base) && Sorted(ByKey, node)
    ensures Script(base, node, edits, 0, 0) && Apart(edits) && Bounded(node, edits)
    ensures forall k :: 0 <= k < |edits| ==> edits[k].lhs.Upper() <= |base|
  {
    KeyMapsEqual(base, node, out);
    FlipIsScript(base, node, KeyMaps(base, node, out));
    ScriptBounds(base, node, Flipped(KeyMaps(base, node, out), |base|, |node|), 0, 0);
    Flipped(KeyMaps(base, node, out), |base|, |node|)
  }

  /** The edits that turn `base` into `node`. */
  function EditsOf(base: seq<Entry>, node: seq<Entry>): (edits: seq<RangeMap>)
    requires Sorted(ByKey, base) && Sorted(ByKey, node)
    ensures Script(base, node, edits, 0, 0) && Apart(edits) && Bounded(node, edits)
    ensures forall k :: 0 <= k < |edits| ==> edits[k].lhs.Upper() <= |base|
  {
    EditsBut(base, node, {})
  }

  /** Edits in increasing order within [p, n]. */
  ghost predicate Ranged(edits: seq<RangeMap>, p: nat, n: nat) {
    Apart(edits) && forall k :: 0 <= k < |edits| ==> p <= edits[k].lhs.start && edits[k].lhs.Upper() <= n
  }

  lemma RangedTail(edits: seq<RangeMap>, p: nat, n: nat)
    requires Ranged(edits, p, n) && edits != []
    ensures Ranged(edits[1..], edits[0].lhs.Upper(), n)
  {
  }

  lemma RangedFrom(edits: seq<RangeMap>, p: nat, q: nat, n: nat)
    requires Ranged(edits, p, n) && (edits != [] ==> q <= edits[0].lhs.start)
    ensures Ranged(edits, q, n)
  {
    forall k | 0 <= k < |edits| ensures q <= edits[k].lhs.start {
      assert k > 0 ==> edits[0].lhs.Upper() < edits[k].lhs.start;
    }
  }

  /** Whatever the walk applies is in order: the spliced base ranges are sorted and
      disjoint. */
  lemma {:induction false} WalkInOrder(intended: bool, n1: seq<Entry>, n2: seq<Entry>,
                                       es: seq<RangeMap>, fs: seq<RangeMap>, p: nat, n: nat)
    requires Bounded(n1, es) && Bounded(n2, fs) && Ranged(es, p, n) && Ranged(fs, p, n) && p <= n
    ensures Walk(intended, n1, n2, es, fs).Ops? ==> InOrder(Walk(intended, n1, n2, es, fs).ops, p, n)
    decreases |es| + |fs|
  {
    var w := Walk(intended, n1, n2, es, fs);
    if w.Ops? && w.ops != [] {
      if es != [] { RangedTail(es, p, n); }
      if fs != [] { RangedTail(fs, p, n); }
      if es == [] {
        WalkInOrder(intended, n1, n2, es, fs[1..], fs[0].lhs.Upper(), n);
        assert w.ops[1..] == Walk(intended, n1, n2, es, fs[1..]).ops;
      } else if fs == [] {
        WalkInOrder(intended, n1, n2, es[1..], fs, es[0].lhs.Upper(), n);
        assert w.ops[1..] == Walk(intended, n1, n2, es[1..], fs).ops;
      } else if SameEdit(intended, n1, n2, es[0], fs[0]) {
        WalkInOrder(intended, n1, n2, es[1..], fs[1..], es[0].lhs.Upper(), n);
        assert w.ops[1..] == Walk(intended, n1, n2, es[1..], fs[1..]).ops;
      } else if es[0].lhs.Upper() <= fs[0].lhs.start {
        RangedFrom(fs, p, es[0].lhs.Upper(), n);
        WalkInOrder(intended, n1, n2, es[1..], fs, es[0].lhs.Upper(), n);
        assert w.ops[1..] == Walk(intended, n1, n2, es[1..], fs).ops;
      } else {
        RangedFrom(es, p, fs[0].lhs.Upper(), n);
        WalkInOrder(intended, n1, n2, es, fs[1..], fs[0].lhs.Upper(), n);
        assert w.ops[1..] == Walk(intended, n1, n2, es, fs[1..]).ops;
      }
    }
  }

  // ----- the merge

  function Outcome(intended: bool, base: seq<Entry>, n1: seq<Entry>, n2: seq<Entry>,
                   es: seq<RangeMap>, fs: seq<RangeMap>): MergeResult
    requires Bounded(n1, es) && Bounded(n2, fs) && Ranged(es, 0, |base|) && Ranged(fs, 0, |base|)
  {
    WalkInOrder(intended, n1, n2, es, fs, 0, |base|);
    match Walk(intended, n1, n2, es, fs)
    case Ops(ops) => Merged(Spliced(base, ops, 0))
    case Conflict => Failed
    case Abort => Aborted
  }

  /** The outcome of merging two versions of a base, with the written or the intended
      comparison of edits. */
  function MergeOf(intended: bool, base: seq<Entry>, n1: seq<Entry>, n2: seq<Entry>): MergeResult
    requires Sorted(ByKey, base) && Sorted(ByKey, n1) && Sorted(ByKey, n2)
  {
    Outcome(intended, base, n1, n2, EditsOf(base, n1), EditsOf(base, n2))
  }

  /** The builder's operands amount to `ops`, whatever insertions it has joined. */
  ghost predicate Amounts(base: seq<Entry>, operands: seq<Splice>, ops: seq<Splice>) {
    && Disjoint(operands, |base|) && InOrder(operands, 0, |base|) && InOrder(ops, 0, |base|)
    && End(operands, 0) == End(ops, 0) && Out(base, operands, 0) == Out(base, ops, 0)
  }

  /** An insertion behind all others can only be joined to the last one. */
  lemma JoinsLast(base: seq<Entry>, operands: seq<Splice>, o: Splice)
    requires Disjoint(operands, |base|) && End(operands, 0) <= o.start && Joins(operands, o)
    ensures operands != []
    ensures var last := |operands| - 1;
      LowerBound(operands, o.Upper()) == last && operands[last].num == o.num == 0 && operands[last].start == o.start
  {
    var k, last := LowerBound(operands, o.Upper()), |operands| - 1;
    var mine, l := operands[k], operands[last];
    assert k < last ==> Clear(mine, l);
  }

  lemma PlaceJoins(base: seq<Entry>, operands: seq<Splice>, o: Splice)
    requires Disjoint(operands, |base|) && InOrder(operands, 0, |base|)
    requires End(operands, 0) <= o.start && o.Upper() <= |base| && Joins(operands, o)
    ensures var placed := Place(operands, o);
      && InOrder(placed, 0, |base|) && End(placed, 0) == o.Upper()
      && Out(base, placed, 0) == Out(base, operands, 0) + base[End(operands, 0)..o.start] + o.content
  {
    JoinsLast(base, operands, o);
    var last := |operands| - 1;
    var init, l := operands[..last], operands[last];
    var joined := o.(content := l.content + o.content);
    assert operands == init + [l];
    PlacedLast(operands, init, l, o);
    InOrderPrefix(operands, 0, |base|);
    JoinedOut(base, init, l, joined, o);
  }

  lemma PlacedLast(operands: seq<Splice>, init: seq<Splice>, l: Splice, o: Splice)
    requires operands == init + [l] && Joins(operands, o) && LowerBound(operands, o.Upper()) == |init|
    ensures Place(operands, o) == init + [o.(content := l.content + o.content)]
  {
  }

  lemma JoinedOut(base: seq<Entry>, init: seq<Splice>, l: Splice, joined: Splice, o: Splice)
    requires InOrder(init, 0, |base|) && End(init, 0) <= l.start && l.Upper() <= |base|
    requires l.num == o.num == 0 && l.start == o.start && joined == o.(content := l.content + o.content)
    ensures InOrder(init + [l], 0, |base|) && InOrder(init + [joined], 0, |base|)
    ensures Out(base, init + [joined], 0) == Out(base, init + [l], 0) + base[l.Upper()..o.start] + o.content
  {
    OutAppend(base, init, 0, l);
    OutAppend(base, init, 0, joined);
    assert base[l.Upper()..o.start] == [];
    var front := Out(base, init, 0) + base[End(init, 0)..l.start];
    assert front + (l.content + o.content) == front + l.content + [] + o.content;
  }

  lemma PlaceAppends(base: seq<Entry>, operands: seq<Splice>, o: Splice)
    requires Disjoint(operands, |base|) && InOrder(operands, 0, |base|)
    requires End(operands, 0) <= o.start && o.Upper() <= |base| && !Joins(operands, o)
    ensures Place(operands, o) == operands + [o]
  {
    InOrderBounds(operands, 0, |base|);
  }

  /** An operand behind all others is taken and only adds its own effect. */
  lemma PlaceLast(base: seq<Entry>, operands: seq<Splice>, o: Splice)
    requires Disjoint(operands, |base|) && InOrder(operands, 0, |base|)
    requires End(operands, 0) <= o.start && o.Upper() <= |base|
    ensures !Overlaps(operands, o)
    ensures var placed := Place(operands, o);
      && Disjoint(placed, |base|) && InOrder(placed, 0, |base|) && End(placed, 0) == o.Upper()
      && Out(base, placed, 0) == Out(base, operands, 0) + base[End(operands, 0)..o.start] + o.content
  {
    InOrderBounds(operands, 0, |base|);
    assert !Overlaps(operands, o);
    PlaceDisjoint(operands, |base|, o);
    if Joins(operands, o) {
      PlaceJoins(base, operands, o);
    } else {
      PlaceAppends(base, operands, o);
      OutAppend(base, operands, 0, o);
    }
  }

  /** Fetches the elements of one edit and hands them to the builder; `false` is the
      fatal exit. */
  method ApplyEdit(builder: AdvancedNodeBuilder, node: Tree, e: RangeMap, ghost ops: seq<Splice>) returns (ok: bool)
    requires builder.Valid() && Amounts(builder.base, builder.operands, ops)
    requires End(ops, 0) <= e.lhs.start && e.lhs.Upper() <= |builder.base|
    requires WellFormed(ByKey, node) && e.rhs.Upper() <= |Flatten(node)|
    modifies builder
    ensures builder.Valid() && (ok <==> !AtEnd(Flatten(node), e))
    ensures ok ==> Amounts(builder.base, builder.operands, ops + [SpliceOf(e, Flatten(node))])
  {
    var segs := GetSegmentsFromIndexRange(node, e.rhs);
    if segs.None? {
      return false;
    }
    ghost var o := SpliceOf(e, Flatten(node));
    PlaceLast(builder.base, builder.operands, o);
    OutAppend(builder.base, ops, 0, o);
    ok := builder.AddSplice(e.lhs.start, e.lhs.num, segs.value);
  }

  lemma PrependTake(ops: seq<Splice>, node: seq<Entry>, e: RangeMap, w: Walked)
    requires e.rhs.Upper() <= |node|
    ensures Prepend(ops, Take(node, e, w)) ==
            if AtEnd(node, e) then Abort else Prepend(ops + [SpliceOf(e, node)], w)
  {
    if w.Ops? {
      assert ops + ([SpliceOf(e, node)] + w.ops) == ops + [SpliceOf(e, node)] + w.ops;
    }
  }

  /** How far the walk has come: `ops` have been applied, `es` and `fs` are still to do. */
  ghost predicate Walking(base: seq<Entry>, n1: seq<Entry>, n2: seq<Entry>, whole: Walked,
                          ops: seq<Splice>, es: seq<RangeMap>, fs: seq<RangeMap>) {
    && Bounded(n1, es) && Bounded(n2, fs) && InOrder(ops, 0, |base|)
    && Ranged(es, End(ops, 0), |base|) && Ranged(fs, End(ops, 0), |base|)
    && whole == Prepend(ops, Walk(false, n1, n2, es, fs))
  }

  lemma WalkFirst(base: seq<Entry>, n1: seq<Entry>, n2: seq<Entry>, whole: Walked,
                  ops: seq<Splice>, es: seq<RangeMap>, fs: seq<RangeMap>)
    requires Walking(base, n1, n2, whole, ops, es, fs) && es != []
    requires fs == [] || (!SameEdit(false, n1, n2, es[0], fs[0]) && es[0].lhs.Upper() <= fs[0].lhs.start)
    ensures AtEnd(n1, es[0]) ==> whole == Abort
    ensures !AtEnd(n1, es[0]) ==> Walking(base, n1, n2, whole, ops + [SpliceOf(es[0], n1)], es[1..], fs)
  {
    PrependTake(ops, n1, es[0], Walk(false, n1, n2, es[1..], fs));
    InOrderAppend(ops, 0, |base|, SpliceOf(es[0], n1));
    RangedTail(es, End(ops, 0), |base|);
    RangedFrom(fs, End(ops, 0), es[0].lhs.Upper(), |base|);
  }

  lemma WalkSecond(base: seq<Entry>, n1: seq<Entry>, n2: seq<Entry>, whole: Walked,
                   ops: seq<Splice>, es: seq<RangeMap>, fs: seq<RangeMap>)
    requires Walking(base, n1, n2, whole, ops, es, fs) && fs != []
    requires es == [] || (!SameEdit(false, n1, n2, es[0], fs[0]) && es[0].lhs.Upper() > fs[0].lhs.start
                          && fs[0].lhs.Upper() <= es[0].lhs.start)
    ensures AtEnd(n2, fs[0]) ==> whole == Abort
    ensures !AtEnd(n2, fs[0]) ==> Walking(base, n1, n2, whole, ops + [SpliceOf(fs[0], n2)], es, fs[1..])
  {
    PrependTake(ops, n2, fs[0], Walk(false, n1, n2, es, fs[1..]));
    InOrderAppend(ops, 0, |base|, SpliceOf(fs[0], n2));
    RangedTail(fs, End(ops, 0), |base|);
    RangedFrom(es, End(ops, 0), fs[0].lhs.Upper(), |base|);
  }

  lemma WalkBoth(base: seq<Entry>, n1: seq<Entry>, n2: seq<Entry>, whole: Walked,
                 ops: seq<Splice>, es: seq<RangeMap>, fs: seq<RangeMap>)
    requires Walking(base, n1, n2, whole, ops, es, fs) && |es| > 0 && |fs| > 0
    requires es[0].lhs == fs[0].lhs && es[0].rhs.num == fs[0].rhs.num
    ensures AtEnd(n1, es[0]) || AtEnd(n2, fs[0]) ==> whole == Abort
    ensures !AtEnd(n1, es[0]) && !AtEnd(n2, fs[0]) ==>
              Walking(base, n1, n2, whole, ops + [SpliceOf(es[0], n1)], es[1..], fs[1..])
  {
    PrependTake(ops, n1, es[0], Walk(false, n1, n2, es[1..], fs[1..]));
    InOrderAppend(ops, 0, |base|, SpliceOf(es[0], n1));
    RangedTail(es, End(ops, 0), |base|);
    RangedTail(fs, End(ops, 0), |base|);
  }

  /** What one round of the walk did: it took the first edit of one side or of both,
      or it ended the merge. */
  datatype Round = First | Second | Both | Stopped(result: MergeResult)

  /** One round: decides which edit comes next and applies it. */
  method MergeRound(builder: AdvancedNodeBuilder, node1: Tree, node2: Tree,
                    es: seq<RangeMap>, fs: seq<RangeMap>, ghost whole: Walked, ghost ops: seq<Splice>)
    returns (round: Round, ghost ops': seq<Splice>)
    requires es != [] || fs != []
    requires builder.Valid() && Amounts(builder.base, builder.operands, ops)
    requires WellFormed(ByKey, node1) && WellFormed(ByKey, node2)
    requires Walking(builder.base, Flatten(node1), Flatten(node2), whole, ops, es, fs)
    modifies builder
    ensures builder.Valid()
    ensures round.Stopped? ==> whole == if round.result.Failed? then Conflict else Abort
    ensures round.Stopped? ==> !round.result.Merged?
    ensures !round.Stopped? ==>
      && (round.Second? || es != []) && (round.First? || fs != [])
      && Amounts(builder.base, builder.operands, ops')
      && Walking(builder.base, Flatten(node1), Flatten(node2), whole, ops',
                 if round.Second? then es else es[1..], if round.First? then fs else fs[1..])
  {
    ghost var b, n1, n2 := builder.base, Flatten(node1), Flatten(node2);
    if es == [] {
      round := Second;
    } else if fs == [] {
      round := First;
    } else {
      var same := Some(false);
      if es[0].lhs == fs[0].lhs {
        same := IsIdenticalContents(node1, es[0].rhs, node2, fs[0].rhs);
      }
      if same.None? {
        WalkBoth(b, n1, n2, whole, ops, es, fs);
        return Stopped(Aborted), ops;
      }
      if same.value {
        round := Both;
      } else if es[0].lhs.Upper() <= fs[0].lhs.start {
        round := First;
      } else if fs[0].lhs.Upper() <= es[0].lhs.start {
        round := Second;
      } else {
        return Stopped(Failed), ops;
      }
    }
    var applied;
    if round.Second? {
      WalkSecond(b, n1, n2, whole, ops, es, fs);
      ops' := ops + [SpliceOf(fs[0], n2)];
      applied := ApplyEdit(builder, node2, fs[0], ops);
    } else {
      if round.First? {
        WalkFirst(b, n1, n2, whole, ops, es, fs);
      } else {
        WalkBoth(b, n1, n2, whole, ops, es, fs);
      }
      ops' := ops + [SpliceOf(es[0], n1)];
      applied := ApplyEdit(builder, node1, es[0], ops);
    }
    if !applied {
      round := Stopped(Aborted);
    }
  }

  lemma SuffixStep(s: seq<RangeMap>, k: nat)
    requires k <= |s|
    ensures k < |s| ==> s[k..] != [] && s[k..][1..] == s[k + 1..]
    ensures k == |s| ==> s[k..] == []
  {
  }

  /** Walks both edit lists; the builder then holds all splices, unless the merge ended. */
  method MergeEdits(builder: AdvancedNodeBuilder, node1: Tree, node2: Tree, es: seq<RangeMap>, fs: seq<RangeMap>)
    returns (stopped: Option<MergeResult>, ghost ops: seq<Splice>)
    requires builder.Valid() && builder.operands == []
    requires WellFormed(ByKey, node1) && WellFormed(ByKey, node2)
    requires Bounded(Flatten(node1), es) && Bounded(Flatten(node2), fs)
    requires Ranged(es, 0, |builder.base|) && Ranged(fs, 0, |builder.base|)
    modifies builder
    ensures builder.Valid()
    ensures var w := Walk(false, Flatten(node1), Flatten(node2), es, fs);
      match stopped
      case None => w == Ops(ops) && Amounts(builder.base, builder.operands, ops)
      case Some(r) => !r.Merged? && w == if r.Failed? then Conflict else Abort
  {
    ghost var b, n1, n2 := builder.base, Flatten(node1), Flatten(node2);
    ghost var whole := Walk(false, n1, n2, es, fs);
    ops := [];
    var i, j := 0, 0;
    assert es[0..] == es && fs[0..] == fs;
    while i < |es| || j < |fs|
      invariant i <= |es| && j <= |fs| && builder.Valid()
      invariant Amounts(b, builder.operands, ops)
      invariant Walking(b, n1, n2, whole, ops, es[i..], fs[j..])
      decreases |es| - i + |fs| - j
    {
      SuffixStep(es, i);
      SuffixStep(fs, j);
      var round;
      round, ops := MergeRound(builder, node1, node2, es[i..], fs[j..], whole, ops);
      match round {
        case First => i := i + 1;
        case Second => j := j + 1;
        case Both => i, j := i + 1, j + 1;
        case Stopped(r) => return Some(r), ops;
      }
    }
    SuffixStep(es, i);
    SuffixStep(fs, j);
    stopped := None;
  }

  /** The edits of a version, as far as the comparison with the base sees the elements. */
  ghost function EditsSeen(base: Tree, node: Tree): (edits: seq<RangeMap>)
    requires IsTree(ByKey, base) && IsTree(ByKey, node)
    ensures Bounded(Flatten(node), edits) && Ranged(edits, 0, |Flatten(base)|)
  {
    EditsBut(Flatten(base), Flatten(node), Unseen(base, node))
  }

  method MapAndFlip(base: Tree, node: Tree) returns (edits: seq<RangeMap>)
    requires IsTree(ByKey, base) && IsTree(ByKey, node) && Flatten(base) != []
    ensures edits == EditsSeen(base, node)
  {
    NumElementsIsLength(ByKey, base);
    NumElementsIsLength(ByKey, node);
    ghost var b, n, out := Flatten(base), Flatten(node), Unseen(base, node);
    KeyMapsEqual(b, n, out);
    FlipIsScript(b, n, KeyMaps(b, n, out));
    var maps := KeyMap(base, node);
    edits := Flip(maps.value, NumElements(base), NumElements(node));
  }

  /** Merges two versions of a base. An empty base or version is refused. */
  method Merge(base: Tree, node1: Tree, node2: Tree) returns (r: MergeResult)
    requires IsTree(ByKey, base) && IsTree(ByKey, node1) && IsTree(ByKey, node2)
    ensures r == if Flatten(base) == [] || Flatten(node1) == [] || Flatten(node2) == [] then Failed
                 else Outcome(false, Flatten(base), Flatten(node1), Flatten(node2),
                              EditsSeen(base, node1), EditsSeen(base, node2))
  {
    NumElementsIsLength(ByKey, base);
    NumElementsIsLength(ByKey, node1);
    NumElementsIsLength(ByKey, node2);
    if NumElements(base) == 0 || NumElements(node1) == 0 || NumElements(node2) == 0 {
      return Failed;
    }
    var es := MapAndFlip(base, node1);
    var fs := MapAndFlip(base, node2);
    var builder := new AdvancedNodeBuilder(Flatten(base));
    var stopped;
    ghost var ops;
    stopped, ops := MergeEdits(builder, node1, node2, es, fs);
    if stopped.Some? {
      return stopped.value;
    }
    var elements := builder.Commit();
    r := Merged(elements);
  }

  /** Where no element of the base is overlooked, the edits seen are those of the version. */
  lemma NoneUnseen(base: Tree, node: Tree)
    requires IsTree(ByKey, base) && IsTree(ByKey, node)
    requires forall x :: x in Flatten(base) ==> !Overlooks(base, node, x)
    ensures EditsSeen(base, node) == EditsOf(Flatten(base), Flatten(node))
  {
    assert Unseen(base, node) == {};
  }
}

/** What a merge promises: when it conflicts, what it yields, and its laws. */
module MergeLaws {
  import opened Trees
  import opened Ranges
  import opened Diffs
  import opened Edits
  import opened Splices
  import opened Merger

  // ----- when a merge conflicts, aborts or goes through

  /** Two edits overlap in the base without being the same edit. */
  predicate Clash(intended: bool, n1: seq<Entry>, n2: seq<Entry>, a: RangeMap, b: RangeMap)
    requires a.rhs.Upper() <= |n1| && b.rhs.Upper() <= |n2|
  {
    a.lhs.start < b.lhs.Upper() && b.lhs.start < a.lhs.Upper() && !SameEdit(intended, n1, n2, a, b)
  }

  ghost predicate Clashes(intended: bool, n1: seq<Entry>, n2: seq<Entry>, es: seq<RangeMap>, fs: seq<RangeMap>)
    requires Bounded(n1, es) && Bounded(n2, fs)
  {
    exists i, j :: 0 <= i < |es| && 0 <= j < |fs| && Clash(intended, n1, n2, es[i], fs[j])
  }

  ghost predicate CutsTail(node: seq<Entry>, edits: seq<RangeMap>) {
    exists k :: 0 <= k < |edits| && AtEnd(node, edits[k])
  }

  /** Edits of a version of a base of `n` elements: in order, and one that starts at the
      end of the version runs to the end of the base. */
  ghost predicate EditList(node: seq<Entry>, edits: seq<RangeMap>, p: nat, n: nat) {
    && Bounded(node, edits) && Ranged(edits, p, n)
    && (forall k :: 0 <= k < |edits| && AtEnd(node, edits[k]) ==> edits[k].lhs.Upper() == n)
  }

  lemma EditListTail(node: seq<Entry>, edits: seq<RangeMap>, p: nat, n: nat)
    requires EditList(node, edits, p, n) && edits != []
    ensures EditList(node, edits[1..], edits[0].lhs.Upper(), n)
    ensures CutsTail(node, edits) <==> AtEnd(node, edits[0]) || CutsTail(node, edits[1..])
    ensures AtEnd(node, edits[0]) ==> |edits| == 1
  {
    RangedTail(edits, p, n);
    if CutsTail(node, edits[1..]) {
      var k :| 0 <= k < |edits[1..]| && AtEnd(node, edits[1..][k]);
      assert AtEnd(node, edits[k + 1]);
    }
    if CutsTail(node, edits) && !AtEnd(node, edits[0]) {
      var k :| 0 <= k < |edits| && AtEnd(node, edits[k]);
      assert AtEnd(node, edits[1..][k - 1]);
    }
  }

  /** An edit that lies before the first edit of the other side clashes with none. */
  lemma ClashesDropFirst(intended: bool, n1: seq<Entry>, n2: seq<Entry>, es: seq<RangeMap>, fs: seq<RangeMap>,
                         p: nat, n: nat)
    requires EditList(n1, es, p, n) && EditList(n2, fs, p, n) && es != []
    requires fs == [] || es[0].lhs.Upper() <= fs[0].lhs.start
    ensures Clashes(intended, n1, n2, es, fs) <==> Clashes(intended, n1, n2, es[1..], fs)
  {
    if Clashes(intended, n1, n2, es, fs) {
      var i, j :| 0 <= i < |es| && 0 <= j < |fs| && Clash(intended, n1, n2, es[i], fs[j]);
      assert j > 0 ==> fs[0].lhs.Upper() < fs[j].lhs.start;
      assert i > 0;
      assert Clash(intended, n1, n2, es[1..][i - 1], fs[j]);
    }
    if Clashes(intended, n1, n2, es[1..], fs) {
      var i, j :| 0 <= i < |es[1..]| && 0 <= j < |fs| && Clash(intended, n1, n2, es[1..][i], fs[j]);
      assert Clash(intended, n1, n2, es[i + 1], fs[j]);
    }
  }

  lemma ClashesDropSecond(intended: bool, n1: seq<Entry>, n2: seq<Entry>, es: seq<RangeMap>, fs: seq<RangeMap>,
                          p: nat, n: nat)
    requires EditList(n1, es, p, n) && EditList(n2, fs, p, n) && fs != []
    requires es == [] || fs[0].lhs.Upper() <= es[0].lhs.start
    ensures Clashes(intended, n1, n2, es, fs) <==> Clashes(intended, n1, n2, es, fs[1..])
  {
    if Clashes(intended, n1, n2, es, fs) {
      var i, j :| 0 <= i < |es| && 0 <= j < |fs| && Clash(intended, n1, n2, es[i], fs[j]);
      assert i > 0 ==> es[0].lhs.Upper() < es[i].lhs.start;
      assert j > 0;
      assert Clash(intended, n1, n2, es[i], fs[1..][j - 1]);
    }
    if Clashes(intended, n1, n2, es, fs[1..]) {
      var i, j :| 0 <= i < |es| && 0 <= j < |fs[1..]| && Clash(intended, n1, n2, es[i], fs[1..][j]);
      assert Clash(intended, n1, n2, es[i], fs[j + 1]);
    }
  }

  lemma ClashesDropBoth(intended: bool, n1: seq<Entry>, n2: seq<Entry>, es: seq<RangeMap>, fs: seq<RangeMap>,
                        p: nat, n: nat)
    requires EditList(n1, es, p, n) && EditList(n2, fs, p, n) && es != [] && fs != []
    requires SameEdit(intended, n1, n2, es[0], fs[0])
    ensures Clashes(intended, n1, n2, es, fs) <==> Clashes(intended, n1, n2, es[1..], fs[1..])
  {
    if Clashes(intended, n1, n2, es, fs) {
      ClashBehind(intended, n1, n2, es, fs, p, n);
    }
    if Clashes(intended, n1, n2, es[1..], fs[1..]) {
      var i, j :| 0 <= i < |es[1..]| && 0 <= j < |fs[1..]| && Clash(intended, n1, n2, es[1..][i], fs[1..][j]);
      assert Clash(intended, n1, n2, es[i + 1], fs[j + 1]);
    }
  }

  lemma ClashBehind(intended: bool, n1: seq<Entry>, n2: seq<Entry>, es: seq<RangeMap>, fs: seq<RangeMap>,
                    p: nat, n: nat)
    requires EditList(n1, es, p, n) && EditList(n2, fs, p, n) && es != [] && fs != []
    requires SameEdit(intended, n1, n2, es[0], fs[0]) && Clashes(intended, n1, n2, es, fs)
    ensures Clashes(intended, n1, n2, es[1..], fs[1..])
  {
    var i, j :| 0 <= i < |es| && 0 <= j < |fs| && Clash(intended, n1, n2, es[i], fs[j]);
    BothLater(es[0], fs[0], es, fs, i, j);
    assert es[1..][i - 1] == es[i] && fs[1..][j - 1] == fs[j];
  }

  /** The first two edits being the same, one of them overlaps no later one of the other. */
  lemma BothLater(a: RangeMap, b: RangeMap, es: seq<RangeMap>, fs: seq<RangeMap>, i: nat, j: nat)
    requires i < |es| && j < |fs| && a == es[0] && b == fs[0] && a.lhs == b.lhs
    requires i > 0 ==> a.lhs.Upper() < es[i].lhs.start
    requires j > 0 ==> b.lhs.Upper() < fs[j].lhs.start
    requires es[i].lhs.start < fs[j].lhs.Upper() && fs[j].lhs.start < es[i].lhs.Upper()
    ensures i == 0 <==> j == 0
  {
  }

  /** The walk conflicts exactly if two edits clash, aborts exactly if none do and some
      edit removes the tail of the base, and goes through otherwise. */
  lemma {:induction false} WalkOutcome(intended: bool, n1: seq<Entry>, n2: seq<Entry>,
                                       es: seq<RangeMap>, fs: seq<RangeMap>, p: nat, n: nat)
    requires EditList(n1, es, p, n) && EditList(n2, fs, p, n)
    ensures Walk(intended, n1, n2, es, fs) == Conflict <==> Clashes(intended, n1, n2, es, fs)
    ensures Walk(intended, n1, n2, es, fs) == Abort <==>
            !Clashes(intended, n1, n2, es, fs) && (CutsTail(n1, es) || CutsTail(n2, fs))
    decreases |es| + |fs|
  {
    if es != [] { EditListTail(n1, es, p, n); }
    if fs != [] { EditListTail(n2, fs, p, n); }
    if es != [] && (fs == [] || (!SameEdit(intended, n1, n2, es[0], fs[0]) && es[0].lhs.Upper() <= fs[0].lhs.start)) {
      var p' := es[0].lhs.Upper();
      ClashesDropFirst(intended, n1, n2, es, fs, p, n);
      RangedFrom(fs, p, p', n);
      WalkOutcome(intended, n1, n2, es[1..], fs, p', n);
    } else if fs != [] &&
              (es == [] || (!SameEdit(intended, n1, n2, es[0], fs[0]) && fs[0].lhs.Upper() <= es[0].lhs.start))
    {
      var p' := fs[0].lhs.Upper();
      ClashesDropSecond(intended, n1, n2, es, fs, p, n);
      RangedFrom(es, p, p', n);
      WalkOutcome(intended, n1, n2, es, fs[1..], p', n);
    } else if es != [] && fs != [] {
      if SameEdit(intended, n1, n2, es[0], fs[0]) {
        ClashesDropBoth(intended, n1, n2, es, fs, p, n);
        WalkOutcome(intended, n1, n2, es[1..], fs[1..], es[0].lhs.Upper(), n);
      } else {
        assert Clash(intended, n1, n2, es[0], fs[0]);
      }
    }
  }

  lemma {:induction false} ScriptTail(base: seq<Entry>, node: seq<Entry>, edits: seq<RangeMap>, p: nat, q: nat)
    requires Script(base, node, edits, p, q) && Apart(edits)
    ensures edits != [] ==>
      |base| - edits[|edits| - 1].lhs.Upper() == |node| - edits[|edits| - 1].rhs.Upper()
    ensures forall k :: 0 <= k < |edits| && AtEnd(node, edits[k]) ==> edits[k].lhs.Upper() == |base|
    decreases |edits|
  {
    ScriptBounds(base, node, edits, p, q);
    if edits != [] {
      var e, rest := edits[0], edits[1..];
      ScriptTail(base, node, rest, e.lhs.Upper(), e.rhs.Upper());
      if rest != [] {
        assert rest[|rest| - 1] == edits[|edits| - 1];
        var next := edits[1];
        assert e.rhs.Upper() < next.rhs.start && next.rhs.Upper() <= |node|;
      } else {
        assert |base[e.lhs.Upper()..]| == |node[e.rhs.Upper()..]|;
      }
      forall k | 0 < k < |edits| && AtEnd(node, edits[k]) ensures edits[k].lhs.Upper() == |base| {
        assert rest[k - 1] == edits[k];
      }
    }
  }

  lemma EditsAreList(base: seq<Entry>, node: seq<Entry>)
    requires Sorted(ByKey, base) && Sorted(ByKey, node)
    ensures EditList(node, EditsOf(base, node), 0, |base|)
  {
    ScriptTail(base, node, EditsOf(base, node), 0, 0);
  }

  /** A merge fails exactly if an edit of one side and an edit of the other overlap in
      the base without being the same edit; it aborts exactly if no edits clash but one
      of them removes the tail of the base; else it goes through. */
  lemma MergeOutcome(intended: bool, base: seq<Entry>, n1: seq<Entry>, n2: seq<Entry>)
    requires Sorted(ByKey, base) && Sorted(ByKey, n1) && Sorted(ByKey, n2)
    ensures var es, fs, r := EditsOf(base, n1), EditsOf(base, n2), MergeOf(intended, base, n1, n2);
      && (r.Failed? <==> Clashes(intended, n1, n2, es, fs))
      && (r.Aborted? <==> !Clashes(intended, n1, n2, es, fs) && (CutsTail(n1, es) || CutsTail(n2, fs)))
  {
    EditsAreList(base, n1);
    EditsAreList(base, n2);
    WalkOutcome(intended, n1, n2, EditsOf(base, n1), EditsOf(base, n2), 0, |base|);
  }

  /** The edits cover exactly the elements that do not occur on the other side. */
  lemma EditsCover(base: seq<Entry>, node: seq<Entry>, i: nat)
    requires Sorted(ByKey, base) && Sorted(ByKey, node)
    ensures i < |base| ==> (LeftIn(EditsOf(base, node), i) <==> base[i] !in node)
    ensures i < |node| ==> (RightIn(EditsOf(base, node), i) <==> node[i] !in base)
  {
    var maps := KeyMaps(base, node, {});
    KeyMapsEqual(base, node, {});
    FlipIsScript(base, node, maps);
    FlipPartitions(maps, |base|, |node|, i);
    if i < |base| {
      MappedLeft(base, node, maps, i);
    }
    if i < |node| {
      MappedRight(base, node, maps, i);
    }
  }

  lemma MappedLeft(base: seq<Entry>, node: seq<Entry>, maps: seq<RangeMap>, i: nat)
    requires Sorted(ByKey, base) && Sorted(ByKey, node) && maps == KeyMaps(base, node, {}) && i < |base|
    ensures LeftIn(maps, i) <==> base[i] in node
  {
    KeyMapsCorrect(base, node, {});
    if k :| 0 <= k < |maps| && In(maps[k].lhs, i) {
      assert Pairs(maps[k], i, maps[k].rhs.start + (i - maps[k].lhs.start));
      assert Paired(maps, i, maps[k].rhs.start + (i - maps[k].lhs.start));
    }
    if base[i] in node {
      var j :| 0 <= j < |node| && base[i] == node[j];
      assert Paired(maps, i, j);
    }
  }

  lemma MappedRight(base: seq<Entry>, node: seq<Entry>, maps: seq<RangeMap>, i: nat)
    requires Sorted(ByKey, base) && Sorted(ByKey, node) && maps == KeyMaps(base, node, {}) && i < |node|
    ensures RightIn(maps, i) <==> node[i] in base
  {
    KeyMapsCorrect(base, node, {});
    if k :| 0 <= k < |maps| && In(maps[k].rhs, i) {
      assert Pairs(maps[k], maps[k].lhs.start + (i - maps[k].rhs.start), i);
      assert Paired(maps, maps[k].lhs.start + (i - maps[k].rhs.start), i);
    }
    if node[i] in base {
      var j :| 0 <= j < |base| && base[j] == node[i];
      assert Paired(maps, j, i);
    }
  }

  /** A version cuts the tail exactly if its last element occurs in the base before the
      last element of the base. */
  lemma CutsTailMeans(base: seq<Entry>, node: seq<Entry>)
    requires Sorted(ByKey, base) && Sorted(ByKey, node) && base != [] && node != []
    ensures CutsTail(node, EditsOf(base, node)) <==> node[|node| - 1] in base[..|base| - 1]
  {
    var last := node[|node| - 1];
    if CutsTail(node, EditsOf(base, node)) {
      var k :| 0 <= k < |EditsOf(base, node)| && AtEnd(node, EditsOf(base, node)[k]);
      TailIsKept(base, node, k);
    }
    if last in base[..|base| - 1] {
      var i :| 0 <= i < |base| - 1 && base[i] == last;
      TailIsCut(base, node, i);
    }
  }

  lemma TailIsKept(base: seq<Entry>, node: seq<Entry>, k: nat)
    requires Sorted(ByKey, base) && Sorted(ByKey, node) && base != [] && node != []
    requires k < |EditsOf(base, node)| && AtEnd(node, EditsOf(base, node)[k])
    ensures node[|node| - 1] in base[..|base| - 1]
  {
    var edits, last := EditsOf(base, node), |node| - 1;
    ScriptTail(base, node, edits, 0, 0);
    EditsReplace(base, node);
    assert !RightIn(edits, last) by {
      forall l | 0 <= l < |edits| ensures !In(edits[l].rhs, last) {
        var d, e := edits[l], edits[k];
        assert l < k ==> d.rhs.Upper() < e.rhs.start;
        assert l > k ==> e.rhs.Upper() < d.rhs.start;
      }
    }
    EditsCover(base, node, last);
    assert In(edits[k].lhs, |base| - 1);
    EditsCover(base, node, |base| - 1);
    var i :| 0 <= i < |base| && base[i] == node[last];
    assert i != |base| - 1;
    assert base[..|base| - 1][i] == node[last];
  }

  /** No edit is empty on both sides. */
  ghost predicate Replacing(edits: seq<RangeMap>) {
    forall k :: 0 <= k < |edits| ==> edits[k].lhs.num > 0 || edits[k].rhs.num > 0
  }

  lemma EditsReplace(base: seq<Entry>, node: seq<Entry>)
    requires Sorted(ByKey, base) && Sorted(ByKey, node) && (base != [] || node != [])
    ensures Replacing(EditsOf(base, node))
  {
    KeyMapsEqual(base, node, {});
    FlipIsScript(base, node, KeyMaps(base, node, {}));
    FlippedReplaces(KeyMaps(base, node, {}), |base|, |node|);
  }

  lemma FlippedReplaces(maps: seq<RangeMap>, m: nat, n: nat)
    requires Chained(maps, 0, 0, m, n) && (m > 0 || n > 0)
    ensures Replacing(Flipped(maps, m, n))
  {
    GapsReplace(maps, 0, 0, m, n);
  }

  lemma {:induction false} GapsReplace(maps: seq<RangeMap>, p: nat, q: nat, m: nat, n: nat)
    requires Chained(maps, p, q, m, n)
    ensures Replacing(Gaps(maps, p, q, m, n))
    decreases |maps|
  {
    if maps != [] {
      GapsReplace(maps[1..], maps[0].lhs.Upper(), maps[0].rhs.Upper(), m, n);
    }
  }

  lemma TailIsCut(base: seq<Entry>, node: seq<Entry>, i: nat)
    requires Sorted(ByKey, base) && Sorted(ByKey, node) && node != []
    requires i < |base| - 1 && base[i] == node[|node| - 1]
    ensures CutsTail(node, EditsOf(base, node))
  {
    var edits, last, end := EditsOf(base, node), |node| - 1, |base| - 1;
    ScriptTail(base, node, edits, 0, 0);
    EditsCover(base, node, last);
    EditsCover(base, node, end);
    LastIsGreatest(base, node, i);
    assert LeftIn(edits, end);
    var k :| 0 <= k < |edits| && In(edits[k].lhs, end);
    assert k == |edits| - 1 by {
      var d, e := edits[k], edits[|edits| - 1];
      assert k < |edits| - 1 ==> d.lhs.Upper() < e.lhs.start;
    }
    assert !In(edits[k].rhs, last);
    assert AtEnd(node, edits[k]);
  }

  lemma LastIsGreatest(base: seq<Entry>, node: seq<Entry>, i: nat)
    requires Sorted(ByKey, base) && Sorted(ByKey, node) && node != []
    requires i < |base| - 1 && base[i] == node[|node| - 1]
    ensures base[|base| - 1] !in node
  {
    if j :| 0 <= j < |node| && node[j] == base[|base| - 1] {
      SortedReflects(ByKey, base, i, |base| - 1);
      SortedReflects(ByKey, node, |node| - 1, j);
      assert false;
    }
  }

  // ----- the written and the intended comparison of edits

  /** The written comparison takes two different edits for one. */
  predicate Mistaken(n1: seq<Entry>, n2: seq<Entry>, a: RangeMap, b: RangeMap)
    requires a.rhs.Upper() <= |n1| && b.rhs.Upper() <= |n2|
  {
    SameEdit(false, n1, n2, a, b) && !SameEdit(true, n1, n2, a, b)
  }

  ghost predicate Mistakes(n1: seq<Entry>, n2: seq<Entry>, es: seq<RangeMap>, fs: seq<RangeMap>)
    requires Bounded(n1, es) && Bounded(n2, fs)
  {
    exists i, j :: 0 <= i < |es| && 0 <= j < |fs| && Mistaken(n1, n2, es[i], fs[j])
  }

  lemma MistakesDropFirst(n1: seq<Entry>, n2: seq<Entry>, es: seq<RangeMap>, fs: seq<RangeMap>)
    requires Bounded(n1, es) && Bounded(n2, fs) && es != []
    requires forall j :: 0 <= j < |fs| ==> !Mistaken(n1, n2, es[0], fs[j])
    ensures Mistakes(n1, n2, es, fs) <==> Mistakes(n1, n2, es[1..], fs)
  {
    if i, j :| 0 <= i < |es| && 0 <= j < |fs| && Mistaken(n1, n2, es[i], fs[j]) {
      assert Mistaken(n1, n2, es[1..][i - 1], fs[j]);
    }
    if i, j :| 0 <= i < |es[1..]| && 0 <= j < |fs| && Mistaken(n1, n2, es[1..][i], fs[j]) {
      assert Mistaken(n1, n2, es[i + 1], fs[j]);
    }
  }

  lemma MistakesDropSecond(n1: seq<Entry>, n2: seq<Entry>, es: seq<RangeMap>, fs: seq<RangeMap>)
    requires Bounded(n1, es) && Bounded(n2, fs) && fs != []
    requires forall i :: 0 <= i < |es| ==> !Mistaken(n1, n2, es[i], fs[0])
    ensures Mistakes(n1, n2, es, fs) <==> Mistakes(n1, n2, es, fs[1..])
  {
    if i, j :| 0 <= i < |es| && 0 <= j < |fs| && Mistaken(n1, n2, es[i], fs[j]) {
      assert Mistaken(n1, n2, es[i], fs[1..][j - 1]);
    }
    if i, j :| 0 <= i < |es| && 0 <= j < |fs[1..]| && Mistaken(n1, n2, es[i], fs[1..][j]) {
      assert Mistaken(n1, n2, es[i], fs[j + 1]);
    }
  }

  /** An edit shares its base range with no edit behind the other side's first. */
  lemma NoMistakeBehind(n1: seq<Entry>, n2: seq<Entry>, es: seq<RangeMap>, fs: seq<RangeMap>, p: nat, n: nat)
    requires EditList(n1, es, p, n) && EditList(n2, fs, p, n) && es != [] && fs != []
    ensures es[0].lhs.start <= fs[0].lhs.Upper() ==>
      forall j :: 0 < j < |fs| ==> !Mistaken(n1, n2, es[0], fs[j])
    ensures fs[0].lhs.start <= es[0].lhs.Upper() ==>
      forall i :: 0 < i < |es| ==> !Mistaken(n1, n2, es[i], fs[0])
  {
    assert forall j :: 0 < j < |fs| ==> fs[0].lhs.Upper() < fs[j].lhs.start;
    assert forall i :: 0 < i < |es| ==> es[0].lhs.Upper() < es[i].lhs.start;
  }

  /** Where the written comparison takes two insertions for one, the intended walk
      applies both; where it takes two replacements for one, the intended walk stops. */
  lemma MistakenStep(n1: seq<Entry>, n2: seq<Entry>, es: seq<RangeMap>, fs: seq<RangeMap>, p: nat, n: nat)
    requires EditList(n1, es, p, n) && EditList(n2, fs, p, n) && es != [] && fs != []
    requires Mistaken(n1, n2, es[0], fs[0]) && !AtEnd(n1, es[0]) && !AtEnd(n2, fs[0])
    ensures Walk(true, n1, n2, es, fs) ==
      if es[0].lhs.num > 0 then Conflict
      else Prepend([SpliceOf(es[0], n1), SpliceOf(fs[0], n2)], Walk(true, n1, n2, es[1..], fs[1..]))
  {
    if es[0].lhs.num == 0 {
      SecondNext(n1, n2, es, fs, p, n);
      PrependTake([SpliceOf(es[0], n1)], n2, fs[0], Walk(true, n1, n2, es[1..], fs[1..]));
    }
  }

  lemma SecondNext(n1: seq<Entry>, n2: seq<Entry>, es: seq<RangeMap>, fs: seq<RangeMap>, p: nat, n: nat)
    requires EditList(n1, es, p, n) && EditList(n2, fs, p, n) && es != [] && fs != []
    requires es[0].lhs == fs[0].lhs && es[0].lhs.num == 0 && !AtEnd(n2, fs[0])
    ensures Walk(true, n1, n2, es[1..], fs) == Take(n2, fs[0], Walk(true, n1, n2, es[1..], fs[1..]))
  {
    var rest := es[1..];
    if rest != [] {
      assert rest[0] == es[1] && es[0].lhs.Upper() < rest[0].lhs.start;
    }
  }

  /** By how much splicing `ops` lengthens a base. */
  function Growth(ops: seq<Splice>): int {
    if ops == [] then 0 else |ops[0].content| - ops[0].num + Growth(ops[1..])
  }

  lemma {:induction false} SplicedGrows(base: seq<Entry>, ops: seq<Splice>, p: nat)
    requires InOrder(ops, p, |base|)
    ensures p <= |base| && |Spliced(base, ops, p)| == |base| - p + Growth(ops)
    decreases |ops|
  {
    if ops != [] {
      SplicedGrows(base, ops[1..], ops[0].Upper());
    }
  }

  /** Where the written walk goes through, the intended one does the same if no two
      different edits are taken for one, and otherwise stops or inserts more. */
  lemma {:induction false} WalkAsIntended(n1: seq<Entry>, n2: seq<Entry>,
                                          es: seq<RangeMap>, fs: seq<RangeMap>, p: nat, n: nat)
    requires EditList(n1, es, p, n) && EditList(n2, fs, p, n) && Replacing(es) && Replacing(fs)
    requires Walk(false, n1, n2, es, fs).Ops?
    ensures !Mistakes(n1, n2, es, fs) ==> Walk(true, n1, n2, es, fs) == Walk(false, n1, n2, es, fs)
    ensures Mistakes(n1, n2, es, fs) ==>
      Falls(Walk(true, n1, n2, es, fs), Walk(false, n1, n2, es, fs))
    decreases |es| + |fs|, 1
  {
    if es != [] { EditListTail(n1, es, p, n); }
    if fs != [] { EditListTail(n2, fs, p, n); }
    if es != [] && fs != [] { NoMistakeBehind(n1, n2, es, fs, p, n); }
    if es != [] && (fs == [] || (!SameEdit(false, n1, n2, es[0], fs[0]) && es[0].lhs.Upper() <= fs[0].lhs.start)) {
      RangedFrom(fs, p, es[0].lhs.Upper(), n);
      WalkAsIntended(n1, n2, es[1..], fs, es[0].lhs.Upper(), n);
      MistakesDropFirst(n1, n2, es, fs);
      FallsStep(SpliceOf(es[0], n1), Walk(true, n1, n2, es[1..], fs), Walk(false, n1, n2, es[1..], fs));
    } else if fs != [] && (es == [] || !SameEdit(false, n1, n2, es[0], fs[0])) {
      RangedFrom(es, p, fs[0].lhs.Upper(), n);
      WalkAsIntended(n1, n2, es, fs[1..], fs[0].lhs.Upper(), n);
      MistakesDropSecond(n1, n2, es, fs);
      FallsStep(SpliceOf(fs[0], n2), Walk(true, n1, n2, es, fs[1..]), Walk(false, n1, n2, es, fs[1..]));
    } else if es != [] {
      BothAsIntended(n1, n2, es, fs, p, n);
    }
  }

  lemma {:induction false} BothAsIntended(n1: seq<Entry>, n2: seq<Entry>,
                                          es: seq<RangeMap>, fs: seq<RangeMap>, p: nat, n: nat)
    requires EditList(n1, es, p, n) && EditList(n2, fs, p, n) && Replacing(es) && Replacing(fs)
    requires Walk(false, n1, n2, es, fs).Ops? && es != [] && fs != [] && SameEdit(false, n1, n2, es[0], fs[0])
    ensures !Mistakes(n1, n2, es, fs) ==> Walk(true, n1, n2, es, fs) == Walk(false, n1, n2, es, fs)
    ensures Mistakes(n1, n2, es, fs) ==>
      Falls(Walk(true, n1, n2, es, fs), Walk(false, n1, n2, es, fs))
    decreases |es| + |fs|, 0
  {
    EditListTail(n1, es, p, n);
    EditListTail(n2, fs, p, n);
    NoMistakeBehind(n1, n2, es, fs, p, n);
    WalkAsIntended(n1, n2, es[1..], fs[1..], es[0].lhs.Upper(), n);
    if SameEdit(true, n1, n2, es[0], fs[0]) {
      MistakesDropFirst(n1, n2, es, fs);
      MistakesDropSecond(n1, n2, es[1..], fs);
      FallsStep(SpliceOf(es[0], n1), Walk(true, n1, n2, es[1..], fs[1..]), Walk(false, n1, n2, es[1..], fs[1..]));
    } else {
      MistakenStep(n1, n2, es, fs, p, n);
      assert Mistaken(n1, n2, es[0], fs[0]);
      if es[0].lhs.num == 0 {
        FallsBoth(SpliceOf(es[0], n1), SpliceOf(fs[0], n2),
                  Walk(true, n1, n2, es[1..], fs[1..]), Walk(false, n1, n2, es[1..], fs[1..]));
      }
    }
  }

  /** The written walk `w` falls short of the intended walk `v`. */
  predicate Falls(v: Walked, w: Walked)
    requires w.Ops?
  {
    v == Conflict || (v.Ops? && Growth(w.ops) < Growth(v.ops))
  }

  lemma FallsStep(o: Splice, v: Walked, w: Walked)
    requires w.Ops? && (v == w || Falls(v, w))
    ensures v == w ==> Prepend([o], v) == Prepend([o], w)
    ensures Falls(v, w) ==> Falls(Prepend([o], v), Prepend([o], w))
  {
    if v.Ops? {
      assert ([o] + v.ops)[1..] == v.ops && ([o] + w.ops)[1..] == w.ops;
    }
  }

  lemma FallsBoth(o: Splice, u: Splice, v: Walked, w: Walked)
    requires w.Ops? && (v == w || Falls(v, w)) && |u.content| > u.num
    ensures Falls(Prepend([o, u], v), Prepend([o], w))
  {
    if v.Ops? {
      var both := [o, u] + v.ops;
      assert both[1..] == [u] + v.ops && both[1..][1..] == v.ops;
      assert ([o] + w.ops)[1..] == w.ops;
      assert Growth(both) == |o.content| - o.num + Growth(both[1..]);
    }
  }

  /** A merge that fails as written fails as intended too; one that goes through is the
      intended merge exactly if the versions hold no two different edits that replace
      the same base range by equally many elements. */
  lemma MergeAsIntended(base: seq<Entry>, n1: seq<Entry>, n2: seq<Entry>)
    requires Sorted(ByKey, base) && Sorted(ByKey, n1) && Sorted(ByKey, n2)
    ensures MergeOf(false, base, n1, n2).Failed? ==> MergeOf(true, base, n1, n2).Failed?
    ensures MergeOf(false, base, n1, n2).Merged? ==>
      (MergeOf(true, base, n1, n2) == MergeOf(false, base, n1, n2) <==>
       !Mistakes(n1, n2, EditsOf(base, n1), EditsOf(base, n2)))
  {
    MergeOutcome(false, base, n1, n2);
    MergeOutcome(true, base, n1, n2);
    var es, fs := EditsOf(base, n1), EditsOf(base, n2);
    if i, j :| 0 <= i < |es| && 0 <= j < |fs| && Clash(false, n1, n2, es[i], fs[j]) {
      assert Clash(true, n1, n2, es[i], fs[j]);
    }
    if MergeOf(false, base, n1, n2).Merged? {
      MergedAsIntended(base, n1, n2);
    }
  }

  lemma MergedAsIntended(base: seq<Entry>, n1: seq<Entry>, n2: seq<Entry>)
    requires Sorted(ByKey, base) && Sorted(ByKey, n1) && Sorted(ByKey, n2)
    requires MergeOf(false, base, n1, n2).Merged?
    ensures MergeOf(true, base, n1, n2) == MergeOf(false, base, n1, n2) <==>
            !Mistakes(n1, n2, EditsOf(base, n1), EditsOf(base, n2))
  {
    var es, fs := EditsOf(base, n1), EditsOf(base, n2);
    EditsAreList(base, n1);
    EditsAreList(base, n2);
    MergeOutcome(false, base, n1, n2);
    if base == [] && n1 == [] { EmptyCutsTail(base, n1); }
    if base == [] && n2 == [] { EmptyCutsTail(base, n2); }
    EditsReplace(base, n1);
    EditsReplace(base, n2);
    WalkAsIntended(n1, n2, es, fs, 0, |base|);
    WalkInOrder(false, n1, n2, es, fs, 0, |base|);
    WalkInOrder(true, n1, n2, es, fs, 0, |base|);
    var v, w := Walk(true, n1, n2, es, fs), Walk(false, n1, n2, es, fs);
    SplicedGrows(base, w.ops, 0);
    if v.Ops? {
      SplicedGrows(base, v.ops, 0);
    }
  }

  lemma EmptyCutsTail(base: seq<Entry>, node: seq<Entry>)
    requires Sorted(ByKey, base) && Sorted(ByKey, node) && base == node == []
    ensures CutsTail(node, EditsOf(base, node))
  {
    KeyMapsEqual(base, node, {});
    FlipIsScript(base, node, KeyMaps(base, node, {}));
    assert KeyMaps(base, node, {}) == [];
    assert AtEnd(node, EditsOf(base, node)[0]);
  }
}

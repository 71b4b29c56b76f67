/** What a merge that goes through yields: which elements, and when they are in key order. */
module MergeOrder {
  import opened Keys
  import opened Trees
  import opened Ranges
  import opened Edits
  import opened Splices
  import opened Merger
  import opened MergeLaws

  // ----- one step of a walk that goes through

  /** The edit taken next: the first version's, the second's, or one that both share. */
  datatype Turn = OfFirst | OfSecond | OfBoth

  /** What the walk takes next, and the walk over the edits that are left. */
  lemma WalkStep(intended: bool, n1: seq<Entry>, n2: seq<Entry>, es: seq<RangeMap>, fs: seq<RangeMap>)
    returns (turn: Turn, rest: seq<Splice>)
    requires Bounded(n1, es) && Bounded(n2, fs) && Walk(intended, n1, n2, es, fs).Ops? && (es != [] || fs != [])
    ensures turn.OfFirst? ==>
      && es != [] && (fs == [] || (!SameEdit(intended, n1, n2, es[0], fs[0]) && es[0].lhs.Upper() <= fs[0].lhs.start))
      && Walk(intended, n1, n2, es[1..], fs) == Ops(rest)
      && Walk(intended, n1, n2, es, fs).ops == [SpliceOf(es[0], n1)] + rest
    ensures turn.OfSecond? ==>
      && fs != []
      && (es == [] || (!SameEdit(intended, n1, n2, es[0], fs[0]) && fs[0].lhs.Upper() <= es[0].lhs.start
                       && es[0].lhs.Upper() > fs[0].lhs.start))
      && Walk(intended, n1, n2, es, fs[1..]) == Ops(rest)
      && Walk(intended, n1, n2, es, fs).ops == [SpliceOf(fs[0], n2)] + rest
    ensures turn.OfBoth? ==>
      && es != [] && fs != [] && SameEdit(intended, n1, n2, es[0], fs[0])
      && Walk(intended, n1, n2, es[1..], fs[1..]) == Ops(rest)
      && Walk(intended, n1, n2, es, fs).ops == [SpliceOf(es[0], n1)] + rest
  {
    turn := if es == [] then OfSecond else if fs == [] then OfFirst
            else if SameEdit(intended, n1, n2, es[0], fs[0]) then OfBoth
            else if es[0].lhs.Upper() <= fs[0].lhs.start then OfFirst else OfSecond;
    rest := match turn
      case OfFirst => Walk(intended, n1, n2, es[1..], fs).ops
      case OfSecond => Walk(intended, n1, n2, es, fs[1..]).ops
      case OfBoth => Walk(intended, n1, n2, es[1..], fs[1..]).ops;
  }

  /** A splice taken from one of the edits. */
  ghost predicate From(o: Splice, node: seq<Entry>, edits: seq<RangeMap>)
    requires Bounded(node, edits)
  {
    exists k :: 0 <= k < |edits| && o == SpliceOf(edits[k], node)
  }

  lemma FromTail(o: Splice, node: seq<Entry>, edits: seq<RangeMap>)
    requires Bounded(node, edits) && edits != []
    ensures From(o, node, edits) <==> o == SpliceOf(edits[0], node) || From(o, node, edits[1..])
  {
    if From(o, node, edits[1..]) {
      var k :| 0 <= k < |edits[1..]| && o == SpliceOf(edits[1..][k], node);
      assert o == SpliceOf(edits[k + 1], node);
    }
    if From(o, node, edits) && o != SpliceOf(edits[0], node) {
      var k :| 0 <= k < |edits| && o == SpliceOf(edits[k], node);
      assert o == SpliceOf(edits[1..][k - 1], node);
    }
  }

  /** The splices are those of the edits, but for edits of the second version that count as
      one of the first. */
  lemma {:induction false} WalkFrom(intended: bool, n1: seq<Entry>, n2: seq<Entry>,
                                    es: seq<RangeMap>, fs: seq<RangeMap>, o: Splice)
    requires Bounded(n1, es) && Bounded(n2, fs) && Walk(intended, n1, n2, es, fs).Ops?
    ensures o in Walk(intended, n1, n2, es, fs).ops ==> From(o, n1, es) || From(o, n2, fs)
    ensures From(o, n1, es) ==> o in Walk(intended, n1, n2, es, fs).ops
    ensures From(o, n2, fs) ==> o in Walk(intended, n1, n2, es, fs).ops || Shared(intended, n1, n2, es, fs, o)
    decreases |es| + |fs|
  {
    if es != [] || fs != [] {
      var turn, rest := WalkStep(intended, n1, n2, es, fs);
      if es != [] { FromTail(o, n1, es); }
      if fs != [] { FromTail(o, n2, fs); }
      match turn {
        case OfFirst =>
          WalkFrom(intended, n1, n2, es[1..], fs, o);
          SharedLater(intended, n1, n2, es, fs, es[1..], fs, o);
        case OfSecond =>
          WalkFrom(intended, n1, n2, es, fs[1..], o);
          SharedLater(intended, n1, n2, es, fs, es, fs[1..], o);
        case OfBoth =>
          WalkFrom(intended, n1, n2, es[1..], fs[1..], o);
          SharedLater(intended, n1, n2, es, fs, es[1..], fs[1..], o);
          assert o == SpliceOf(fs[0], n2) ==> Shared(intended, n1, n2, es, fs, o);
      }
    }
  }

  /** A splice of an edit of the second version that counts as one of the first. */
  ghost predicate Shared(intended: bool, n1: seq<Entry>, n2: seq<Entry>, es: seq<RangeMap>, fs: seq<RangeMap>,
                         o: Splice)
    requires Bounded(n1, es) && Bounded(n2, fs)
  {
    exists i, j :: 0 <= i < |es| && 0 <= j < |fs| &&
      o == SpliceOf(fs[j], n2) && SameEdit(intended, n1, n2, es[i], fs[j])
  }

  lemma SharedLater(intended: bool, n1: seq<Entry>, n2: seq<Entry>, es: seq<RangeMap>, fs: seq<RangeMap>,
                    es': seq<RangeMap>, fs': seq<RangeMap>, o: Splice)
    requires Bounded(n1, es) && Bounded(n2, fs) && (es' == es || (es != [] && es' == es[1..]))
    requires fs' == fs || (fs != [] && fs' == fs[1..])
    ensures Shared(intended, n1, n2, es', fs', o) ==> Shared(intended, n1, n2, es, fs, o)
  {
    if i, j :| 0 <= i < |es'| && 0 <= j < |fs'| &&
               o == SpliceOf(fs'[j], n2) && SameEdit(intended, n1, n2, es'[i], fs'[j])
    {
      var i', j' := if es' == es then i else i + 1, if fs' == fs then j else j + 1;
      assert es[i'] == es'[i] && fs[j'] == fs'[j];
    }
  }

  // ----- the elements of a splice

  ghost predicate Removed(ops: seq<Splice>, i: int) {
    exists k :: 0 <= k < |ops| && ops[k].start <= i < ops[k].Upper()
  }

  ghost predicate Added(ops: seq<Splice>, x: Entry) {
    exists k :: 0 <= k < |ops| && x in ops[k].content
  }

  ghost predicate Kept(base: seq<Entry>, ops: seq<Splice>, p: nat, x: Entry) {
    exists i :: p <= i < |base| && base[i] == x && !Removed(ops, i)
  }

  /** Splicing keeps the elements no operand removes and adds those of the operands. */
  lemma {:induction false} SplicedHolds(base: seq<Entry>, ops: seq<Splice>, p: nat, x: Entry)
    requires InOrder(ops, p, |base|)
    ensures x in Spliced(base, ops, p) <==> Kept(base, ops, p, x) || Added(ops, x)
    decreases |ops|
  {
    InOrderBounds(ops, p, |base|);
    if ops == [] {
      if x in base[p..] {
        var i :| 0 <= i < |base[p..]| && base[p..][i] == x;
        assert base[p + i] == x && !Removed(ops, p + i);
      }
      if i :| p <= i < |base| && base[i] == x && !Removed(ops, i) {
        assert base[p..][i - p] == x;
      }
    } else {
      var o, rest := ops[0], ops[1..];
      assert [o] + rest == ops;
      SplicedCons(base, o, rest, p);
      SplicedHolds(base, rest, o.Upper(), x);
      KeptCons(base, o, rest, p, x);
      AddedCons(o, rest, x);
    }
  }

  lemma AddedCons(o: Splice, rest: seq<Splice>, x: Entry)
    ensures Added([o] + rest, x) <==> x in o.content || Added(rest, x)
  {
    var ops := [o] + rest;
    if x in o.content {
      assert x in ops[0].content;
    }
    if k :| 0 <= k < |rest| && x in rest[k].content {
      assert x in ops[k + 1].content;
    }
  }

  lemma RemovedCons(o: Splice, rest: seq<Splice>, i: int)
    ensures Removed([o] + rest, i) <==> o.start <= i < o.Upper() || Removed(rest, i)
  {
    var ops := [o] + rest;
    if o.start <= i < o.Upper() {
      assert ops[0].start <= i < ops[0].Upper();
    }
    if k :| 0 <= k < |rest| && rest[k].start <= i < rest[k].Upper() {
      assert ops[k + 1].start <= i < ops[k + 1].Upper();
    }
  }

  lemma {:induction false} NotRemovedBefore(ops: seq<Splice>, p: nat, n: nat, i: int)
    requires InOrder(ops, p, n) && i < p
    ensures !Removed(ops, i)
    decreases |ops|
  {
    if ops != [] {
      NotRemovedBefore(ops[1..], ops[0].Upper(), n, i);
      RemovedCons(ops[0], ops[1..], i);
      assert [ops[0]] + ops[1..] == ops;
    }
  }

  lemma KeptCons(base: seq<Entry>, o: Splice, rest: seq<Splice>, p: nat, x: Entry)
    requires p <= o.start && InOrder(rest, o.Upper(), |base|) && o.Upper() <= |base|
    ensures Kept(base, [o] + rest, p, x) <==> x in base[p..o.start] || Kept(base, rest, o.Upper(), x)
  {
    if i :| p <= i < |base| && base[i] == x && !Removed([o] + rest, i) {
      RemovedCons(o, rest, i);
      assert i < o.start ==> base[p..o.start][i - p] == x;
    }
    if x in base[p..o.start] {
      var i :| 0 <= i < |base[p..o.start]| && base[p..o.start][i] == x;
      RemovedCons(o, rest, p + i);
      NotRemovedBefore(rest, o.Upper(), |base|, p + i);
      assert base[p + i] == x && !Removed([o] + rest, p + i);
    }
    if i :| o.Upper() <= i < |base| && base[i] == x && !Removed(rest, i) {
      RemovedCons(o, rest, i);
      assert !Removed([o] + rest, i);
    }
  }

  // ----- the elements of a merge

  /** As intended, every edit of either version is applied. */
  lemma WalkHas(n1: seq<Entry>, n2: seq<Entry>, es: seq<RangeMap>, fs: seq<RangeMap>, ops: seq<Splice>, o: Splice)
    requires Bounded(n1, es) && Bounded(n2, fs) && Walk(true, n1, n2, es, fs) == Ops(ops)
    requires From(o, n1, es) || From(o, n2, fs)
    ensures o in ops
  {
    WalkFrom(true, n1, n2, es, fs, o);
    if Shared(true, n1, n2, es, fs, o) {
      var i, j :| 0 <= i < |es| && 0 <= j < |fs| && o == SpliceOf(fs[j], n2) && SameEdit(true, n1, n2, es[i], fs[j]);
      assert o == SpliceOf(es[i], n1);
    }
  }

  lemma FromRemoves(o: Splice, node: seq<Entry>, edits: seq<RangeMap>, i: int)
    requires Bounded(node, edits) && From(o, node, edits) && o.start <= i < o.Upper()
    ensures LeftIn(edits, i)
  {
    var k :| 0 <= k < |edits| && o == SpliceOf(edits[k], node);
    assert In(edits[k].lhs, i);
  }

  lemma WalkRemoves(n1: seq<Entry>, n2: seq<Entry>, es: seq<RangeMap>, fs: seq<RangeMap>, ops: seq<Splice>, i: int)
    requires Bounded(n1, es) && Bounded(n2, fs) && Walk(true, n1, n2, es, fs) == Ops(ops)
    ensures Removed(ops, i) <==> LeftIn(es, i) || LeftIn(fs, i)
  {
    if k :| 0 <= k < |ops| && ops[k].start <= i < ops[k].Upper() {
      WalkFrom(true, n1, n2, es, fs, ops[k]);
      if From(ops[k], n1, es) {
        FromRemoves(ops[k], n1, es, i);
      } else {
        FromRemoves(ops[k], n2, fs, i);
      }
    }
    if k :| 0 <= k < |es| && In(es[k].lhs, i) {
      AppliedRemoves(n1, n2, es, fs, ops, SpliceOf(es[k], n1), i);
    }
    if k :| 0 <= k < |fs| && In(fs[k].lhs, i) {
      AppliedRemoves(n1, n2, es, fs, ops, SpliceOf(fs[k], n2), i);
    }
  }

  lemma AppliedRemoves(n1: seq<Entry>, n2: seq<Entry>, es: seq<RangeMap>, fs: seq<RangeMap>, ops: seq<Splice>,
                       o: Splice, i: int)
    requires Bounded(n1, es) && Bounded(n2, fs) && Walk(true, n1, n2, es, fs) == Ops(ops)
    requires (From(o, n1, es) || From(o, n2, fs)) && o.start <= i < o.Upper()
    ensures Removed(ops, i)
  {
    WalkHas(n1, n2, es, fs, ops, o);
  }

  lemma WalkAdds(n1: seq<Entry>, n2: seq<Entry>, es: seq<RangeMap>, fs: seq<RangeMap>, ops: seq<Splice>, x: Entry)
    requires Bounded(n1, es) && Bounded(n2, fs) && Walk(true, n1, n2, es, fs) == Ops(ops)
    ensures Added(ops, x) <==> Brings(n1, es, x) || Brings(n2, fs, x)
  {
    if k :| 0 <= k < |ops| && x in ops[k].content {
      WalkFrom(true, n1, n2, es, fs, ops[k]);
    }
    if k :| 0 <= k < |es| && x in Content(n1, es[k]) {
      WalkHas(n1, n2, es, fs, ops, SpliceOf(es[k], n1));
    }
    if k :| 0 <= k < |fs| && x in Content(n2, fs[k]) {
      WalkHas(n1, n2, es, fs, ops, SpliceOf(fs[k], n2));
    }
  }

  /** Some edit brings element `x` in. */
  ghost predicate Brings(node: seq<Entry>, edits: seq<RangeMap>, x: Entry)
    requires Bounded(node, edits)
  {
    exists k :: 0 <= k < |edits| && x in Content(node, edits[k])
  }

  lemma BringsAt(node: seq<Entry>, edits: seq<RangeMap>, x: Entry)
    requires Bounded(node, edits)
    ensures Brings(node, edits, x) <==> exists j :: 0 <= j < |node| && node[j] == x && RightIn(edits, j)
  {
    if k :| 0 <= k < |edits| && x in Content(node, edits[k]) {
      var c := Content(node, edits[k]);
      var d :| 0 <= d < |c| && c[d] == x;
      var j := edits[k].rhs.start + d;
      assert node[j] == x && In(edits[k].rhs, j);
    }
    if j :| 0 <= j < |node| && node[j] == x && RightIn(edits, j) {
      var k :| 0 <= k < |edits| && In(edits[k].rhs, j);
      assert Content(node, edits[k])[j - edits[k].rhs.start] == x;
    }
  }

  lemma BringsNew(base: seq<Entry>, node: seq<Entry>, x: Entry)
    requires Sorted(ByKey, base) && Sorted(ByKey, node)
    ensures Brings(node, EditsOf(base, node), x) <==> x in node && x !in base
  {
    BringsAt(node, EditsOf(base, node), x);
    forall j | 0 <= j < |node| && node[j] == x ensures RightIn(EditsOf(base, node), j) <==> x !in base {
      EditsCover(base, node, j);
    }
  }

  /** The elements a merge is to yield: those of the base that both versions keep, and those
      that either version brings in. */
  ghost predicate InMerge(base: seq<Entry>, n1: seq<Entry>, n2: seq<Entry>, x: Entry) {
    (x in base && x in n1 && x in n2) || (x in n1 && x !in base) || (x in n2 && x !in base)
  }

  /** A merge that goes through as intended yields exactly those elements. */
  lemma MergeHolds(base: seq<Entry>, n1: seq<Entry>, n2: seq<Entry>, x: Entry)
    requires Sorted(ByKey, base) && Sorted(ByKey, n1) && Sorted(ByKey, n2)
    requires MergeOf(true, base, n1, n2).Merged?
    ensures x in MergeOf(true, base, n1, n2).elements <==> InMerge(base, n1, n2, x)
  {
    WalkInOrder(true, n1, n2, EditsOf(base, n1), EditsOf(base, n2), 0, |base|);
    WalkHolds(base, n1, n2, Walk(true, n1, n2, EditsOf(base, n1), EditsOf(base, n2)).ops, x);
  }

  lemma WalkHolds(base: seq<Entry>, n1: seq<Entry>, n2: seq<Entry>, ops: seq<Splice>, x: Entry)
    requires Sorted(ByKey, base) && Sorted(ByKey, n1) && Sorted(ByKey, n2) && InOrder(ops, 0, |base|)
    requires Walk(true, n1, n2, EditsOf(base, n1), EditsOf(base, n2)) == Ops(ops)
    ensures x in Spliced(base, ops, 0) <==> InMerge(base, n1, n2, x)
  {
    SplicedHolds(base, ops, 0, x);
    AddedByEither(base, n1, n2, ops, x);
    KeptByBoth(base, n1, n2, ops, x);
  }

  lemma AddedByEither(base: seq<Entry>, n1: seq<Entry>, n2: seq<Entry>, ops: seq<Splice>, x: Entry)
    requires Sorted(ByKey, base) && Sorted(ByKey, n1) && Sorted(ByKey, n2)
    requires Walk(true, n1, n2, EditsOf(base, n1), EditsOf(base, n2)) == Ops(ops)
    ensures Added(ops, x) <==> (x in n1 && x !in base) || (x in n2 && x !in base)
  {
    WalkAdds(n1, n2, EditsOf(base, n1), EditsOf(base, n2), ops, x);
    BringsNew(base, n1, x);
    BringsNew(base, n2, x);
  }

  lemma KeptByBoth(base: seq<Entry>, n1: seq<Entry>, n2: seq<Entry>, ops: seq<Splice>, x: Entry)
    requires Sorted(ByKey, base) && Sorted(ByKey, n1) && Sorted(ByKey, n2)
    requires Walk(true, n1, n2, EditsOf(base, n1), EditsOf(base, n2)) == Ops(ops)
    ensures Kept(base, ops, 0, x) <==> x in base && x in n1 && x in n2
  {
    var es, fs := EditsOf(base, n1), EditsOf(base, n2);
    if i :| 0 <= i < |base| && base[i] == x && !Removed(ops, i) {
      WalkRemoves(n1, n2, es, fs, ops, i);
      EditsCover(base, n1, i);
      EditsCover(base, n2, i);
    }
    if x in base && x in n1 && x in n2 {
      var i :| 0 <= i < |base| && base[i] == x;
      WalkRemoves(n1, n2, es, fs, ops, i);
      EditsCover(base, n1, i);
      EditsCover(base, n2, i);
    }
  }

  // ----- edits in their place

  /** What stands before and behind an edit in the base stands there in the version too. */
  predicate Framed(base: seq<Entry>, node: seq<Entry>, e: RangeMap) {
    && e.lhs.Upper() <= |base| && e.rhs.Upper() <= |node|
    && (e.lhs.start > 0 ==> e.rhs.start > 0 && base[e.lhs.start - 1] == node[e.rhs.start - 1])
    && (e.lhs.Upper() < |base| ==> e.rhs.Upper() < |node| && base[e.lhs.Upper()] == node[e.rhs.Upper()])
  }

  ghost predicate AllFramed(base: seq<Entry>, node: seq<Entry>, edits: seq<RangeMap>) {
    forall k :: 0 <= k < |edits| ==> Framed(base, node, edits[k])
  }

  lemma {:induction false} ScriptFramed(base: seq<Entry>, node: seq<Entry>, edits: seq<RangeMap>, p: nat, q: nat)
    requires Script(base, node, edits, p, q) && Apart(edits)
    requires p == 0 || (0 < q <= |node| && p <= |base| && base[p - 1] == node[q - 1]) || Later(edits, p)
    ensures AllFramed(base, node, edits)
    decreases |edits|
  {
    if edits != [] {
      var e := edits[0];
      ScriptFramed(base, node, edits[1..], e.lhs.Upper(), e.rhs.Upper());
      HeadFramed(base, node, edits, p, q);
      forall k | 0 <= k < |edits| ensures Framed(base, node, edits[k]) {
        assert k > 0 ==> edits[k] == edits[1..][k - 1];
      }
    }
  }

  ghost predicate Later(edits: seq<RangeMap>, p: nat) {
    edits != [] ==> p < edits[0].lhs.start
  }

  lemma HeadFramed(base: seq<Entry>, node: seq<Entry>, edits: seq<RangeMap>, p: nat, q: nat)
    requires Script(base, node, edits, p, q) && Apart(edits) && edits != []
    requires p == 0 || (0 < q <= |node| && p <= |base| && base[p - 1] == node[q - 1]) || Later(edits, p)
    ensures Framed(base, node, edits[0])
  {
    var e, rest := edits[0], edits[1..];
    if p < e.lhs.start {
      assert base[p..e.lhs.start][e.lhs.start - 1 - p] == node[q..e.rhs.start][e.lhs.start - 1 - p];
    }
    var u, v := e.lhs.Upper(), e.rhs.Upper();
    if u < |base| {
      if rest == [] {
        assert base[u..][0] == node[v..][0];
      } else {
        assert base[u..rest[0].lhs.start][0] == node[v..rest[0].rhs.start][0];
      }
    }
  }

  // ----- sorted sequences

  ghost predicate AllBefore(a: seq<Entry>, b: seq<Entry>) {
    forall i, j :: 0 <= i < |a| && 0 <= j < |b| ==> SliceLess(a[i].key, b[j].key)
  }

  lemma SortedPlus(a: seq<Entry>, b: seq<Entry>)
    ensures Sorted(ByKey, a + b) <==> Sorted(ByKey, a) && Sorted(ByKey, b) && AllBefore(a, b)
  {
    var c := a + b;
    if Sorted(ByKey, c) {
      forall i, j | 0 <= i < j < |a| ensures Less(KeyAt(ByKey, a, i), KeyAt(ByKey, a, j)) {
        assert Less(KeyAt(ByKey, c, i), KeyAt(ByKey, c, j));
      }
      forall i, j | 0 <= i < j < |b| ensures Less(KeyAt(ByKey, b, i), KeyAt(ByKey, b, j)) {
        assert Less(KeyAt(ByKey, c, |a| + i), KeyAt(ByKey, c, |a| + j));
      }
      forall i, j | 0 <= i < |a| && 0 <= j < |b| ensures SliceLess(a[i].key, b[j].key) {
        assert Less(KeyAt(ByKey, c, i), KeyAt(ByKey, c, |a| + j));
      }
    }
    if Sorted(ByKey, a) && Sorted(ByKey, b) && AllBefore(a, b) {
      forall i, j | 0 <= i < j < |c| ensures Less(KeyAt(ByKey, c, i), KeyAt(ByKey, c, j)) {
        if j < |a| {
          assert Less(KeyAt(ByKey, a, i), KeyAt(ByKey, a, j));
        } else if |a| <= i {
          assert Less(KeyAt(ByKey, b, i - |a|), KeyAt(ByKey, b, j - |a|));
        }
      }
    }
  }

  lemma SortedSlice(s: seq<Entry>, a: nat, b: nat)
    requires Sorted(ByKey, s) && a <= b <= |s|
    ensures Sorted(ByKey, s[a..b])
  {
    forall i, j | 0 <= i < j < b - a ensures Less(KeyAt(ByKey, s[a..b], i), KeyAt(ByKey, s[a..b], j)) {
      assert Less(KeyAt(ByKey, s, a + i), KeyAt(ByKey, s, a + j));
    }
  }

  /** The last of one piece comes before the first of the other, if neither is empty. */
  predicate InTurn(c: seq<Entry>, d: seq<Entry>) {
    c != [] && d != [] ==> SliceLess(c[|c| - 1].key, d[0].key)
  }

  lemma InTurnMeans(c: seq<Entry>, d: seq<Entry>)
    requires Sorted(ByKey, c) && Sorted(ByKey, d)
    ensures InTurn(c, d) <==> AllBefore(c, d)
  {
    if InTurn(c, d) {
      forall i, j | 0 <= i < |c| && 0 <= j < |d| ensures SliceLess(c[i].key, d[j].key) {
        KeysOrdered(c, i, |c| - 1);
        KeysOrdered(d, 0, j);
        Chain(c[i], c[|c| - 1], d[0], d[j]);
      }
    }
  }

  predicate AtMostKey(x: Entry, y: Entry) {
    SliceLess(x.key, y.key) || x.key == y.key
  }

  lemma KeysOrdered(s: seq<Entry>, i: nat, j: nat)
    requires Sorted(ByKey, s) && i <= j < |s|
    ensures AtMostKey(s[i], s[j])
  {
    if i < j {
      assert Less(KeyAt(ByKey, s, i), KeyAt(ByKey, s, j));
    }
  }

  lemma Chain(w: Entry, x: Entry, y: Entry, z: Entry)
    requires AtMostKey(w, x) && SliceLess(x.key, y.key) && AtMostKey(y, z)
    ensures SliceLess(w.key, z.key)
  {
    if SliceLess(w.key, x.key) {
      SliceTransitive(w.key, x.key, y.key);
    }
    if SliceLess(y.key, z.key) {
      SliceTransitive(w.key, y.key, z.key);
    }
  }

  // ----- where an edit's content stands

  /** An element an edit brings in comes after the base elements before the edit and before
      those behind it. */
  lemma ContentStands(base: seq<Entry>, node: seq<Entry>, e: RangeMap, x: Entry, h: nat)
    requires Sorted(ByKey, base) && Sorted(ByKey, node) && Framed(base, node, e)
    requires x in Content(node, e) && h < |base|
    ensures h < e.lhs.start ==> SliceLess(base[h].key, x.key)
    ensures e.lhs.Upper() <= h ==> SliceLess(x.key, base[h].key)
  {
    var c := Content(node, e);
    var d :| 0 <= d < |c| && c[d] == x;
    var j := e.rhs.start + d;
    assert node[j] == x;
    if h < e.lhs.start {
      KeysOrdered(base, h, e.lhs.start - 1);
      assert Less(KeyAt(ByKey, node, e.rhs.start - 1), KeyAt(ByKey, node, j));
      Chain(base[h], base[e.lhs.start - 1], x, x);
    }
    if e.lhs.Upper() <= h {
      KeysOrdered(base, e.lhs.Upper(), h);
      assert Less(KeyAt(ByKey, node, j), KeyAt(ByKey, node, e.rhs.Upper()));
      Chain(x, x, base[e.lhs.Upper()], base[h]);
    }
  }

  /** Contents of successive edits of one version are in turn. */
  lemma ContentsInTurn(node: seq<Entry>, e: RangeMap, f: RangeMap, x: Entry, y: Entry)
    requires Sorted(ByKey, node) && e.rhs.Upper() <= f.rhs.start && f.rhs.Upper() <= |node|
    requires x in Content(node, e) && y in Content(node, f)
    ensures SliceLess(x.key, y.key)
  {
    var c, d := Content(node, e), Content(node, f);
    var i :| 0 <= i < |c| && c[i] == x;
    var j :| 0 <= j < |d| && d[j] == y;
    assert Less(KeyAt(ByKey, node, e.rhs.start + i), KeyAt(ByKey, node, f.rhs.start + j));
  }

  /** Edits of the version that `e` belongs to, and edits of the other, all behind `e`. */
  ghost predicate Behind(base: seq<Entry>, na: seq<Entry>, nb: seq<Entry>, e: RangeMap,
                         es: seq<RangeMap>, fs: seq<RangeMap>) {
    && Sorted(ByKey, base) && Sorted(ByKey, na) && Sorted(ByKey, nb)
    && Framed(base, na, e) && AllFramed(base, na, es) && AllFramed(base, nb, fs)
    && Ranged(es, e.lhs.Upper(), |base|) && Ranged(fs, e.lhs.Upper(), |base|)
    && (forall k :: 0 <= k < |es| ==> e.rhs.Upper() <= es[k].rhs.start)
  }

  /** The first edit of the other version follows without a gap. */
  ghost predicate Touches(e: RangeMap, fs: seq<RangeMap>) {
    fs != [] && fs[0].lhs.start == e.lhs.Upper()
  }

  /** Where an element behind an edit comes from. */
  ghost predicate Comes(base: seq<Entry>, na: seq<Entry>, nb: seq<Entry>, u: nat,
                        es: seq<RangeMap>, fs: seq<RangeMap>, y: Entry)
    requires Bounded(na, es) && Bounded(nb, fs)
  {
    (exists i :: u <= i < |base| && base[i] == y) || Brings(na, es, y) || Brings(nb, fs, y)
  }

  /** An element of the base before the edit comes before all elements behind it. */
  lemma BaseBefore(base: seq<Entry>, na: seq<Entry>, nb: seq<Entry>, e: RangeMap,
                   es: seq<RangeMap>, fs: seq<RangeMap>, h: nat, y: Entry)
    requires Behind(base, na, nb, e, es, fs) && h < e.lhs.start
    requires Comes(base, na, nb, e.lhs.Upper(), es, fs, y)
    ensures SliceLess(base[h].key, y.key)
  {
    if Brings(na, es, y) {
      var k :| 0 <= k < |es| && y in Content(na, es[k]);
      ContentStands(base, na, es[k], y, h);
    } else if Brings(nb, fs, y) {
      var k :| 0 <= k < |fs| && y in Content(nb, fs[k]);
      ContentStands(base, nb, fs[k], y, h);
    } else {
      var i :| e.lhs.Upper() <= i < |base| && base[i] == y;
      assert Less(KeyAt(ByKey, base, h), KeyAt(ByKey, base, i));
    }
  }

  lemma FirstAlone(fs: seq<RangeMap>, u: nat, n: nat, k: nat)
    requires Ranged(fs, u, n) && k < |fs|
    ensures k > 0 ==> fs[k].lhs.start > u
  {
    if k > 0 {
      assert fs[0].lhs.Upper() < fs[k].lhs.start;
    }
  }

  /** An element the edit brings in comes before all elements behind it, but for those that
      an edit of the other version brings in without a gap. */
  lemma ContentBefore(base: seq<Entry>, na: seq<Entry>, nb: seq<Entry>, e: RangeMap,
                      es: seq<RangeMap>, fs: seq<RangeMap>, x: Entry, y: Entry)
    requires Behind(base, na, nb, e, es, fs) && x in Content(na, e)
    requires Comes(base, na, nb, e.lhs.Upper(), es, fs, y)
    requires Touches(e, fs) && y in Content(nb, fs[0]) ==> SliceLess(x.key, y.key)
    ensures SliceLess(x.key, y.key)
  {
    var u := e.lhs.Upper();
    if Brings(na, es, y) {
      var k :| 0 <= k < |es| && y in Content(na, es[k]);
      ContentsInTurn(na, e, es[k], x, y);
    } else if Brings(nb, fs, y) {
      var k :| 0 <= k < |fs| && y in Content(nb, fs[k]);
      FirstAlone(fs, u, |base|, k);
      if fs[k].lhs.start > u {
        ContentStands(base, nb, fs[k], y, u);
        ContentStands(base, na, e, x, u);
        SliceTransitive(x.key, base[u].key, y.key);
      }
    } else {
      var i :| u <= i < |base| && base[i] == y;
      ContentStands(base, na, e, x, i);
    }
  }

  /** What precedes an edit, the edit's content and what lies behind are in order if the
      parts are and, where an edit of the other version follows without a gap, the two
      contents are in turn. */
  lemma Junction(base: seq<Entry>, na: seq<Entry>, nb: seq<Entry>, p: nat, e: RangeMap,
                 es: seq<RangeMap>, fs: seq<RangeMap>, rest: seq<Entry>)
    requires Behind(base, na, nb, e, es, fs) && p <= e.lhs.start
    requires forall y :: y in rest ==> Comes(base, na, nb, e.lhs.Upper(), es, fs, y)
    requires Touches(e, fs) ==> forall y :: y in Content(nb, fs[0]) ==> y in rest
    ensures Sorted(ByKey, base[p..e.lhs.start] + Content(na, e) + rest) <==>
            Sorted(ByKey, rest) && (Touches(e, fs) ==> InTurn(Content(na, e), Content(nb, fs[0])))
  {
    var front, c := base[p..e.lhs.start], Content(na, e);
    FrontSorted(base, na, e, p);
    SortedPlus(front + c, rest);
    if Touches(e, fs) {
      SortedSlice(na, e.rhs.start, e.rhs.Upper());
      SortedSlice(nb, fs[0].rhs.start, fs[0].rhs.Upper());
      InTurnMeans(c, Content(nb, fs[0]));
      if AllBefore(front + c, rest) {
        RestBehind(front, c, rest, Content(nb, fs[0]));
      }
    }
    if Touches(e, fs) ==> InTurn(c, Content(nb, fs[0])) {
      RestInTurn(base, na, nb, p, e, es, fs, rest);
    }
  }

  lemma FrontSorted(base: seq<Entry>, na: seq<Entry>, e: RangeMap, p: nat)
    requires Sorted(ByKey, base) && Sorted(ByKey, na) && Framed(base, na, e) && p <= e.lhs.start
    ensures Sorted(ByKey, base[p..e.lhs.start] + Content(na, e))
  {
    var front, c := base[p..e.lhs.start], Content(na, e);
    SortedSlice(base, p, e.lhs.start);
    SortedSlice(na, e.rhs.start, e.rhs.Upper());
    forall i, j | 0 <= i < |front| && 0 <= j < |c| ensures SliceLess(front[i].key, c[j].key) {
      ContentStands(base, na, e, c[j], p + i);
    }
    SortedPlus(front, c);
  }

  lemma RestBehind(front: seq<Entry>, c: seq<Entry>, rest: seq<Entry>, d: seq<Entry>)
    requires AllBefore(front + c, rest) && forall y :: y in d ==> y in rest
    ensures AllBefore(c, d)
  {
    forall i, j | 0 <= i < |c| && 0 <= j < |d| ensures SliceLess(c[i].key, d[j].key) {
      assert d[j] in rest;
      var k :| 0 <= k < |rest| && rest[k] == d[j];
      assert (front + c)[|front| + i] == c[i];
    }
  }

  lemma RestInTurn(base: seq<Entry>, na: seq<Entry>, nb: seq<Entry>, p: nat, e: RangeMap,
                   es: seq<RangeMap>, fs: seq<RangeMap>, rest: seq<Entry>)
    requires Behind(base, na, nb, e, es, fs) && p <= e.lhs.start
    requires forall y :: y in rest ==> Comes(base, na, nb, e.lhs.Upper(), es, fs, y)
    requires Touches(e, fs) ==> AllBefore(Content(na, e), Content(nb, fs[0]))
    ensures AllBefore(base[p..e.lhs.start] + Content(na, e), rest)
  {
    var front, c := base[p..e.lhs.start], Content(na, e);
    var before: seq<Entry> := front + c;
    forall i, j | 0 <= i < |before| && 0 <= j < |rest| ensures SliceLess(before[i].key, rest[j].key) {
      var y := rest[j];
      assert y in rest;
      if i < |front| {
        BaseBefore(base, na, nb, e, es, fs, p + i, y);
      } else {
        var x := c[i - |front|];
        if Touches(e, fs) && y in Content(nb, fs[0]) {
          var d := Content(nb, fs[0]);
          var k :| 0 <= k < |d| && d[k] == y;
          assert SliceLess(c[i - |front|].key, d[k].key);
        }
        ContentBefore(base, na, nb, e, es, fs, x, y);
      }
    }
  }

  // ----- when a merge is in key order

  /** Two edits that are not one and the same: where one follows the other without a gap,
      their contents are in turn. Of two insertions at one place the first version's goes
      first. */
  predicate EditsInTurn(intended: bool, n1: seq<Entry>, n2: seq<Entry>, e: RangeMap, f: RangeMap)
    requires e.rhs.Upper() <= |n1| && f.rhs.Upper() <= |n2|
  {
    SameEdit(intended, n1, n2, e, f) ||
    if e.lhs.Upper() == f.lhs.start then InTurn(Content(n1, e), Content(n2, f))
    else f.lhs.Upper() == e.lhs.start ==> InTurn(Content(n2, f), Content(n1, e))
  }

  ghost predicate AllInTurn(intended: bool, n1: seq<Entry>, n2: seq<Entry>, es: seq<RangeMap>, fs: seq<RangeMap>)
    requires Bounded(n1, es) && Bounded(n2, fs)
  {
    forall i, j :: 0 <= i < |es| && 0 <= j < |fs| ==> EditsInTurn(intended, n1, n2, es[i], fs[j])
  }

  lemma InTurnFirst(intended: bool, n1: seq<Entry>, n2: seq<Entry>, es: seq<RangeMap>, fs: seq<RangeMap>, n: nat)
    requires Bounded(n1, es) && Bounded(n2, fs) && es != [] && Ranged(fs, es[0].lhs.Upper(), n)
    requires fs != [] ==> !SameEdit(intended, n1, n2, es[0], fs[0])
    ensures AllInTurn(intended, n1, n2, es, fs) <==>
            && (Touches(es[0], fs) ==> InTurn(Content(n1, es[0]), Content(n2, fs[0])))
            && AllInTurn(intended, n1, n2, es[1..], fs)
  {
    forall j | 0 <= j < |fs|
      ensures EditsInTurn(intended, n1, n2, es[0], fs[j]) <==>
              (j == 0 && Touches(es[0], fs) ==> InTurn(Content(n1, es[0]), Content(n2, fs[0])))
    {
      FirstAlone(fs, es[0].lhs.Upper(), n, j);
    }
    InTurnRest(intended, n1, n2, es, fs);
  }

  lemma InTurnRest(intended: bool, n1: seq<Entry>, n2: seq<Entry>, es: seq<RangeMap>, fs: seq<RangeMap>)
    requires Bounded(n1, es) && Bounded(n2, fs) && es != []
    ensures AllInTurn(intended, n1, n2, es, fs) <==>
            && (forall j :: 0 <= j < |fs| ==> EditsInTurn(intended, n1, n2, es[0], fs[j]))
            && AllInTurn(intended, n1, n2, es[1..], fs)
  {
    if AllInTurn(intended, n1, n2, es[1..], fs) &&
       (forall j :: 0 <= j < |fs| ==> EditsInTurn(intended, n1, n2, es[0], fs[j]))
    {
      forall i, j | 0 <= i < |es| && 0 <= j < |fs| ensures EditsInTurn(intended, n1, n2, es[i], fs[j]) {
        assert i > 0 ==> es[i] == es[1..][i - 1];
      }
    }
  }

  lemma InTurnRestSecond(intended: bool, n1: seq<Entry>, n2: seq<Entry>, es: seq<RangeMap>, fs: seq<RangeMap>)
    requires Bounded(n1, es) && Bounded(n2, fs) && fs != []
    ensures AllInTurn(intended, n1, n2, es, fs) <==>
            && (forall i :: 0 <= i < |es| ==> EditsInTurn(intended, n1, n2, es[i], fs[0]))
            && AllInTurn(intended, n1, n2, es, fs[1..])
  {
    if AllInTurn(intended, n1, n2, es, fs[1..]) &&
       (forall i :: 0 <= i < |es| ==> EditsInTurn(intended, n1, n2, es[i], fs[0]))
    {
      forall i, j | 0 <= i < |es| && 0 <= j < |fs| ensures EditsInTurn(intended, n1, n2, es[i], fs[j]) {
        assert j > 0 ==> fs[j] == fs[1..][j - 1];
      }
    }
  }

  lemma InTurnSecond(intended: bool, n1: seq<Entry>, n2: seq<Entry>, es: seq<RangeMap>, fs: seq<RangeMap>, n: nat)
    requires Bounded(n1, es) && Bounded(n2, fs) && fs != [] && Ranged(es, fs[0].lhs.Upper(), n)
    requires es != [] ==> !SameEdit(intended, n1, n2, es[0], fs[0]) && es[0].lhs.Upper() > fs[0].lhs.start
    ensures AllInTurn(intended, n1, n2, es, fs) <==>
            && (Touches(fs[0], es) ==> InTurn(Content(n2, fs[0]), Content(n1, es[0])))
            && AllInTurn(intended, n1, n2, es, fs[1..])
  {
    forall i | 0 <= i < |es|
      ensures EditsInTurn(intended, n1, n2, es[i], fs[0]) <==>
              (i == 0 && Touches(fs[0], es) ==> InTurn(Content(n2, fs[0]), Content(n1, es[0])))
    {
      FirstAlone(es, fs[0].lhs.Upper(), n, i);
    }
    InTurnRestSecond(intended, n1, n2, es, fs);
  }

  lemma InTurnBoth(intended: bool, n1: seq<Entry>, n2: seq<Entry>, es: seq<RangeMap>, fs: seq<RangeMap>)
    requires Bounded(n1, es) && Bounded(n2, fs) && es != [] && fs != [] && Apart(es) && Apart(fs)
    requires SameEdit(intended, n1, n2, es[0], fs[0])
    ensures AllInTurn(intended, n1, n2, es, fs) <==> AllInTurn(intended, n1, n2, es[1..], fs[1..])
  {
    forall j | 0 <= j < |fs| ensures EditsInTurn(intended, n1, n2, es[0], fs[j]) {
      assert j > 0 ==> fs[0].lhs.Upper() < fs[j].lhs.start;
    }
    forall i | 0 <= i < |es[1..]| ensures EditsInTurn(intended, n1, n2, es[1..][i], fs[0]) {
      assert es[1..][i] == es[i + 1] && es[0].lhs.Upper() < es[i + 1].lhs.start;
    }
    InTurnRest(intended, n1, n2, es, fs);
    InTurnRestSecond(intended, n1, n2, es[1..], fs);
  }

  /** Sorted versions with their edits from base position `p` on. */
  ghost predicate Placed(base: seq<Entry>, n1: seq<Entry>, n2: seq<Entry>,
                         es: seq<RangeMap>, fs: seq<RangeMap>, p: nat) {
    && Sorted(ByKey, base) && Sorted(ByKey, n1) && Sorted(ByKey, n2) && p <= |base|
    && Bounded(n1, es) && Bounded(n2, fs) && AllFramed(base, n1, es) && AllFramed(base, n2, fs)
    && Ranged(es, p, |base|) && Ranged(fs, p, |base|)
  }

  /** What the rest of a walk yields comes from the base and the edits left. */
  lemma RestComes(intended: bool, base: seq<Entry>, n1: seq<Entry>, n2: seq<Entry>,
                  es: seq<RangeMap>, fs: seq<RangeMap>, u: nat, ops: seq<Splice>, y: Entry)
    requires Bounded(n1, es) && Bounded(n2, fs) && Walk(intended, n1, n2, es, fs) == Ops(ops)
    requires InOrder(ops, u, |base|) && y in Spliced(base, ops, u)
    ensures Comes(base, n1, n2, u, es, fs, y)
  {
    SplicedHolds(base, ops, u, y);
    if k :| 0 <= k < |ops| && y in ops[k].content {
      WalkFrom(intended, n1, n2, es, fs, ops[k]);
    }
  }

  lemma AllCome(intended: bool, base: seq<Entry>, n1: seq<Entry>, n2: seq<Entry>,
                es: seq<RangeMap>, fs: seq<RangeMap>, u: nat, ops: seq<Splice>)
    requires Bounded(n1, es) && Bounded(n2, fs) && Walk(intended, n1, n2, es, fs) == Ops(ops)
    requires InOrder(ops, u, |base|)
    ensures forall y :: y in Spliced(base, ops, u) ==> Comes(base, n1, n2, u, es, fs, y)
    ensures forall y :: y in Spliced(base, ops, u) ==> Comes(base, n2, n1, u, fs, es, y)
  {
    forall y | y in Spliced(base, ops, u)
      ensures Comes(base, n1, n2, u, es, fs, y) && Comes(base, n2, n1, u, fs, es, y)
    {
      RestComes(intended, base, n1, n2, es, fs, u, ops, y);
    }
  }

  /** The edits after the first of a version lie behind it, with those of the other version
      that do. */
  lemma TailBehind(base: seq<Entry>, na: seq<Entry>, nb: seq<Entry>, es: seq<RangeMap>, fs: seq<RangeMap>, p: nat)
    requires Sorted(ByKey, base) && Sorted(ByKey, na) && Sorted(ByKey, nb) && es != []
    requires AllFramed(base, na, es) && AllFramed(base, nb, fs)
    requires Ranged(es, p, |base|) && Ranged(fs, es[0].lhs.Upper(), |base|)
    ensures Behind(base, na, nb, es[0], es[1..], fs)
    ensures forall k :: 0 <= k < |es[1..]| ==> es[0].lhs.Upper() < es[1..][k].lhs.start
  {
    RangedTail(es, p, |base|);
    forall k | 0 <= k < |es[1..]|
      ensures es[0].rhs.Upper() <= es[1..][k].rhs.start && es[0].lhs.Upper() < es[1..][k].lhs.start
    {
      assert es[1..][k] == es[k + 1];
    }
  }

  /** Behind an edit that is in both versions stand the rests of both. */
  lemma BothBehind(base: seq<Entry>, n1: seq<Entry>, n2: seq<Entry>, es: seq<RangeMap>, fs: seq<RangeMap>, p: nat)
    requires Placed(base, n1, n2, es, fs, p) && es != [] && fs != [] && es[0].lhs == fs[0].lhs
    ensures Placed(base, n1, n2, es[1..], fs[1..], es[0].lhs.Upper())
    ensures Behind(base, n1, n2, es[0], es[1..], fs[1..]) && !Touches(es[0], fs[1..])
  {
    TailBehind(base, n2, n1, fs, [], p);
    TailBehind(base, n1, n2, es, fs[1..], p);
  }

  /** An edit that is not shared is applied. */
  lemma TakenIn(intended: bool, base: seq<Entry>, n1: seq<Entry>, n2: seq<Entry>,
                es: seq<RangeMap>, fs: seq<RangeMap>, u: nat, ops: seq<Splice>, o: Splice, y: Entry)
    requires Bounded(n1, es) && Bounded(n2, fs) && Walk(intended, n1, n2, es, fs) == Ops(ops)
    requires InOrder(ops, u, |base|) && y in o.content
    requires From(o, n1, es) || (From(o, n2, fs) && !Shared(intended, n1, n2, es, fs, o))
    ensures y in Spliced(base, ops, u)
  {
    WalkFrom(intended, n1, n2, es, fs, o);
    var k :| 0 <= k < |ops| && ops[k] == o;
    SplicedHolds(base, ops, u, y);
  }

  lemma {:induction false} WalkSorted(intended: bool, base: seq<Entry>, n1: seq<Entry>, n2: seq<Entry>,
                                      es: seq<RangeMap>, fs: seq<RangeMap>, p: nat, ops: seq<Splice>)
    requires Placed(base, n1, n2, es, fs, p) && Walk(intended, n1, n2, es, fs) == Ops(ops)
    ensures InOrder(ops, p, |base|)
    ensures Sorted(ByKey, Spliced(base, ops, p)) <==> AllInTurn(intended, n1, n2, es, fs)
    decreases |es| + |fs|
  {
    WalkInOrder(intended, n1, n2, es, fs, p, |base|);
    if es == [] && fs == [] {
      SortedSlice(base, p, |base|);
      assert base[p..|base|] == base[p..] && Spliced(base, [], p) == base[p..];
    } else {
      var turn, rest := WalkStep(intended, n1, n2, es, fs);
      match turn {
        case OfFirst => SortedFirst(intended, base, n1, n2, es, fs, p, rest);
        case OfSecond => SortedSecond(intended, base, n1, n2, es, fs, p, rest);
        case OfBoth => SortedBoth(intended, base, n1, n2, es, fs, p, rest);
      }
    }
  }

  lemma {:induction false} SortedFirst(intended: bool, base: seq<Entry>, n1: seq<Entry>, n2: seq<Entry>,
                                       es: seq<RangeMap>, fs: seq<RangeMap>, p: nat, rest: seq<Splice>)
    requires Placed(base, n1, n2, es, fs, p) && es != []
    requires fs == [] || (!SameEdit(intended, n1, n2, es[0], fs[0]) && es[0].lhs.Upper() <= fs[0].lhs.start)
    requires Walk(intended, n1, n2, es[1..], fs) == Ops(rest)
    ensures InOrder([SpliceOf(es[0], n1)] + rest, p, |base|)
    ensures Sorted(ByKey, Spliced(base, [SpliceOf(es[0], n1)] + rest, p)) <==> AllInTurn(intended, n1, n2, es, fs)
    decreases |es| + |fs|, 0
  {
    var e, es', u := es[0], es[1..], es[0].lhs.Upper();
    RangedFrom(fs, p, u, |base|);
    RangedTail(es, p, |base|);
    WalkSorted(intended, base, n1, n2, es', fs, u, rest);
    SplicedCons(base, SpliceOf(e, n1), rest, p);
    FirstJoins(intended, base, n1, n2, es, fs, p, rest);
    InTurnFirst(intended, n1, n2, es, fs, |base|);
  }

  lemma FirstJoins(intended: bool, base: seq<Entry>, n1: seq<Entry>, n2: seq<Entry>,
                   es: seq<RangeMap>, fs: seq<RangeMap>, p: nat, rest: seq<Splice>)
    requires Placed(base, n1, n2, es, fs, p) && es != [] && Ranged(fs, es[0].lhs.Upper(), |base|)
    requires Walk(intended, n1, n2, es[1..], fs) == Ops(rest) && InOrder(rest, es[0].lhs.Upper(), |base|)
    ensures var r := Spliced(base, rest, es[0].lhs.Upper());
      Sorted(ByKey, base[p..es[0].lhs.start] + Content(n1, es[0]) + r) <==>
      Sorted(ByKey, r) && (Touches(es[0], fs) ==> InTurn(Content(n1, es[0]), Content(n2, fs[0])))
  {
    var e, es', u := es[0], es[1..], es[0].lhs.Upper();
    TailBehind(base, n1, n2, es, fs, p);
    AllCome(intended, base, n1, n2, es', fs, u, rest);
    TouchingTaken(intended, base, n1, n2, es', fs, u, rest);
    Junction(base, n1, n2, p, e, es', fs, Spliced(base, rest, u));
  }

  /** The elements of a first edit that is not shared are in the result. */
  lemma FirstTaken(intended: bool, base: seq<Entry>, n1: seq<Entry>, n2: seq<Entry>,
                   es: seq<RangeMap>, fs: seq<RangeMap>, u: nat, ops: seq<Splice>, first: bool)
    requires Bounded(n1, es) && Bounded(n2, fs) && Walk(intended, n1, n2, es, fs) == Ops(ops)
    requires InOrder(ops, u, |base|)
    requires if first then es != [] else fs != [] && !Shared(intended, n1, n2, es, fs, SpliceOf(fs[0], n2))
    ensures forall y :: y in (if first then Content(n1, es[0]) else Content(n2, fs[0])) ==> y in Spliced(base, ops, u)
  {
    var o := if first then SpliceOf(es[0], n1) else SpliceOf(fs[0], n2);
    assert if first then From(o, n1, es) else From(o, n2, fs);
    forall y | y in o.content ensures y in Spliced(base, ops, u) {
      TakenIn(intended, base, n1, n2, es, fs, u, ops, o, y);
    }
  }

  /** A first edit of the second version at a place before all of the first's is applied. */
  lemma TouchingTaken(intended: bool, base: seq<Entry>, n1: seq<Entry>, n2: seq<Entry>,
                      es: seq<RangeMap>, fs: seq<RangeMap>, u: nat, ops: seq<Splice>)
    requires Bounded(n1, es) && Bounded(n2, fs) && Walk(intended, n1, n2, es, fs) == Ops(ops)
    requires InOrder(ops, u, |base|)
    requires forall k :: 0 <= k < |es| ==> u < es[k].lhs.start
    ensures fs != [] && fs[0].lhs.start == u ==>
            forall y :: y in Content(n2, fs[0]) ==> y in Spliced(base, ops, u)
  {
    if fs != [] && fs[0].lhs.start == u {
      assert !Shared(intended, n1, n2, es, fs, SpliceOf(fs[0], n2));
      FirstTaken(intended, base, n1, n2, es, fs, u, ops, false);
    }
  }

  lemma {:induction false} SortedSecond(intended: bool, base: seq<Entry>, n1: seq<Entry>, n2: seq<Entry>,
                                        es: seq<RangeMap>, fs: seq<RangeMap>, p: nat, rest: seq<Splice>)
    requires Placed(base, n1, n2, es, fs, p) && fs != []
    requires es == [] || (!SameEdit(intended, n1, n2, es[0], fs[0]) && fs[0].lhs.Upper() <= es[0].lhs.start
                          && es[0].lhs.Upper() > fs[0].lhs.start)
    requires Walk(intended, n1, n2, es, fs[1..]) == Ops(rest)
    ensures InOrder([SpliceOf(fs[0], n2)] + rest, p, |base|)
    ensures Sorted(ByKey, Spliced(base, [SpliceOf(fs[0], n2)] + rest, p)) <==> AllInTurn(intended, n1, n2, es, fs)
    decreases |es| + |fs|, 0
  {
    var f, fs', u := fs[0], fs[1..], fs[0].lhs.Upper();
    RangedFrom(es, p, u, |base|);
    TailBehind(base, n2, n1, fs, es, p);
    WalkSorted(intended, base, n1, n2, es, fs', u, rest);
    SplicedCons(base, SpliceOf(f, n2), rest, p);
    AllCome(intended, base, n1, n2, es, fs', u, rest);
    if Touches(f, es) {
      FirstTaken(intended, base, n1, n2, es, fs', u, rest, true);
    }
    Junction(base, n2, n1, p, f, fs', es, Spliced(base, rest, u));
    InTurnSecond(intended, n1, n2, es, fs, |base|);
  }

  lemma {:induction false} SortedBoth(intended: bool, base: seq<Entry>, n1: seq<Entry>, n2: seq<Entry>,
                                      es: seq<RangeMap>, fs: seq<RangeMap>, p: nat, rest: seq<Splice>)
    requires Placed(base, n1, n2, es, fs, p) && es != [] && fs != [] && SameEdit(intended, n1, n2, es[0], fs[0])
    requires Walk(intended, n1, n2, es[1..], fs[1..]) == Ops(rest)
    ensures InOrder([SpliceOf(es[0], n1)] + rest, p, |base|)
    ensures Sorted(ByKey, Spliced(base, [SpliceOf(es[0], n1)] + rest, p)) <==> AllInTurn(intended, n1, n2, es, fs)
    decreases |es| + |fs|, 0
  {
    var e, es', fs', u := es[0], es[1..], fs[1..], es[0].lhs.Upper();
    BothBehind(base, n1, n2, es, fs, p);
    WalkSorted(intended, base, n1, n2, es', fs', u, rest);
    SplicedCons(base, SpliceOf(e, n1), rest, p);
    AllCome(intended, base, n1, n2, es', fs', u, rest);
    Junction(base, n1, n2, p, e, es', fs', Spliced(base, rest, u));
    InTurnBoth(intended, n1, n2, es, fs);
  }

  lemma EditsPlaced(base: seq<Entry>, n1: seq<Entry>, n2: seq<Entry>)
    requires Sorted(ByKey, base) && Sorted(ByKey, n1) && Sorted(ByKey, n2)
    ensures Placed(base, n1, n2, EditsOf(base, n1), EditsOf(base, n2), 0)
  {
    ScriptFramed(base, n1, EditsOf(base, n1), 0, 0);
    ScriptFramed(base, n2, EditsOf(base, n2), 0, 0);
  }

  /** A merge that goes through is in key order exactly if any two different edits of which
      one follows the other without a gap bring in elements that are in turn. */
  lemma MergeSorted(intended: bool, base: seq<Entry>, n1: seq<Entry>, n2: seq<Entry>)
    requires Sorted(ByKey, base) && Sorted(ByKey, n1) && Sorted(ByKey, n2)
    requires MergeOf(intended, base, n1, n2).Merged?
    ensures Sorted(ByKey, MergeOf(intended, base, n1, n2).elements) <==>
            AllInTurn(intended, n1, n2, EditsOf(base, n1), EditsOf(base, n2))
  {
    var es, fs := EditsOf(base, n1), EditsOf(base, n2);
    EditsPlaced(base, n1, n2);
    WalkSorted(intended, base, n1, n2, es, fs, 0, Walk(intended, n1, n2, es, fs).ops);
  }
}

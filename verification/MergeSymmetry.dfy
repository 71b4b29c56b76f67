/** When the order of the two versions does not matter to a merge. */
module MergeSymmetry {
  import opened Keys
  import opened Trees
  import opened Ranges
  import opened Edits
  import opened Splices
  import opened Merger
  import opened MergeLaws
  import opened MergeOrder

  /** Edits of the two versions over the same part of the base bring in the same elements. */
  ghost predicate Agree(n1: seq<Entry>, n2: seq<Entry>, es: seq<RangeMap>, fs: seq<RangeMap>)
    requires Bounded(n1, es) && Bounded(n2, fs)
  {
    forall i, j :: 0 <= i < |es| && 0 <= j < |fs| && es[i].lhs == fs[j].lhs ==> Content(n1, es[i]) == Content(n2, fs[j])
  }

  /** Sorted versions with their edits from base position `p` on. */
  ghost predicate Paired(base: seq<Entry>, n1: seq<Entry>, n2: seq<Entry>,
                         es: seq<RangeMap>, fs: seq<RangeMap>, p: nat) {
    && Sorted(ByKey, n1) && Sorted(ByKey, n2) && p <= |base|
    && Bounded(n1, es) && Bounded(n2, fs) && Replacing(es) && Replacing(fs)
    && Ranged(es, p, |base|) && Ranged(fs, p, |base|)
  }

  lemma TailPaired(base: seq<Entry>, n1: seq<Entry>, n2: seq<Entry>, es: seq<RangeMap>, fs: seq<RangeMap>, p: nat)
    requires Paired(base, n1, n2, es, fs, p) && es != [] && (fs != [] ==> es[0].lhs.Upper() <= fs[0].lhs.start)
    ensures Paired(base, n1, n2, es[1..], fs, es[0].lhs.Upper())
  {
    RangedTail(es, p, |base|);
    RangedFrom(fs, p, es[0].lhs.Upper(), |base|);
  }

  lemma AgreeTail(n1: seq<Entry>, n2: seq<Entry>, es: seq<RangeMap>, fs: seq<RangeMap>)
    requires Bounded(n1, es) && Bounded(n2, fs) && es != [] && Apart(fs)
    requires fs == [] || (es[0].lhs.Upper() <= fs[0].lhs.start && es[0].lhs != fs[0].lhs)
    ensures Agree(n1, n2, es, fs) <==> Agree(n1, n2, es[1..], fs)
  {
    if Agree(n1, n2, es[1..], fs) {
      forall i, j | 0 <= i < |es| && 0 <= j < |fs| && es[i].lhs == fs[j].lhs
        ensures Content(n1, es[i]) == Content(n2, fs[j])
      {
        assert j > 0 ==> fs[0].lhs.Upper() < fs[j].lhs.start;
        assert i > 0 && es[i] == es[1..][i - 1];
      }
    }
  }

  lemma AgreeFlip(n1: seq<Entry>, n2: seq<Entry>, es: seq<RangeMap>, fs: seq<RangeMap>)
    requires Bounded(n1, es) && Bounded(n2, fs)
    ensures Agree(n1, n2, es, fs) <==> Agree(n2, n1, fs, es)
  {
  }

  lemma AgreeBoth(n1: seq<Entry>, n2: seq<Entry>, es: seq<RangeMap>, fs: seq<RangeMap>)
    requires Bounded(n1, es) && Bounded(n2, fs) && es != [] && fs != [] && Apart(es) && Apart(fs)
    requires es[0].lhs == fs[0].lhs
    ensures Agree(n1, n2, es, fs) <==>
            Content(n1, es[0]) == Content(n2, fs[0]) && Agree(n1, n2, es[1..], fs[1..])
  {
    forall i | 0 < i < |es| ensures es[i] == es[1..][i - 1] && es[0].lhs.Upper() < es[i].lhs.start {}
    forall j | 0 < j < |fs| ensures fs[j] == fs[1..][j - 1] && fs[0].lhs.Upper() < fs[j].lhs.start {}
    if Content(n1, es[0]) == Content(n2, fs[0]) && Agree(n1, n2, es[1..], fs[1..]) {
      forall i, j | 0 <= i < |es| && 0 <= j < |fs| && es[i].lhs == fs[j].lhs
        ensures Content(n1, es[i]) == Content(n2, fs[j])
      {
        if i > 0 && j > 0 {
          assert es[1..][i - 1].lhs == fs[1..][j - 1].lhs;
        }
      }
    }
  }

  /** Two different pieces of sorted elements make a difference in which order they come. */
  lemma OrderMatters(c: seq<Entry>, d: seq<Entry>)
    requires Sorted(ByKey, c) && Sorted(ByKey, d) && c != [] && d != [] && c != d
    ensures c + d != d + c
  {
    if |c| == |d| {
      assert (c + d)[..|c|] == c && (d + c)[..|c|] == d;
    } else if |c| < |d| {
      FirstIsOnce(d, |c|);
      assert (c + d)[|c|] == d[0] && (d + c)[|c|] == d[|c|];
    } else {
      FirstIsOnce(c, |d|);
      assert (d + c)[|d|] == c[0] && (c + d)[|d|] == c[|d|];
    }
  }

  lemma FirstIsOnce(s: seq<Entry>, i: nat)
    requires Sorted(ByKey, s) && 0 < i < |s|
    ensures s[i] != s[0]
  {
    SortedReflects(ByKey, s, 0, i);
    SliceTrichotomy(s[0].key, s[i].key);
  }

  lemma SameLength(front: seq<Entry>, c: seq<Entry>, d: seq<Entry>, r: seq<Entry>, s: seq<Entry>)
    requires |c| == |d|
    ensures front + c + r == front + d + s <==> c == d && r == s
  {
    var a, b := front + c + r, front + d + s;
    if a == b {
      assert a[|front|..|front| + |c|] == c && b[|front|..|front| + |c|] == d;
      assert a[|front| + |c|..] == r && b[|front| + |c|..] == s;
    }
  }

  ghost predicate Alike(base: seq<Entry>, ops: seq<Splice>, ops': seq<Splice>, p: nat)
    requires InOrder(ops, p, |base|) && InOrder(ops', p, |base|)
  {
    Spliced(base, ops, p) == Spliced(base, ops', p)
  }

  /** Splices at one place with as many elements yield the same if they and the rests do. */
  lemma SplicedAlike(base: seq<Entry>, o: Splice, o': Splice, rest: seq<Splice>, rest': seq<Splice>, p: nat,
                     same: bool)
    requires p <= o.start == o'.start && o.num == o'.num && |o.content| == |o'.content|
    requires InOrder(rest, o.Upper(), |base|) && InOrder(rest', o'.Upper(), |base|)
    requires same <==> Alike(base, rest, rest', o.Upper())
    ensures InOrder([o] + rest, p, |base|) && InOrder([o'] + rest', p, |base|)
    ensures Alike(base, [o] + rest, [o'] + rest', p) <==> o.content == o'.content && same
  {
    SplicedCons(base, o, rest, p);
    SplicedCons(base, o', rest', p);
    WholesAlike(base[p..o.start], o.content, o'.content,
                Spliced(base, rest, o.Upper()), Spliced(base, rest', o'.Upper()),
                Spliced(base, [o] + rest, p), Spliced(base, [o'] + rest', p));
  }

  lemma WholesAlike(front: seq<Entry>, c: seq<Entry>, d: seq<Entry>, r: seq<Entry>, r': seq<Entry>,
                    a: seq<Entry>, a': seq<Entry>)
    requires |c| == |d| && a == front + c + r && a' == front + d + r'
    ensures a == a' <==> c == d && r == r'
  {
    SameLength(front, c, d, r, r');
  }

  lemma {:induction false} WalkMirrored(intended: bool, base: seq<Entry>, n1: seq<Entry>, n2: seq<Entry>,
                                        es: seq<RangeMap>, fs: seq<RangeMap>, p: nat,
                                        ops: seq<Splice>, flipped: seq<Splice>)
    requires Paired(base, n1, n2, es, fs, p)
    requires Walk(intended, n1, n2, es, fs) == Ops(ops) && Walk(intended, n2, n1, fs, es) == Ops(flipped)
    ensures InOrder(ops, p, |base|) && InOrder(flipped, p, |base|)
    ensures Alike(base, ops, flipped, p) <==> Agree(n1, n2, es, fs)
    decreases |es| + |fs|, 1
  {
    WalkInOrder(intended, n1, n2, es, fs, p, |base|);
    WalkInOrder(intended, n2, n1, fs, es, p, |base|);
    if es != [] || fs != [] {
      var turn, rest := WalkStep(intended, n1, n2, es, fs);
      var turn', rest' := WalkStep(intended, n2, n1, fs, es);
      if turn.OfBoth? {
        BothMirrored(intended, base, n1, n2, es, fs, p, rest, rest');
      } else if es != [] && fs != [] && es[0].lhs == fs[0].lhs {
        InsertsMirrored(intended, base, n1, n2, es, fs, p, rest, rest');
      } else if turn.OfFirst? {
        OneMirrored(intended, base, n1, n2, es, fs, p, rest, rest');
      } else {
        OneMirrored(intended, base, n2, n1, fs, es, p, rest', rest);
        AgreeFlip(n1, n2, es, fs);
      }
    }
  }

  lemma {:induction false} OneMirrored(intended: bool, base: seq<Entry>, n1: seq<Entry>, n2: seq<Entry>,
                                       es: seq<RangeMap>, fs: seq<RangeMap>, p: nat,
                                       rest: seq<Splice>, rest': seq<Splice>)
    requires Paired(base, n1, n2, es, fs, p) && es != []
    requires fs == [] || (es[0].lhs.Upper() <= fs[0].lhs.start && es[0].lhs != fs[0].lhs)
    requires Walk(intended, n1, n2, es[1..], fs) == Ops(rest) && Walk(intended, n2, n1, fs, es[1..]) == Ops(rest')
    ensures var o := SpliceOf(es[0], n1);
      && InOrder([o] + rest, p, |base|) && InOrder([o] + rest', p, |base|)
      && (Alike(base, [o] + rest, [o] + rest', p) <==> Agree(n1, n2, es, fs))
    decreases |es| + |fs|, 0
  {
    var u := es[0].lhs.Upper();
    TailPaired(base, n1, n2, es, fs, p);
    WalkMirrored(intended, base, n1, n2, es[1..], fs, u, rest, rest');
    OneAlike(base, n1, n2, es, fs, p, rest, rest');
  }

  lemma OneAlike(base: seq<Entry>, n1: seq<Entry>, n2: seq<Entry>, es: seq<RangeMap>, fs: seq<RangeMap>, p: nat,
                 rest: seq<Splice>, rest': seq<Splice>)
    requires Paired(base, n1, n2, es, fs, p) && es != []
    requires fs == [] || (es[0].lhs.Upper() <= fs[0].lhs.start && es[0].lhs != fs[0].lhs)
    requires InOrder(rest, es[0].lhs.Upper(), |base|) && InOrder(rest', es[0].lhs.Upper(), |base|)
    requires Alike(base, rest, rest', es[0].lhs.Upper()) <==> Agree(n1, n2, es[1..], fs)
    ensures var o := SpliceOf(es[0], n1);
      && InOrder([o] + rest, p, |base|) && InOrder([o] + rest', p, |base|)
      && (Alike(base, [o] + rest, [o] + rest', p) <==> Agree(n1, n2, es, fs))
  {
    AgreeTail(n1, n2, es, fs);
    var o, same := SpliceOf(es[0], n1), Agree(n1, n2, es, fs);
    SplicedAlike(base, o, o, rest, rest', p, same);
  }

  lemma {:induction false} BothMirrored(intended: bool, base: seq<Entry>, n1: seq<Entry>, n2: seq<Entry>,
                                        es: seq<RangeMap>, fs: seq<RangeMap>, p: nat,
                                        rest: seq<Splice>, rest': seq<Splice>)
    requires Paired(base, n1, n2, es, fs, p) && es != [] && fs != [] && SameEdit(intended, n1, n2, es[0], fs[0])
    requires Walk(intended, n1, n2, es[1..], fs[1..]) == Ops(rest)
    requires Walk(intended, n2, n1, fs[1..], es[1..]) == Ops(rest')
    ensures var o, o' := SpliceOf(es[0], n1), SpliceOf(fs[0], n2);
      && InOrder([o] + rest, p, |base|) && InOrder([o'] + rest', p, |base|)
      && (Alike(base, [o] + rest, [o'] + rest', p) <==> Agree(n1, n2, es, fs))
    decreases |es| + |fs|, 0
  {
    var u := es[0].lhs.Upper();
    RangedTail(fs, p, |base|);
    TailPaired(base, n1, n2, es, fs[1..], p);
    WalkMirrored(intended, base, n1, n2, es[1..], fs[1..], u, rest, rest');
    BothAlike(base, n1, n2, es, fs, p, rest, rest');
  }

  lemma BothAlike(base: seq<Entry>, n1: seq<Entry>, n2: seq<Entry>, es: seq<RangeMap>, fs: seq<RangeMap>, p: nat,
                  rest: seq<Splice>, rest': seq<Splice>)
    requires Paired(base, n1, n2, es, fs, p) && es != [] && fs != []
    requires es[0].lhs == fs[0].lhs && es[0].rhs.num == fs[0].rhs.num
    requires InOrder(rest, es[0].lhs.Upper(), |base|) && InOrder(rest', es[0].lhs.Upper(), |base|)
    requires Alike(base, rest, rest', es[0].lhs.Upper()) <==> Agree(n1, n2, es[1..], fs[1..])
    ensures var o, o' := SpliceOf(es[0], n1), SpliceOf(fs[0], n2);
      && InOrder([o] + rest, p, |base|) && InOrder([o'] + rest', p, |base|)
      && (Alike(base, [o] + rest, [o'] + rest', p) <==> Agree(n1, n2, es, fs))
  {
    var same := Agree(n1, n2, es[1..], fs[1..]);
    SplicedAlike(base, SpliceOf(es[0], n1), SpliceOf(fs[0], n2), rest, rest', p, same);
    AgreeBoth(n1, n2, es, fs);
  }

  /** After an insertion the other version's insertion at the same place comes next. */
  lemma SecondInsert(intended: bool, n1: seq<Entry>, n2: seq<Entry>, es: seq<RangeMap>, fs: seq<RangeMap>,
                     rest: seq<Splice>)
    returns (last: seq<Splice>)
    requires Bounded(n1, es) && Bounded(n2, fs) && es != [] && fs != [] && Apart(es)
    requires es[0].lhs == fs[0].lhs && es[0].lhs.num == 0
    requires Walk(intended, n1, n2, es[1..], fs) == Ops(rest)
    ensures rest == [SpliceOf(fs[0], n2)] + last
  {
    var turn;
    assert es[1..] != [] ==> es[1..][0] == es[1] && es[0].lhs.Upper() < es[1].lhs.start;
    turn, last := WalkStep(intended, n1, n2, es[1..], fs);
  }

  /** What the two walks yield from two insertions at one place on. */
  lemma InsertedTwice(intended: bool, base: seq<Entry>, n1: seq<Entry>, n2: seq<Entry>,
                      es: seq<RangeMap>, fs: seq<RangeMap>, p: nat, rest: seq<Splice>)
    returns (after: seq<Entry>)
    requires Paired(base, n1, n2, es, fs, p) && es != [] && fs != []
    requires es[0].lhs == fs[0].lhs && es[0].lhs.num == 0
    requires Walk(intended, n1, n2, es[1..], fs) == Ops(rest)
    ensures InOrder([SpliceOf(es[0], n1)] + rest, p, |base|)
    ensures Spliced(base, [SpliceOf(es[0], n1)] + rest, p) ==
            base[p..es[0].lhs.start] + (Content(n1, es[0]) + Content(n2, fs[0])) + after
  {
    var e, f, u := es[0], fs[0], es[0].lhs.start;
    RangedTail(es, p, |base|);
    RangedFrom(fs, p, u, |base|);
    WalkInOrder(intended, n1, n2, es[1..], fs, u, |base|);
    var last := SecondInsert(intended, n1, n2, es, fs, rest);
    after := SplicedTwice(base, SpliceOf(e, n1), SpliceOf(f, n2), last, p);
  }

  lemma SplicedTwice(base: seq<Entry>, o: Splice, o': Splice, last: seq<Splice>, p: nat) returns (after: seq<Entry>)
    requires p <= o.start == o'.start && o.num == 0 && InOrder([o'] + last, o.start, |base|)
    ensures InOrder([o] + ([o'] + last), p, |base|) && o.start <= |base|
    ensures Spliced(base, [o] + ([o'] + last), p) == base[p..o.start] + (o.content + o'.content) + after
  {
    assert ([o'] + last)[0] == o' && ([o'] + last)[1..] == last;
    SplicedCons(base, o', last, o.start);
    SplicedCons(base, o, [o'] + last, p);
    after := Spliced(base, last, o'.Upper());
    PlusTwice(base[p..o.start], o.content, base[o.start..o.start], o'.content, after);
  }

  lemma PlusTwice(front: seq<Entry>, c: seq<Entry>, none: seq<Entry>, d: seq<Entry>, after: seq<Entry>)
    requires none == []
    ensures front + c + (none + d + after) == front + (c + d) + after
  {
  }

  lemma InsertsMirrored(intended: bool, base: seq<Entry>, n1: seq<Entry>, n2: seq<Entry>,
                        es: seq<RangeMap>, fs: seq<RangeMap>, p: nat, rest: seq<Splice>, rest': seq<Splice>)
    requires Paired(base, n1, n2, es, fs, p) && es != [] && fs != []
    requires es[0].lhs == fs[0].lhs && es[0].lhs.num == 0 && !SameEdit(intended, n1, n2, es[0], fs[0])
    requires Walk(intended, n1, n2, es[1..], fs) == Ops(rest) && Walk(intended, n2, n1, fs[1..], es) == Ops(rest')
    ensures var o, o' := SpliceOf(es[0], n1), SpliceOf(fs[0], n2);
      && InOrder([o] + rest, p, |base|) && InOrder([o'] + rest', p, |base|)
      && Spliced(base, [o] + rest, p) != Spliced(base, [o'] + rest', p) && !Agree(n1, n2, es, fs)
  {
    var c, d := Content(n1, es[0]), Content(n2, fs[0]);
    var after := InsertedTwice(intended, base, n1, n2, es, fs, p, rest);
    var after' := InsertedTwice(intended, base, n2, n1, fs, es, p, rest');
    SortedSlice(n1, es[0].rhs.start, es[0].rhs.Upper());
    SortedSlice(n2, fs[0].rhs.start, fs[0].rhs.Upper());
    OrderMatters(c, d);
    SameLength(base[p..es[0].lhs.start], c + d, d + c, after, after');
  }

  lemma ClashesFlip(intended: bool, n1: seq<Entry>, n2: seq<Entry>, es: seq<RangeMap>, fs: seq<RangeMap>)
    requires Bounded(n1, es) && Bounded(n2, fs)
    ensures Clashes(intended, n1, n2, es, fs) <==> Clashes(intended, n2, n1, fs, es)
  {
    if i, j :| 0 <= i < |es| && 0 <= j < |fs| && Clash(intended, n1, n2, es[i], fs[j]) {
      assert Clash(intended, n2, n1, fs[j], es[i]);
    }
    if j, i :| 0 <= j < |fs| && 0 <= i < |es| && Clash(intended, n2, n1, fs[j], es[i]) {
      assert Clash(intended, n1, n2, es[i], fs[j]);
    }
  }

  /** Swapping the versions never changes whether a merge goes through. It leaves the result
      the same exactly if edits over the same part of the base bring in the same elements. */
  lemma MergeSymmetric(intended: bool, base: seq<Entry>, n1: seq<Entry>, n2: seq<Entry>)
    requires Sorted(ByKey, base) && Sorted(ByKey, n1) && Sorted(ByKey, n2)
    ensures var r, s := MergeOf(intended, base, n1, n2), MergeOf(intended, base, n2, n1);
      if r.Merged? then s.Merged? && (r == s <==> Agree(n1, n2, EditsOf(base, n1), EditsOf(base, n2)))
      else r == s
  {
    var es, fs := EditsOf(base, n1), EditsOf(base, n2);
    MergeOutcome(intended, base, n1, n2);
    MergeOutcome(intended, base, n2, n1);
    ClashesFlip(intended, n1, n2, es, fs);
    if MergeOf(intended, base, n1, n2).Merged? {
      EditsPlaced(base, n1, n2);
      BothReplace(base, n1, n2);
      WalkMirrored(intended, base, n1, n2, es, fs, 0,
                   Walk(intended, n1, n2, es, fs).ops, Walk(intended, n2, n1, fs, es).ops);
    }
  }

  lemma BothReplace(base: seq<Entry>, n1: seq<Entry>, n2: seq<Entry>)
    requires Sorted(ByKey, base) && Sorted(ByKey, n1) && Sorted(ByKey, n2)
    requires !CutsTail(n1, EditsOf(base, n1)) && !CutsTail(n2, EditsOf(base, n2))
    ensures Replacing(EditsOf(base, n1)) && Replacing(EditsOf(base, n2))
  {
    if base != [] || n1 != [] { EditsReplace(base, n1); }
    if base != [] || n2 != [] { EditsReplace(base, n2); }
  }
}

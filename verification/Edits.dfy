/** From the map of equal elements between a base and a version to the edits that
    turn the base into the version. */
module Edits {
  import opened Trees
  import opened Ranges

  // ----- flipping

  /** The ranges increase on both sides from (p, q) on and end by (m, n). */
  ghost predicate Chained(maps: seq<RangeMap>, p: nat, q: nat, m: nat, n: nat)
    decreases |maps|
  {
    if maps == [] then p <= m && q <= n
    else p <= maps[0].lhs.start && q <= maps[0].rhs.start
         && Chained(maps[1..], maps[0].lhs.Upper(), maps[0].rhs.Upper(), m, n)
  }

  /** What lies between (p, q) and (m, n), if anything does. */
  function Gap(p: nat, q: nat, m: nat, n: nat): seq<RangeMap>
    requires p <= m && q <= n
  {
    if p == m && q == n then [] else [RangeMap(IndexRange(p, m - p), IndexRange(q, n - q))]
  }

  /** The gaps before, between and after the given maps, from (p, q) to (m, n). */
  function Gaps(maps: seq<RangeMap>, p: nat, q: nat, m: nat, n: nat): seq<RangeMap>
    requires Chained(maps, p, q, m, n)
    decreases |maps|
  {
    if maps == [] then Gap(p, q, m, n)
    else Gap(p, q, maps[0].lhs.start, maps[0].rhs.start)
         + Gaps(maps[1..], maps[0].lhs.Upper(), maps[0].rhs.Upper(), m, n)
  }

  /** Without any map everything is one gap, even an empty one. */
  function Flipped(maps: seq<RangeMap>, m: nat, n: nat): seq<RangeMap>
    requires Chained(maps, 0, 0, m, n)
  {
    if maps == [] then [RangeMap(IndexRange(0, m), IndexRange(0, n))] else Gaps(maps, 0, 0, m, n)
  }

  method Flip(maps: seq<RangeMap>, lhsNum: nat, rhsNum: nat) returns (flipped: seq<RangeMap>)
    requires Chained(maps, 0, 0, lhsNum, rhsNum)
    ensures flipped == Flipped(maps, lhsNum, rhsNum)
  {
    if |maps| == 0 {
      return [RangeMap(IndexRange(0, lhsNum), IndexRange(0, rhsNum))];
    }
    flipped := [];
    var preLhs: nat, preRhs: nat := 0, 0;
    assert maps[0..] == maps;
    for k := 0 to |maps|
      invariant Chained(maps[k..], preLhs, preRhs, lhsNum, rhsNum)
      invariant Gaps(maps, 0, 0, lhsNum, rhsNum) == flipped + Gaps(maps[k..], preLhs, preRhs, lhsNum, rhsNum)
    {
      assert maps[k..][0] == maps[k] && maps[k..][1..] == maps[k + 1..];
      var lhs, rhs := maps[k].lhs, maps[k].rhs;
      GapsStep(flipped, maps[k..], preLhs, preRhs, lhsNum, rhsNum);
      var preLhsRange := IndexRange(preLhs, lhs.start - preLhs);
      var preRhsRange := IndexRange(preRhs, rhs.start - preRhs);
      if preLhsRange.num != 0 || preRhsRange.num != 0 {
        flipped := flipped + [RangeMap(preLhsRange, preRhsRange)];
      }
      preLhs, preRhs := lhs.Upper(), rhs.Upper();
    }
    var lastLhs, lastRhs := IndexRange(preLhs, lhsNum - preLhs), IndexRange(preRhs, rhsNum - preRhs);
    if lastLhs.num != 0 || lastRhs.num != 0 {
      flipped := flipped + [RangeMap(lastLhs, lastRhs)];
    }
  }

  lemma GapsStep(done: seq<RangeMap>, maps: seq<RangeMap>, p: nat, q: nat, m: nat, n: nat)
    requires Chained(maps, p, q, m, n) && maps != []
    ensures done + Gaps(maps, p, q, m, n)
         == (done + Gap(p, q, maps[0].lhs.start, maps[0].rhs.start))
            + Gaps(maps[1..], maps[0].lhs.Upper(), maps[0].rhs.Upper(), m, n)
  {
  }

  lemma GapsCons(g: RangeMap, rest: seq<RangeMap>, p: nat, q: nat, m: nat, n: nat)
    requires p <= g.lhs.start && q <= g.rhs.start && Chained(rest, g.lhs.Upper(), g.rhs.Upper(), m, n)
    ensures Chained([g] + rest, p, q, m, n)
    ensures Gaps([g] + rest, p, q, m, n)
         == Gap(p, q, g.lhs.start, g.rhs.start) + Gaps(rest, g.lhs.Upper(), g.rhs.Upper(), m, n)
  {
    assert ([g] + rest)[0] == g && ([g] + rest)[1..] == rest;
  }

  lemma {:induction false} OrderedIsChained(maps: seq<RangeMap>, p: nat, q: nat, m: nat, n: nat)
    requires OrderedMaps(maps) && p <= m && q <= n
    requires forall k :: 0 <= k < |maps| ==> maps[k].lhs.Upper() <= m && maps[k].rhs.Upper() <= n
    requires maps != [] ==> p <= maps[0].lhs.start && q <= maps[0].rhs.start
    ensures Chained(maps, p, q, m, n)
    decreases |maps|
  {
    if maps != [] {
      OrderedMapsTail(maps);
      OrderedIsChained(maps[1..], maps[0].lhs.Upper(), maps[0].rhs.Upper(), m, n);
    }
  }

  lemma {:induction false} ChainedBounds(maps: seq<RangeMap>, p: nat, q: nat, m: nat, n: nat)
    requires Chained(maps, p, q, m, n)
    ensures p <= m && q <= n
    decreases |maps|
  {
    if maps != [] {
      ChainedBounds(maps[1..], maps[0].lhs.Upper(), maps[0].rhs.Upper(), m, n);
    }
  }

  lemma ChainedWeaken(maps: seq<RangeMap>, p: nat, q: nat, p': nat, q': nat, m: nat, n: nat)
    requires Chained(maps, p', q', m, n) && p <= p' && q <= q'
    ensures Chained(maps, p, q, m, n)
  {
  }

  lemma {:induction false} GapsChained(maps: seq<RangeMap>, p: nat, q: nat, m: nat, n: nat)
    requires Chained(maps, p, q, m, n)
    ensures Chained(Gaps(maps, p, q, m, n), p, q, m, n)
    decreases |maps|
  {
    if maps != [] {
      var a, b := maps[0].lhs, maps[0].rhs;
      GapsChained(maps[1..], a.Upper(), b.Upper(), m, n);
      var rest := Gaps(maps[1..], a.Upper(), b.Upper(), m, n);
      var first := Gap(p, q, a.start, b.start);
      if first == [] {
        ChainedWeaken(rest, p, q, a.Upper(), b.Upper(), m, n);
        assert first + rest == rest;
      } else {
        ChainedWeaken(rest, a.start, b.start, a.Upper(), b.Upper(), m, n);
        assert (first + rest)[1..] == rest && (first + rest)[0] == first[0];
      }
    }
  }

  lemma GapsTwiceEnd(curr: RangeMap, m: nat, n: nat)
    requires curr.lhs.num > 0 && curr.lhs.Upper() <= m && curr.rhs.Upper() <= n
    ensures var gaps := Gap(curr.lhs.Upper(), curr.rhs.Upper(), m, n);
            && Chained(gaps, curr.lhs.start, curr.rhs.start, m, n)
            && Gaps(gaps, curr.lhs.start, curr.rhs.start, m, n) == [curr]
  {
    var gaps := Gap(curr.lhs.Upper(), curr.rhs.Upper(), m, n);
    if gaps != [] {
      assert gaps == [gaps[0]] + [];
      GapsCons(gaps[0], [], curr.lhs.start, curr.rhs.start, m, n);
    }
  }

  lemma GapsTwiceApart(curr: RangeMap, next: RangeMap, after: seq<RangeMap>, m: nat, n: nat)
    requires curr.lhs.num > 0 && !Contiguous(curr, next)
    requires curr.lhs.Upper() <= next.lhs.start && curr.rhs.Upper() <= next.rhs.start
    requires Chained(after, next.lhs.start, next.rhs.start, m, n)
    ensures var gaps := Gap(curr.lhs.Upper(), curr.rhs.Upper(), next.lhs.start, next.rhs.start) + after;
            && Chained(gaps, curr.lhs.start, curr.rhs.start, m, n)
            && Gaps(gaps, curr.lhs.start, curr.rhs.start, m, n) ==
               [curr] + Gaps(after, next.lhs.start, next.rhs.start, m, n)
  {
    var u, v := curr.lhs.Upper(), curr.rhs.Upper();
    var first := RangeMap(IndexRange(u, next.lhs.start - u), IndexRange(v, next.rhs.start - v));
    assert first.lhs.Upper() == next.lhs.start && first.rhs.Upper() == next.rhs.start;
    GapsCons(first, after, curr.lhs.start, curr.rhs.start, m, n);
  }

  /** The gaps of the gaps of `maps`, after the run `curr`. */
  lemma {:induction false} GapsTwice(curr: RangeMap, maps: seq<RangeMap>, m: nat, n: nat)
    requires curr.lhs.num > 0 && forall k :: 0 <= k < |maps| ==> maps[k].lhs.num > 0
    requires Chained(maps, curr.lhs.Upper(), curr.rhs.Upper(), m, n)
    ensures var gaps := Gaps(maps, curr.lhs.Upper(), curr.rhs.Upper(), m, n);
            && Chained(gaps, curr.lhs.start, curr.rhs.start, m, n)
            && Gaps(gaps, curr.lhs.start, curr.rhs.start, m, n) == CompactRun(curr, maps)
    decreases |maps|
  {
    if maps == [] {
      GapsTwiceEnd(curr, m, n);
    } else {
      var next, rest := maps[0], maps[1..];
      var after := Gaps(rest, next.lhs.Upper(), next.rhs.Upper(), m, n);
      if Contiguous(curr, next) {
        var grown := Merge(curr, next);
        assert grown.lhs.Upper() == next.lhs.Upper() && grown.rhs.Upper() == next.rhs.Upper();
        assert Gaps(maps, curr.lhs.Upper(), curr.rhs.Upper(), m, n) == [] + after == after;
        GapsTwice(grown, rest, m, n);
      } else {
        GapsTwice(next, rest, m, n);
        GapsTwiceApart(curr, next, after, m, n);
      }
    }
  }

  /** Flipping twice compacts the maps. */
  lemma FlipTwice(maps: seq<RangeMap>, m: nat, n: nat)
    requires OrderedMaps(maps) && Chained(maps, 0, 0, m, n)
    ensures Chained(Flipped(maps, m, n), 0, 0, m, n)
    ensures Flipped(Flipped(maps, m, n), m, n) == Compaction(maps)
  {
    GapsChained(maps, 0, 0, m, n);
    if maps == [] {
      var whole := RangeMap(IndexRange(0, m), IndexRange(0, n));
      assert Flipped(maps, m, n) == [whole] + [];
      GapsCons(whole, [], 0, 0, m, n);
    } else {
      ChainedBounds(maps[1..], maps[0].lhs.Upper(), maps[0].rhs.Upper(), m, n);
      var first, rest := maps[0], maps[1..];
      var before, after := Gap(0, 0, first.lhs.start, first.rhs.start),
                           Gaps(rest, first.lhs.Upper(), first.rhs.Upper(), m, n);
      GapsTwice(first, rest, m, n);
      if before == [] {
        assert before + after == after;
      } else {
        assert (before + after)[1..] == after;
      }
    }
  }

  // ----- what flipping yields

  ghost predicate LeftIn(maps: seq<RangeMap>, i: int) {
    exists k :: 0 <= k < |maps| && In(maps[k].lhs, i)
  }

  ghost predicate RightIn(maps: seq<RangeMap>, j: int) {
    exists k :: 0 <= k < |maps| && In(maps[k].rhs, j)
  }

  lemma InConcat(a: seq<RangeMap>, b: seq<RangeMap>, i: int)
    ensures LeftIn(a + b, i) <==> LeftIn(a, i) || LeftIn(b, i)
    ensures RightIn(a + b, i) <==> RightIn(a, i) || RightIn(b, i)
  {
    var c := a + b;
    assert forall k :: 0 <= k < |a| ==> c[k] == a[k];
    assert forall k :: 0 <= k < |b| ==> c[|a| + k] == b[k];
    assert forall k :: |a| <= k < |c| ==> c[k] == b[k - |a|];
  }

  lemma GapCovers(p: nat, q: nat, m: nat, n: nat, i: int)
    requires p <= m && q <= n
    ensures LeftIn(Gap(p, q, m, n), i) <==> p <= i < m
    ensures RightIn(Gap(p, q, m, n), i) <==> q <= i < n
  {
    var g := Gap(p, q, m, n);
    if g != [] {
      assert In(g[0].lhs, i) <==> p <= i < m;
      assert In(g[0].rhs, i) <==> q <= i < n;
    }
  }

  lemma {:induction false} ChainedIn(maps: seq<RangeMap>, p: nat, q: nat, m: nat, n: nat, i: int)
    requires Chained(maps, p, q, m, n)
    ensures LeftIn(maps, i) ==> p <= i < m
    ensures RightIn(maps, i) ==> q <= i < n
    decreases |maps|
  {
    if maps != [] {
      ChainedIn(maps[1..], maps[0].lhs.Upper(), maps[0].rhs.Upper(), m, n, i);
      ChainedBounds(maps[1..], maps[0].lhs.Upper(), maps[0].rhs.Upper(), m, n);
      InConcat([maps[0]], maps[1..], i);
      assert maps == [maps[0]] + maps[1..];
    }
  }

  lemma {:induction false} GapsPartition(maps: seq<RangeMap>, p: nat, q: nat, m: nat, n: nat, i: int)
    requires Chained(maps, p, q, m, n)
    ensures p <= i < m ==> (LeftIn(Gaps(maps, p, q, m, n), i) <==> !LeftIn(maps, i))
    ensures q <= i < n ==> (RightIn(Gaps(maps, p, q, m, n), i) <==> !RightIn(maps, i))
    decreases |maps|
  {
    if maps == [] {
      GapCovers(p, q, m, n, i);
    } else {
      var a, b := maps[0].lhs, maps[0].rhs;
      var first, rest := Gap(p, q, a.start, b.start), Gaps(maps[1..], a.Upper(), b.Upper(), m, n);
      GapsPartition(maps[1..], a.Upper(), b.Upper(), m, n, i);
      GapsChained(maps[1..], a.Upper(), b.Upper(), m, n);
      ChainedIn(maps[1..], a.Upper(), b.Upper(), m, n, i);
      ChainedIn(rest, a.Upper(), b.Upper(), m, n, i);
      GapCovers(p, q, a.start, b.start, i);
      InConcat(first, rest, i);
      InConcat([maps[0]], maps[1..], i);
      assert maps == [maps[0]] + maps[1..] && [maps[0]][0] == maps[0];
      assert LeftIn([maps[0]], i) <==> In(a, i);
      assert RightIn([maps[0]], i) <==> In(b, i);
    }
  }

  /** Maps and flipped maps together partition both index spaces. */
  lemma FlipPartitions(maps: seq<RangeMap>, m: nat, n: nat, i: int)
    requires Chained(maps, 0, 0, m, n)
    ensures 0 <= i < m ==> (LeftIn(Flipped(maps, m, n), i) <==> !LeftIn(maps, i))
    ensures 0 <= i < n ==> (RightIn(Flipped(maps, m, n), i) <==> !RightIn(maps, i))
    ensures !(0 <= i < m) ==> !LeftIn(Flipped(maps, m, n), i) && !LeftIn(maps, i)
    ensures !(0 <= i < n) ==> !RightIn(Flipped(maps, m, n), i) && !RightIn(maps, i)
  {
    GapsPartition(maps, 0, 0, m, n, i);
    GapsChained(maps, 0, 0, m, n);
    ChainedIn(maps, 0, 0, m, n, i);
    ChainedIn(Gaps(maps, 0, 0, m, n), 0, 0, m, n, i);
    if maps == [] {
      assert In(Flipped(maps, m, n)[0].lhs, i) <==> 0 <= i < m;
      assert In(Flipped(maps, m, n)[0].rhs, i) <==> 0 <= i < n;
    }
  }

  // ----- edit scripts

  /** From position `p` of `base` and `q` of `node` on, the two agree except that each
      edit replaces its range of `base` by its range of `node`. */
  ghost predicate Script(base: seq<Entry>, node: seq<Entry>, edits: seq<RangeMap>, p: nat, q: nat)
    decreases |edits|
  {
    if edits == [] then p <= |base| && q <= |node| && base[p..] == node[q..]
    else
      var e := edits[0];
      && p <= e.lhs.start && q <= e.rhs.start && e.lhs.Upper() <= |base| && e.rhs.Upper() <= |node|
      && base[p..e.lhs.start] == node[q..e.rhs.start]
      && Script(base, node, edits[1..], e.lhs.Upper(), e.rhs.Upper())
  }

  /** Successive edits have something unedited between them. */
  ghost predicate Apart(edits: seq<RangeMap>) {
    forall k, l :: 0 <= k < l < |edits| ==>
      edits[k].lhs.Upper() < edits[l].lhs.start && edits[k].rhs.Upper() < edits[l].rhs.start
  }

  /** Every paired index holds the same element on both sides. */
  ghost predicate PairsEqual(base: seq<Entry>, node: seq<Entry>, maps: seq<RangeMap>) {
    forall k :: 0 <= k < |maps| ==>
      && maps[k].lhs.Upper() <= |base| && maps[k].rhs.Upper() <= |node|
      && base[maps[k].lhs.start..maps[k].lhs.Upper()] == node[maps[k].rhs.start..maps[k].rhs.Upper()]
  }

  lemma SliceJoin<T>(s: seq<T>, a: nat, b: nat, c: nat)
    requires a <= b <= c <= |s|
    ensures s[a..c] == s[a..b] + s[b..c]
  {
  }

  /** Equal elements in front of a script belong to its first unedited part. */
  lemma ScriptExtend(base: seq<Entry>, node: seq<Entry>, edits: seq<RangeMap>, p: nat, q: nat, p': nat, q': nat)
    requires p <= p' <= |base| && q <= q' <= |node| && base[p..p'] == node[q..q']
    requires Script(base, node, edits, p', q')
    ensures Script(base, node, edits, p, q)
  {
    if edits == [] {
      SliceJoin(base, p, p', |base|);
      SliceJoin(node, q, q', |node|);
    } else {
      SliceJoin(base, p, p', edits[0].lhs.start);
      SliceJoin(node, q, q', edits[0].rhs.start);
    }
  }

  /** An edit in front of a script that starts where the edit ends. */
  lemma ScriptCons(base: seq<Entry>, node: seq<Entry>, e: RangeMap, rest: seq<RangeMap>, p: nat, q: nat)
    requires p == e.lhs.start && q == e.rhs.start && e.lhs.Upper() <= |base| && e.rhs.Upper() <= |node|
    requires Script(base, node, rest, e.lhs.Upper(), e.rhs.Upper())
    ensures Script(base, node, [e] + rest, p, q)
  {
    assert ([e] + rest)[0] == e && ([e] + rest)[1..] == rest;
  }

  lemma {:induction false} GapsScript(base: seq<Entry>, node: seq<Entry>, maps: seq<RangeMap>, p: nat, q: nat)
    requires Chained(maps, p, q, |base|, |node|) && PairsEqual(base, node, maps)
    ensures Script(base, node, Gaps(maps, p, q, |base|, |node|), p, q)
    decreases |maps|
  {
    if maps == [] {
      var g := Gap(p, q, |base|, |node|);
      if g != [] {
        assert g == [g[0]] + [];
        ScriptCons(base, node, g[0], [], p, q);
      }
    } else {
      var a, b := maps[0].lhs, maps[0].rhs;
      var first, rest := Gap(p, q, a.start, b.start), Gaps(maps[1..], a.Upper(), b.Upper(), |base|, |node|);
      GapsScript(base, node, maps[1..], a.Upper(), b.Upper());
      ScriptExtend(base, node, rest, a.start, b.start, a.Upper(), b.Upper());
      if first == [] {
        assert first + rest == rest;
      } else {
        assert first == [first[0]];
        ScriptCons(base, node, first[0], rest, p, q);
      }
    }
  }

  lemma {:induction false} GapsApart(maps: seq<RangeMap>, p: nat, q: nat, m: nat, n: nat)
    requires Chained(maps, p, q, m, n) && forall k :: 0 <= k < |maps| ==> maps[k].lhs.num == maps[k].rhs.num > 0
    ensures var gaps := Gaps(maps, p, q, m, n);
            Apart(gaps) && forall k :: 0 <= k < |gaps| ==> p <= gaps[k].lhs.start && q <= gaps[k].rhs.start
    decreases |maps|
  {
    if maps != [] {
      var a, b := maps[0].lhs, maps[0].rhs;
      var first, rest := Gap(p, q, a.start, b.start), Gaps(maps[1..], a.Upper(), b.Upper(), m, n);
      GapsApart(maps[1..], a.Upper(), b.Upper(), m, n);
      var gaps := first + rest;
      if first == [] {
        assert gaps == rest;
      } else {
        assert forall k :: 0 < k < |gaps| ==> gaps[k] == rest[k - 1];
      }
    }
  }

  /** The flipped map of a base and a version is a script that rebuilds the version,
      with an unedited element between any two edits. */
  lemma FlipIsScript(base: seq<Entry>, node: seq<Entry>, maps: seq<RangeMap>)
    requires OrderedMaps(maps) && PairsEqual(base, node, maps)
    ensures Chained(maps, 0, 0, |base|, |node|)
    ensures Script(base, node, Flipped(maps, |base|, |node|), 0, 0) && Apart(Flipped(maps, |base|, |node|))
  {
    OrderedIsChained(maps, 0, 0, |base|, |node|);
    if maps == [] {
      assert Flipped(maps, |base|, |node|)[1..] == [];
    } else {
      GapsScript(base, node, maps, 0, 0);
      GapsApart(maps, 0, 0, |base|, |node|);
    }
  }
}

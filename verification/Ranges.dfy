/** Index ranges, range maps and their compaction. */
module Ranges {
  import opened Outcomes

  datatype IndexRange = IndexRange(start: nat, num: nat) {
    function Upper(): nat { start + num }
  }

  /** A range of left indices paired with a range of right indices. */
  datatype RangeMap = RangeMap(lhs: IndexRange, rhs: IndexRange)

  predicate In(r: IndexRange, i: int) {
    r.start <= i < r.Upper()
  }

  ghost predicate Covered(rs: seq<IndexRange>, i: int) {
    exists k :: 0 <= k < |rs| && In(rs[k], i)
  }

  /** Non-empty ranges, each starting no earlier than the one before it ends. */
  ghost predicate Ordered(rs: seq<IndexRange>) {
    && (forall k :: 0 <= k < |rs| ==> rs[k].num > 0)
    && (forall k, l :: 0 <= k < l < |rs| ==> rs[k].Upper() <= rs[l].start)
  }

  /** Ordered ranges of which no two touch: the maximal runs of what they cover. */
  ghost predicate Maximal(rs: seq<IndexRange>) {
    && (forall k :: 0 <= k < |rs| ==> rs[k].num > 0)
    && (forall k, l :: 0 <= k < l < |rs| ==> rs[k].Upper() < rs[l].start)
  }

  predicate Pairs(m: RangeMap, i: int, j: int) {
    In(m.lhs, i) && j - m.rhs.start == i - m.lhs.start
  }

  ghost predicate Paired(ms: seq<RangeMap>, i: int, j: int) {
    exists k :: 0 <= k < |ms| && Pairs(ms[k], i, j)
  }

  /** Non-empty equal-length range pairs, increasing on both sides. */
  ghost predicate OrderedMaps(ms: seq<RangeMap>) {
    && (forall k :: 0 <= k < |ms| ==> ms[k].lhs.num == ms[k].rhs.num > 0)
    && (forall k, l :: 0 <= k < l < |ms| ==>
          ms[k].lhs.Upper() <= ms[l].lhs.start && ms[k].rhs.Upper() <= ms[l].rhs.start)
  }

  predicate Contiguous(m: RangeMap, n: RangeMap) {
    m.lhs.Upper() == n.lhs.start && m.rhs.Upper() == n.rhs.start
  }

  /** Ordered maps of which no two neighbours continue each other on both sides. */
  ghost predicate MaximalMaps(ms: seq<RangeMap>) {
    && OrderedMaps(ms)
    && (forall k :: 0 <= k < |ms| - 1 ==> !Contiguous(ms[k], ms[k + 1]))
  }

  // ----- compaction

  /** What the two fatal checks of the range version demand of its input. */
  ghost predicate Compactable(ranges: seq<IndexRange>) {
    forall k :: 1 <= k < |ranges| ==> Precedes(ranges[k - 1], ranges[k])
  }

  predicate Precedes(r: IndexRange, s: IndexRange) {
    s.num != 0 && r.Upper() <= s.start
  }

  /** `out` is the compaction of the first `k` ranges. */
  ghost predicate Compacted(ranges: seq<IndexRange>, k: nat, out: seq<IndexRange>)
    requires k <= |ranges|
  {
    Maximal(out) && forall i :: Covered(out, i) <==> Covered(ranges[..k], i)
  }

  /** Merges touching ranges; `None` is the fatal exit. */
  method Compact(ranges: seq<IndexRange>) returns (result: Option<seq<IndexRange>>)
    ensures result.Some? <==> Compactable(ranges)
    ensures Ordered(ranges) ==> result.Some? && Maximal(result.value)
    ensures Ordered(ranges) ==> forall i :: Covered(result.value, i) <==> Covered(ranges, i)
  {
    if |ranges| == 0 {
      return Some(ranges);
    }
    var done: seq<IndexRange> := [];
    var curr := ranges[0];
    var preUpper := curr.Upper();
    CompactingStart(ranges);
    for k := 1 to |ranges|
      invariant Compacting(ranges, k, done, curr) && preUpper == curr.Upper()
    {
      if ranges[k].num == 0 {
        Refused(ranges, k);
        return None;
      }
      if preUpper < ranges[k].start {
        CompactingAppend(ranges, k, done, curr);
        done := done + [curr];
        curr := ranges[k];
      } else if preUpper == ranges[k].start {
        CompactingGrow(ranges, k, done, curr);
        curr := curr.(num := curr.num + ranges[k].num);
      } else {
        Refused(ranges, k);
        return None;
      }
      preUpper := ranges[k].Upper();
    }
    CompactingEnd(ranges, done, curr);
    result := Some(done + [curr]);
  }

  /** `done + [curr]` is the compaction of the first `k` ranges, none of them refused. */
  ghost predicate Compacting(ranges: seq<IndexRange>, k: nat, done: seq<IndexRange>, curr: IndexRange) {
    && 1 <= k <= |ranges| && curr.Upper() == ranges[k - 1].Upper()
    && (forall j :: 1 <= j < k ==> Precedes(ranges[j - 1], ranges[j]))
    && (Ordered(ranges) ==> Compacted(ranges, k, done + [curr]))
  }

  lemma CompactingStart(ranges: seq<IndexRange>)
    requires ranges != []
    ensures Compacting(ranges, 1, [], ranges[0])
  {
    assert [] + [ranges[0]] == ranges[..1];
  }

  lemma CompactingAppend(ranges: seq<IndexRange>, k: nat, done: seq<IndexRange>, curr: IndexRange)
    requires Compacting(ranges, k, done, curr) && k < |ranges|
    requires ranges[k].num > 0 && curr.Upper() < ranges[k].start
    ensures Compacting(ranges, k + 1, done + [curr], ranges[k])
  {
    if Ordered(ranges) { CompactedAppend(ranges, k, done + [curr]); }
  }

  lemma CompactingGrow(ranges: seq<IndexRange>, k: nat, done: seq<IndexRange>, curr: IndexRange)
    requires Compacting(ranges, k, done, curr) && k < |ranges|
    requires ranges[k].num > 0 && curr.Upper() == ranges[k].start
    ensures Compacting(ranges, k + 1, done, curr.(num := curr.num + ranges[k].num))
  {
    if Ordered(ranges) { CompactedGrow(ranges, k, done, curr); }
  }

  lemma CompactingEnd(ranges: seq<IndexRange>, done: seq<IndexRange>, curr: IndexRange)
    requires Compacting(ranges, |ranges|, done, curr)
    ensures Compactable(ranges) && (Ordered(ranges) ==> Maximal(done + [curr]))
    ensures Ordered(ranges) ==> forall i :: Covered(done + [curr], i) <==> Covered(ranges, i)
  {
    assert ranges[..|ranges|] == ranges;
  }

  lemma Refused(ranges: seq<IndexRange>, k: nat)
    requires 1 <= k < |ranges| && !Precedes(ranges[k - 1], ranges[k])
    ensures !Compactable(ranges) && !Ordered(ranges)
  {
  }

  lemma CompactedAppend(ranges: seq<IndexRange>, k: nat, out: seq<IndexRange>)
    requires k < |ranges| && ranges[k].num > 0 && Compacted(ranges, k, out)
    requires out != [] && out[|out| - 1].Upper() < ranges[k].start
    ensures Compacted(ranges, k + 1, out + [ranges[k]])
  {
    MaximalAppend(out, ranges[k]);
    CoveredAppend(out, ranges[k]);
    CoveredAppend(ranges[..k], ranges[k]);
    assert ranges[..k + 1] == ranges[..k] + [ranges[k]];
  }

  lemma CompactedGrow(ranges: seq<IndexRange>, k: nat, done: seq<IndexRange>, curr: IndexRange)
    requires k < |ranges| && ranges[k].num > 0 && Compacted(ranges, k, done + [curr])
    requires curr.Upper() == ranges[k].start
    ensures Compacted(ranges, k + 1, done + [curr.(num := curr.num + ranges[k].num)])
  {
    var grown := curr.(num := curr.num + ranges[k].num);
    MaximalGrow(done, curr, grown);
    CoveredAppend(done, curr);
    CoveredAppend(done, grown);
    CoveredAppend(ranges[..k], ranges[k]);
    assert ranges[..k + 1] == ranges[..k] + [ranges[k]];
  }

  lemma MaximalAppend(rs: seq<IndexRange>, r: IndexRange)
    requires Maximal(rs) && r.num > 0 && (rs == [] || rs[|rs| - 1].Upper() < r.start)
    ensures Maximal(rs + [r])
  {
    forall k | 0 <= k < |rs| ensures rs[k].Upper() < r.start {
      assert k < |rs| - 1 ==> rs[k].Upper() < rs[|rs| - 1].start;
    }
  }

  lemma MaximalGrow(rs: seq<IndexRange>, r: IndexRange, r': IndexRange)
    requires Maximal(rs + [r]) && r'.start == r.start && r'.num > 0
    ensures Maximal(rs + [r'])
  {
    forall k | 0 <= k < |rs| ensures rs[k].num > 0 && rs[k].Upper() < r.start {
      assert (rs + [r])[k] == rs[k] && (rs + [r])[|rs|] == r;
    }
    forall k, l | 0 <= k < l < |rs| ensures rs[k].Upper() < rs[l].start {
      assert (rs + [r])[k] == rs[k] && (rs + [r])[l] == rs[l];
    }
  }

  lemma CoveredAppend(rs: seq<IndexRange>, r: IndexRange)
    ensures forall i :: Covered(rs + [r], i) <==> Covered(rs, i) || In(r, i)
  {
    forall i ensures Covered(rs + [r], i) <==> Covered(rs, i) || In(r, i) {
      if Covered(rs, i) {
        var k :| 0 <= k < |rs| && In(rs[k], i);
        assert In((rs + [r])[k], i);
      }
      if In(r, i) {
        assert In((rs + [r])[|rs|], i);
      }
    }
  }

  /** The range-map version stops fatally when a pair steps back on one side or
      touches on one side while overlapping on the other. */
  ghost predicate CompactableMaps(ms: seq<RangeMap>) {
    forall k :: 1 <= k < |ms| ==> Follows(ms[k - 1], ms[k])
  }

  predicate Follows(m: RangeMap, n: RangeMap) {
    m.lhs.Upper() < n.lhs.start || m.rhs.Upper() < n.rhs.start || Contiguous(m, n)
  }

  function Merge(m: RangeMap, n: RangeMap): RangeMap {
    RangeMap(m.lhs.(num := m.lhs.num + n.lhs.num), m.rhs.(num := m.rhs.num + n.rhs.num))
  }

  /** The compaction of `curr` followed by `rest`. */
  function CompactRun(curr: RangeMap, rest: seq<RangeMap>): seq<RangeMap>
    decreases |rest|
  {
    if rest == [] then [curr]
    else if Contiguous(curr, rest[0]) then CompactRun(Merge(curr, rest[0]), rest[1..])
    else [curr] + CompactRun(rest[0], rest[1..])
  }

  function Compaction(ms: seq<RangeMap>): seq<RangeMap> {
    if ms == [] then [] else CompactRun(ms[0], ms[1..])
  }

  method CompactMaps(ms: seq<RangeMap>) returns (result: Option<seq<RangeMap>>)
    ensures result.Some? <==> CompactableMaps(ms)
    ensures result.Some? ==> result.value == Compaction(ms)
  {
    if |ms| == 0 {
      return Some(ms);
    }
    var done: seq<RangeMap> := [];
    var curr := ms[0];
    for k := 1 to |ms|
      invariant forall j :: 1 <= j < k ==> Follows(ms[j - 1], ms[j])
      invariant curr.lhs.Upper() == ms[k - 1].lhs.Upper() && curr.rhs.Upper() == ms[k - 1].rhs.Upper()
      invariant Compaction(ms) == done + CompactRun(curr, ms[k..])
    {
      CompactRunStep(done, curr, ms, k);
      if curr.lhs.Upper() < ms[k].lhs.start || curr.rhs.Upper() < ms[k].rhs.start {
        done := done + [curr];
        curr := ms[k];
      } else if curr.lhs.Upper() == ms[k].lhs.start && curr.rhs.Upper() == ms[k].rhs.start {
        curr := Merge(curr, ms[k]);
      } else {
        assert !Follows(ms[k - 1], ms[k]);
        return None;
      }
    }
    result := Some(done + [curr]);
  }

  lemma CompactRunStep(done: seq<RangeMap>, curr: RangeMap, ms: seq<RangeMap>, k: nat)
    requires k < |ms|
    ensures done + CompactRun(curr, ms[k..]) ==
            if Contiguous(curr, ms[k]) then done + CompactRun(Merge(curr, ms[k]), ms[k + 1..])
            else (done + [curr]) + CompactRun(ms[k], ms[k + 1..])
  {
    assert ms[k..][0] == ms[k] && ms[k..][1..] == ms[k + 1..];
  }

  lemma OrderedMapsTail(ms: seq<RangeMap>)
    requires OrderedMaps(ms) && ms != []
    ensures OrderedMaps(ms[1..])
  {
  }

  lemma MaximalMapsPrepend(m: RangeMap, ms: seq<RangeMap>)
    requires MaximalMaps(ms) && ms != [] && m.lhs.num == m.rhs.num > 0
    requires m.lhs.Upper() <= ms[0].lhs.start && m.rhs.Upper() <= ms[0].rhs.start && !Contiguous(m, ms[0])
    ensures MaximalMaps([m] + ms)
  {
    var all := [m] + ms;
    forall k | 0 < k < |all|
      ensures m.lhs.Upper() <= all[k].lhs.start && m.rhs.Upper() <= all[k].rhs.start
    {
      assert all[k] == ms[k - 1];
      assert k > 1 ==> ms[0].lhs.Upper() <= ms[k - 1].lhs.start && ms[0].rhs.Upper() <= ms[k - 1].rhs.start;
    }
    forall k | 0 <= k < |all| - 1 ensures !Contiguous(all[k], all[k + 1]) {
      if k > 0 {
        assert all[k] == ms[k - 1] && all[k + 1] == ms[k - 1 + 1];
      }
    }
  }

  lemma PairedPrepend(m: RangeMap, ms: seq<RangeMap>, i: int, j: int)
    ensures Paired([m] + ms, i, j) <==> Pairs(m, i, j) || Paired(ms, i, j)
  {
    if Pairs(m, i, j) {
      assert Pairs(([m] + ms)[0], i, j);
    }
    if Paired(ms, i, j) {
      var k :| 0 <= k < |ms| && Pairs(ms[k], i, j);
      assert Pairs(([m] + ms)[k + 1], i, j);
    }
  }

  lemma {:induction false} CompactRunMaximal(curr: RangeMap, rest: seq<RangeMap>)
    requires OrderedMaps(rest) && curr.lhs.num == curr.rhs.num > 0
    requires rest != [] ==> curr.lhs.Upper() <= rest[0].lhs.start && curr.rhs.Upper() <= rest[0].rhs.start
    ensures var out := CompactRun(curr, rest);
            && MaximalMaps(out) && out != []
            && out[0].lhs.start == curr.lhs.start && out[0].rhs.start == curr.rhs.start
    decreases |rest|
  {
    if rest != [] {
      OrderedMapsTail(rest);
      if Contiguous(curr, rest[0]) {
        CompactRunMaximal(Merge(curr, rest[0]), rest[1..]);
      } else {
        CompactRunMaximal(rest[0], rest[1..]);
        MaximalMapsPrepend(curr, CompactRun(rest[0], rest[1..]));
      }
    }
  }

  lemma {:induction false} CompactRunPairs(curr: RangeMap, rest: seq<RangeMap>, i: int, j: int)
    requires curr.lhs.num == curr.rhs.num && forall k :: 0 <= k < |rest| ==> rest[k].lhs.num == rest[k].rhs.num
    ensures Paired(CompactRun(curr, rest), i, j) <==> Pairs(curr, i, j) || Paired(rest, i, j)
    decreases |rest|
  {
    if rest == [] {
      PairedPrepend(curr, [], i, j);
      assert [curr] + [] == [curr];
    } else {
      PairedPrepend(rest[0], rest[1..], i, j);
      assert [rest[0]] + rest[1..] == rest;
      if Contiguous(curr, rest[0]) {
        CompactRunPairs(Merge(curr, rest[0]), rest[1..], i, j);
      } else {
        CompactRunPairs(rest[0], rest[1..], i, j);
        PairedPrepend(curr, CompactRun(rest[0], rest[1..]), i, j);
      }
    }
  }

  /** Compacting equal-length range pairs keeps every pair. */
  lemma CompactionPairs(ms: seq<RangeMap>)
    requires forall k :: 0 <= k < |ms| ==> ms[k].lhs.num == ms[k].rhs.num
    ensures forall i, j :: Paired(Compaction(ms), i, j) <==> Paired(ms, i, j)
  {
    if ms != [] {
      assert [ms[0]] + ms[1..] == ms;
      forall i, j ensures Paired(Compaction(ms), i, j) <==> Paired(ms, i, j) {
        CompactRunPairs(ms[0], ms[1..], i, j);
        PairedPrepend(ms[0], ms[1..], i, j);
      }
    }
  }

  /** Compacting ordered maps never fails, leaves maximal maps and keeps every pair. */
  lemma CompactionMaximal(ms: seq<RangeMap>)
    requires OrderedMaps(ms)
    ensures CompactableMaps(ms) && MaximalMaps(Compaction(ms))
    ensures forall i, j :: Paired(Compaction(ms), i, j) <==> Paired(ms, i, j)
  {
    CompactionPairs(ms);
    if ms != [] {
      OrderedMapsTail(ms);
      CompactRunMaximal(ms[0], ms[1..]);
    }
  }

  // ----- compacted results are canonical

  lemma CoveredTail(rs: seq<IndexRange>, i: int)
    requires Maximal(rs) && rs != []
    ensures Covered(rs[1..], i) <==> Covered(rs, i) && !In(rs[0], i)
  {
    if Covered(rs[1..], i) {
      var k :| 0 <= k < |rs[1..]| && In(rs[1..][k], i);
      assert In(rs[k + 1], i);
    }
    if Covered(rs, i) && !In(rs[0], i) {
      var k :| 0 <= k < |rs| && In(rs[k], i);
      assert In(rs[1..][k - 1], i);
    }
  }

  lemma FirstRangeUnique(rs: seq<IndexRange>, ts: seq<IndexRange>)
    requires Maximal(rs) && Maximal(ts) && rs != [] && ts != []
    requires forall i :: Covered(rs, i) <==> Covered(ts, i)
    ensures rs[0].start >= ts[0].start && (rs[0].start == ts[0].start ==> rs[0].num <= ts[0].num)
  {
    assert In(rs[0], rs[0].start);
    assert Covered(ts, rs[0].start);
    var r, t := rs[0], ts[0];
    assert !Covered(ts, t.Upper());
    assert r.start == t.start && r.num > t.num ==> In(r, t.Upper());
  }

  lemma FirstCovered(ts: seq<IndexRange>)
    requires Maximal(ts) && ts != []
    ensures Covered(ts, ts[0].start)
  {
    assert In(ts[0], ts[0].start);
  }

  /** Maximal ranges are determined by the indices they cover. */
  lemma {:induction false} MaximalUnique(rs: seq<IndexRange>, ts: seq<IndexRange>)
    requires Maximal(rs) && Maximal(ts)
    requires forall i :: Covered(rs, i) <==> Covered(ts, i)
    ensures rs == ts
    decreases |rs|
  {
    if rs == [] {
      if ts != [] {
        FirstCovered(ts);
        assert false;
      }
    } else {
      assert In(rs[0], rs[0].start);
      assert Covered(rs, rs[0].start);
      FirstRangeUnique(rs, ts);
      FirstRangeUnique(ts, rs);
      forall i ensures Covered(rs[1..], i) <==> Covered(ts[1..], i) {
        CoveredTail(rs, i);
        CoveredTail(ts, i);
      }
      MaximalUnique(rs[1..], ts[1..]);
      assert rs == [rs[0]] + rs[1..] && ts == [ts[0]] + ts[1..];
    }
  }

  lemma PairedTail(ms: seq<RangeMap>, i: int, j: int)
    requires OrderedMaps(ms) && ms != []
    ensures Paired(ms[1..], i, j) <==> Paired(ms, i, j) && !Pairs(ms[0], i, j)
  {
    if Paired(ms[1..], i, j) {
      var k :| 0 <= k < |ms[1..]| && Pairs(ms[1..][k], i, j);
      assert Pairs(ms[k + 1], i, j);
    }
    if Paired(ms, i, j) && !Pairs(ms[0], i, j) {
      var k :| 0 <= k < |ms| && Pairs(ms[k], i, j);
      assert Pairs(ms[1..][k - 1], i, j);
    }
  }

  lemma MaximalMapsTail(ms: seq<RangeMap>)
    requires MaximalMaps(ms) && ms != []
    ensures MaximalMaps(ms[1..])
  {
    forall k | 0 <= k < |ms| - 2 ensures !Contiguous(ms[1..][k], ms[1..][k + 1]) {
      assert !Contiguous(ms[k + 1], ms[k + 1 + 1]);
    }
  }

  lemma UpperUnpaired(ns: seq<RangeMap>)
    requires MaximalMaps(ns) && ns != []
    ensures !Paired(ns, ns[0].lhs.Upper(), ns[0].rhs.Upper())
  {
    forall k | 0 <= k < |ns| ensures !Pairs(ns[k], ns[0].lhs.Upper(), ns[0].rhs.Upper()) {
      if k == 1 {
        assert !Contiguous(ns[0], ns[0 + 1]);
      } else if k > 1 {
        assert ns[0].lhs.Upper() <= ns[1].lhs.start < ns[1].lhs.Upper() <= ns[k].lhs.start;
      }
    }
  }

  lemma FirstMapUnique(ms: seq<RangeMap>, ns: seq<RangeMap>)
    requires MaximalMaps(ms) && MaximalMaps(ns) && ms != [] && ns != []
    requires forall i, j :: Paired(ms, i, j) <==> Paired(ns, i, j)
    ensures ms[0].lhs.start >= ns[0].lhs.start
    ensures ms[0].lhs.start == ns[0].lhs.start ==>
              ms[0].rhs.start == ns[0].rhs.start && ms[0].lhs.num <= ns[0].lhs.num
  {
    var m, n := ms[0], ns[0];
    assert Pairs(m, m.lhs.start, m.rhs.start);
    assert Paired(ms, m.lhs.start, m.rhs.start);
    var k :| 0 <= k < |ns| && Pairs(ns[k], m.lhs.start, m.rhs.start);
    assert m.lhs.start == n.lhs.start ==> k == 0;
    UpperUnpaired(ns);
    assert m.lhs.start == n.lhs.start && m.rhs.start == n.rhs.start && m.lhs.num > n.lhs.num ==>
        Pairs(m, n.lhs.Upper(), n.rhs.Upper());
  }

  /** Maximal range maps are determined by the index pairs they hold. */
  lemma {:induction false} MaximalMapsUnique(ms: seq<RangeMap>, ns: seq<RangeMap>)
    requires MaximalMaps(ms) && MaximalMaps(ns)
    requires forall i, j :: Paired(ms, i, j) <==> Paired(ns, i, j)
    ensures ms == ns
    decreases |ms|
  {
    if ms == [] {
      if ns != [] {
        assert Pairs(ns[0], ns[0].lhs.start, ns[0].rhs.start);
        assert Paired(ns, ns[0].lhs.start, ns[0].rhs.start);
      }
    } else {
      assert Pairs(ms[0], ms[0].lhs.start, ms[0].rhs.start);
      assert Paired(ms, ms[0].lhs.start, ms[0].rhs.start);
      FirstMapUnique(ms, ns);
      FirstMapUnique(ns, ms);
      forall i, j ensures Paired(ms[1..], i, j) <==> Paired(ns[1..], i, j) {
        PairedTail(ms, i, j);
        PairedTail(ns, i, j);
      }
      MaximalMapsTail(ms);
      MaximalMapsTail(ns);
      MaximalMapsUnique(ms[1..], ns[1..]);
      assert ms == [ms[0]] + ms[1..] && ns == [ns[0]] + ns[1..];
    }
  }
}

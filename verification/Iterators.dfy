/** Iterating over the elements of index ranges in both directions, and over the
    differences of two trees as one sequence. */
module Iterators {
  import opened Keys
  import opened Trees
  import opened Ranges
  import opened Outcomes

  // ----- elements of ranges

  /** The indices in a range, in order. */
  function Span(r: IndexRange): seq<nat> {
    seq(r.num, i => r.start + i)
  }

  function Indices(ranges: seq<IndexRange>): seq<nat> {
    if ranges == [] then [] else Span(ranges[0]) + Indices(ranges[1..])
  }

  /** How many elements the first `k` ranges have. */
  function Total(ranges: seq<IndexRange>, k: nat): nat
    requires k <= |ranges|
  {
    if k == 0 then 0 else Total(ranges, k - 1) + ranges[k - 1].num
  }

  lemma {:induction false} TotalTail(ranges: seq<IndexRange>, k: nat)
    requires 0 < k <= |ranges|
    ensures Total(ranges, k) == ranges[0].num + Total(ranges[1..], k - 1)
  {
    if k > 1 {
      TotalTail(ranges, k - 1);
    }
  }

  lemma {:induction false} IndicesLength(ranges: seq<IndexRange>)
    ensures |Indices(ranges)| == Total(ranges, |ranges|)
  {
    if ranges != [] {
      IndicesLength(ranges[1..]);
      TotalTail(ranges, |ranges|);
    }
  }

  /** The i-th element of the k-th range. */
  lemma {:induction false} IndexAt(ranges: seq<IndexRange>, k: nat, i: nat)
    requires k < |ranges| && i < ranges[k].num
    ensures Total(ranges, k) + i < |Indices(ranges)|
    ensures Indices(ranges)[Total(ranges, k) + i] == ranges[k].start + i
    decreases |ranges|
  {
    if k > 0 {
      IndexAt(ranges[1..], k - 1, i);
      TotalTail(ranges, k);
    }
  }

  ghost predicate InOrder(ranges: seq<IndexRange>, n: nat) {
    && (forall k :: 0 <= k < |ranges| ==> ranges[k].num > 0 && ranges[k].Upper() <= n)
    && (forall k, l :: 0 <= k < l < |ranges| ==> ranges[k].Upper() <= ranges[l].start)
  }

  lemma {:induction false} IndicesInOrder(ranges: seq<IndexRange>, n: nat)
    requires InOrder(ranges, n)
    ensures forall p :: 0 <= p < |Indices(ranges)| ==> Indices(ranges)[p] < n
    ensures ranges != [] ==> forall p :: 0 <= p < |Indices(ranges)| ==> ranges[0].start <= Indices(ranges)[p]
    ensures forall p, q :: 0 <= p < q < |Indices(ranges)| ==> Indices(ranges)[p] < Indices(ranges)[q]
  {
    if ranges != [] {
      IndicesInOrder(ranges[1..], n);
    }
  }

  /** The keys of the elements in the ranges. */
  function KeysOf(kt: KeyTrait, elements: seq<Entry>, ranges: seq<IndexRange>): (ks: seq<OrderedKey>)
    requires InOrder(ranges, |elements|)
    ensures |ks| == |Indices(ranges)|
    ensures forall p :: 0 <= p < |ks| ==>
      Indices(ranges)[p] < |elements| && ks[p] == KeyAt(kt, elements, Indices(ranges)[p])
  {
    IndicesInOrder(ranges, |elements|);
    seq(|Indices(ranges)|, p requires 0 <= p < |Indices(ranges)| => KeyAt(kt, elements, Indices(ranges)[p]))
  }

  lemma KeysIncrease(kt: KeyTrait, elements: seq<Entry>, ranges: seq<IndexRange>)
    requires InOrder(ranges, |elements|) && Sorted(kt, elements)
    ensures Increasing(KeysOf(kt, elements, ranges))
  {
    IndicesInOrder(ranges, |elements|);
  }

  /** Walks over the elements in some index ranges of a tree. The node cursor is a
      position in the tree's elements, one before or after the ranges at either end. */
  class CursorIterator {
    const elements: seq<Entry>
    const ranges: seq<IndexRange>
    var rangeIdx: int
    var idxInRange: nat
    var cursor: int

    predicate Head() reads this { rangeIdx == -1 }

    predicate End() reads this { rangeIdx == |ranges| }

    ghost predicate Fixed() { InOrder(ranges, |elements|) }

    ghost predicate Valid()
      reads this
    {
      && -1 <= rangeIdx <= |ranges|
      && (Head() || End() ==> idxInRange == 0)
      && (!Head() && !End() ==> idxInRange < ranges[rangeIdx].num && cursor == ranges[rangeIdx].start + idxInRange)
      && (ranges != [] && Head() ==> cursor == ranges[0].start - 1)
      && (ranges != [] && End() ==> cursor == ranges[|ranges| - 1].Upper())
    }

    /** The place among all elements of the ranges: -1 at the head. */
    ghost function Pos(): (p: int)
      requires Valid()
      reads this
    {
      if Head() then -1 else Total(ranges, rangeIdx) + idxInRange
    }

    constructor (elements: seq<Entry>, ranges: seq<IndexRange>)
      requires InOrder(ranges, |elements|)
      ensures Fixed() && Valid() && this.elements == elements && this.ranges == ranges && Pos() == 0
    {
      this.elements := elements;
      this.ranges := ranges;
      rangeIdx, idxInRange := 0, 0;
      cursor := if |ranges| > 0 then ranges[0].start else 0;
    }

    /** Where the place is, and what the node cursor points to. */
    lemma PosBounds()
      requires Fixed() && Valid()
      ensures -1 <= Pos() <= |Indices(ranges)|
      ensures Head() <==> Pos() == -1
      ensures End() <==> Pos() == |Indices(ranges)|
      ensures !Head() && !End() ==> Indices(ranges)[Pos()] == cursor && 0 <= cursor < |elements|
    {
      IndicesLength(ranges);
      if !Head() && !End() {
        IndexAt(ranges, rangeIdx, idxInRange);
      }
    }

    /** The key of the current element. */
    function Key(kt: KeyTrait): (k: OrderedKey)
      requires Fixed() && Valid() && !Head() && !End()
      reads this
      ensures 0 <= Pos() < |Indices(ranges)| && k == KeysOf(kt, elements, ranges)[Pos()]
    {
      PosBounds();
      KeyAt(kt, elements, cursor)
    }

    /** One place on, and not beyond the end. */
    method Next() returns (r: bool)
      requires Fixed() && Valid()
      modifies this
      ensures Valid() && Pos() == if old(End()) then old(Pos()) else old(Pos()) + 1
      ensures r == !End()
    {
      if End() {
        return false;
      }
      if |ranges| == 0 {
        idxInRange, rangeIdx := 0, 0;
        return false;
      }
      if Head() {
        idxInRange, rangeIdx := 0, 0;
        cursor := cursor + 1;
        return true;
      }
      idxInRange := idxInRange + 1;
      var len := ranges[rangeIdx].num;
      if idxInRange < len {
        cursor := cursor + 1;
      } else {
        idxInRange, rangeIdx := 0, rangeIdx + 1;
        if rangeIdx < |ranges| {
          var steps := ranges[rangeIdx].start - (ranges[rangeIdx - 1].Upper() - 1);
          cursor := cursor + steps;
        } else {
          cursor := cursor + 1;
        }
      }
      return !End();
    }

    /** One place back, and not before the head. */
    method Previous() returns (r: bool)
      requires Fixed() && Valid()
      modifies this
      ensures Valid() && Pos() == if old(Head()) then old(Pos()) else old(Pos()) - 1
      ensures r == !Head()
    {
      if Head() {
        return false;
      }
      if |ranges| == 0 {
        rangeIdx, idxInRange := -1, 0;
        return false;
      }
      if End() {
        rangeIdx := |ranges| - 1;
        idxInRange := ranges[rangeIdx].num - 1;
        cursor := cursor - 1;
        return true;
      }
      if idxInRange > 0 {
        idxInRange := idxInRange - 1;
        cursor := cursor - 1;
      } else {
        rangeIdx := rangeIdx - 1;
        if rangeIdx >= 0 {
          var steps := ranges[rangeIdx + 1].start - (ranges[rangeIdx].Upper() - 1);
          idxInRange := ranges[rangeIdx].num - 1;
          cursor := cursor - steps;
        } else {
          cursor := cursor - 1;
        }
      }
      return !Head();
    }
  }

  // ----- the sorted union of two key sequences

  ghost predicate Increasing(ks: seq<OrderedKey>) {
    forall i, j :: 0 <= i < j < |ks| ==> Less(ks[i], ks[j])
  }

  function Union(a: seq<OrderedKey>, b: seq<OrderedKey>): seq<OrderedKey>
    decreases |a| + |b|
  {
    if a == [] then b
    else if b == [] then a
    else if a[0] == b[0] then [a[0]] + Union(a[1..], b[1..])
    else if Less(a[0], b[0]) then [a[0]] + Union(a[1..], b)
    else [b[0]] + Union(a, b[1..])
  }

  lemma {:induction false} UnionHolds(a: seq<OrderedKey>, b: seq<OrderedKey>)
    ensures forall k :: k in Union(a, b) <==> k in a || k in b
    decreases |a| + |b|
  {
    if a != [] && b != [] {
      assert a == [a[0]] + a[1..] && b == [b[0]] + b[1..];
      if a[0] == b[0] {
        UnionHolds(a[1..], b[1..]);
      } else if Less(a[0], b[0]) {
        UnionHolds(a[1..], b);
      } else {
        UnionHolds(a, b[1..]);
      }
    }
  }

  lemma FirstIsLeast(a: seq<OrderedKey>, k: OrderedKey)
    requires Increasing(a) && k in a
    ensures AtMost(a[0], k)
  {
  }

  lemma ConsIncreasing(k: OrderedKey, rest: seq<OrderedKey>)
    requires Increasing(rest) && forall x :: x in rest ==> Less(k, x)
    ensures Increasing([k] + rest)
  {
  }

  lemma {:induction false} UnionIncreasing(a: seq<OrderedKey>, b: seq<OrderedKey>)
    requires Increasing(a) && Increasing(b)
    ensures Increasing(Union(a, b))
    decreases |a| + |b|
  {
    if a != [] && b != [] {
      Trichotomy(a[0], b[0]);
      var k := if Less(b[0], a[0]) then b[0] else a[0];
      var a', b' := if k == a[0] then a[1..] else a, if k == b[0] then b[1..] else b;
      UnionIncreasing(a', b');
      UnionHolds(a', b');
      forall x | x in Union(a', b') ensures Less(k, x) {
        NextIsGreater(a, k, x);
        NextIsGreater(b, k, x);
      }
      ConsIncreasing(k, Union(a', b'));
    }
  }

  /** Past its first element, if that is `k`, a sequence that starts with `k` or more has
      only greater elements. */
  lemma NextIsGreater(a: seq<OrderedKey>, k: OrderedKey, x: OrderedKey)
    requires Increasing(a) && a != [] && AtMost(k, a[0])
    ensures x in (if k == a[0] then a[1..] else a) ==> Less(k, x)
  {
    if k == a[0] {
      if x in a[1..] {
        var i :| 0 < i < |a| && a[i] == x;
      }
    } else if x in a {
      FirstIsLeast(a, x);
      if x != a[0] {
        Transitive(k, a[0], x);
      }
    }
  }

  /** How many of the first `n` keys of `u` are in `a`. */
  ghost function CountIn(a: seq<OrderedKey>, u: seq<OrderedKey>, n: nat): nat
    requires n <= |u|
  {
    if n == 0 then 0 else CountIn(a, u, n - 1) + if u[n - 1] in a then 1 else 0
  }

  /** The first `c` keys of `a` are those among the first `n` of `u`. */
  ghost predicate Splits(a: seq<OrderedKey>, u: seq<OrderedKey>, n: nat, c: nat)
    requires n <= |u|
  {
    && c <= |a| && (forall i :: 0 <= i < c ==> a[i] in u[..n])
    && (forall i :: c <= i < |a| ==> a[i] in u[n..])
  }

  lemma SplitsOrder(a: seq<OrderedKey>, u: seq<OrderedKey>, n: nat, c: nat)
    requires Increasing(a) && Increasing(u) && n < |u| && Splits(a, u, n, c)
    ensures forall i :: 0 <= i < c ==> Less(a[i], u[n])
    ensures forall i :: c <= i < |a| ==> AtMost(u[n], a[i])
    ensures u[n] in a ==> c < |a| && a[c] == u[n]
    ensures u[n] !in a && c < |a| ==> Less(u[n], a[c])
  {
    forall i | c <= i < |a| ensures AtMost(u[n], a[i]) {
      var k :| n <= k < |u| && u[k] == a[i];
    }
    if u[n] in a {
      var i :| 0 <= i < |a| && a[i] == u[n];
      Trichotomy(u[n], u[n]);
      if c < i {
        Trichotomy(a[c], a[i]);
      }
    }
  }

  lemma SplitsNext(a: seq<OrderedKey>, u: seq<OrderedKey>, n: nat, c: nat)
    requires Increasing(a) && Increasing(u) && n < |u| && Splits(a, u, n, c)
    ensures Splits(a, u, n + 1, if u[n] in a then c + 1 else c)
  {
    SplitsOrder(a, u, n, c);
    assert u[..n + 1] == u[..n] + [u[n]];
    var next := if u[n] in a then c + 1 else c;
    forall i | next <= i < |a| ensures a[i] in u[n + 1..] {
      LaterKey(a, u, n, c, i);
    }
  }

  lemma LaterKey(a: seq<OrderedKey>, u: seq<OrderedKey>, n: nat, c: nat, i: nat)
    requires Increasing(a) && n < |u| && c <= i < |a| && a[i] in u[n..]
    requires u[n] in a ==> c < i && a[c] == u[n]
    ensures a[i] in u[n + 1..]
  {
    if a[i] == u[n] {
      Trichotomy(a[c], a[i]);
    }
    var k :| n <= k < |u| && u[k] == a[i];
    assert u[n + 1..][k - n - 1] == a[i];
  }

  lemma {:induction false} CountSplits(a: seq<OrderedKey>, u: seq<OrderedKey>, n: nat)
    requires Increasing(a) && Increasing(u) && n <= |u| && forall k :: k in a ==> k in u
    ensures Splits(a, u, n, CountIn(a, u, n))
  {
    if n > 0 {
      CountSplits(a, u, n - 1);
      SplitsNext(a, u, n - 1, CountIn(a, u, n - 1));
    } else {
      assert u[0..] == u;
    }
  }

  /** `u` is the sorted union of `a` and `b`. */
  ghost predicate IsUnion(u: seq<OrderedKey>, a: seq<OrderedKey>, b: seq<OrderedKey>) {
    && Increasing(a) && Increasing(b) && Increasing(u)
    && forall k :: k in u <==> k in a || k in b
  }

  // ----- which sides hold the current key

  /** -1, 1 or 0 if the n-th key of the union is in the first, in the second or in both
      sequences; 0 before the first and after the last key. */
  ghost function FlagAt(a: seq<OrderedKey>, b: seq<OrderedKey>, u: seq<OrderedKey>, n: int): int {
    if n < 0 || n >= |u| then 0
    else if u[n] in a && u[n] in b then 0
    else if u[n] in a then -1
    else 1
  }

  ghost predicate Places(a: seq<OrderedKey>, i: int) {
    -1 <= i <= |a|
  }

  /** The written comparison of two iterators at places `i` and `j`. */
  function FlagOf(a: seq<OrderedKey>, b: seq<OrderedKey>, i: int, j: int, greaterValid: bool): int
    requires Places(a, i) && Places(b, j)
  {
    if (i == -1 && j == -1) || (i == |a| && j == |b|) then 0
    else if i == -1 || i == |a| then 1
    else if j == -1 || j == |b| then -1
    else if Less(a[i], b[j]) then (if greaterValid then 1 else -1)
    else if a[i] == b[j] then 0
    else (if greaterValid then -1 else 1)
  }

  /** Moving forward, each side stands at its first key that is not before the current
      one. */
  ghost predicate Forward(a: seq<OrderedKey>, u: seq<OrderedKey>, n: int, i: int) {
    0 <= n <= |u| && i == CountIn(a, u, n)
  }

  /** Moving backward, each side stands at its last key that is not after the current
      one. */
  ghost predicate Backward(a: seq<OrderedKey>, u: seq<OrderedKey>, n: int, i: int) {
    -1 <= n < |u| && i == CountIn(a, u, n + 1) - 1
  }

  lemma Sides(a: seq<OrderedKey>, b: seq<OrderedKey>, u: seq<OrderedKey>, n: nat)
    requires IsUnion(u, a, b) && n <= |u|
    ensures n < |u| ==> u[n] in a || u[n] in b
    ensures Splits(a, u, n, CountIn(a, u, n)) && Splits(b, u, n, CountIn(b, u, n))
  {
    CountSplits(a, u, n);
    CountSplits(b, u, n);
    assert n < |u| ==> u[n] in u;
  }

  lemma ForwardFlag(a: seq<OrderedKey>, b: seq<OrderedKey>, u: seq<OrderedKey>, n: int, i: int, j: int)
    requires IsUnion(u, a, b) && Forward(a, u, n, i) && Forward(b, u, n, j)
    ensures Places(a, i) && Places(b, j) && FlagOf(a, b, i, j, false) == FlagAt(a, b, u, n)
    ensures i == |a| && j == |b| <==> n == |u|
  {
    Sides(a, b, u, n);
    if n < |u| {
      SplitsOrder(a, u, n, i);
      SplitsOrder(b, u, n, j);
      if i < |a| && j < |b| {
        Trichotomy(a[i], b[j]);
      }
    }
  }

  lemma BackwardFlag(a: seq<OrderedKey>, b: seq<OrderedKey>, u: seq<OrderedKey>, n: int, i: int, j: int)
    requires IsUnion(u, a, b) && Backward(a, u, n, i) && Backward(b, u, n, j)
    ensures Places(a, i) && Places(b, j) && FlagOf(a, b, i, j, true) == FlagAt(a, b, u, n)
    ensures i == -1 && j == -1 <==> n == -1
  {
    if n >= 0 {
      Sides(a, b, u, n);
      Sides(a, b, u, n + 1);
      SplitsOrder(a, u, n, CountIn(a, u, n));
      SplitsOrder(b, u, n, CountIn(b, u, n));
      if i >= 0 && j >= 0 {
        Trichotomy(a[i], b[j]);
      }
    }
  }

  /** Which side moves to turn from backward to forward. */
  lemma TurnsForward(a: seq<OrderedKey>, b: seq<OrderedKey>, u: seq<OrderedKey>, n: int, i: int, j: int)
    requires IsUnion(u, a, b) && Backward(a, u, n, i) && Backward(b, u, n, j)
    ensures i < |a| && j < |b| && (n == -1 ==> i == j == -1)
    ensures var flag := FlagAt(a, b, u, n);
      n >= 0 ==> && Forward(a, u, n, if flag == 1 then i + 1 else i)
                 && Forward(b, u, n, if flag == -1 then j + 1 else j)
  {
    Sides(a, b, u, n + 1);
    if n >= 0 {
      Sides(a, b, u, n);
    }
  }

  lemma TurnsBackward(a: seq<OrderedKey>, b: seq<OrderedKey>, u: seq<OrderedKey>, n: int, i: int, j: int)
    requires IsUnion(u, a, b) && Forward(a, u, n, i) && Forward(b, u, n, j)
    ensures i >= 0 && j >= 0 && (n == |u| ==> i == |a| && j == |b|)
    ensures var flag := FlagAt(a, b, u, n);
      n < |u| ==> && Backward(a, u, n, if flag == 1 then i - 1 else i)
                  && Backward(b, u, n, if flag == -1 then j - 1 else j)
  {
    ForwardFlag(a, b, u, n, i, j);
    Sides(a, b, u, n);
  }

  /** Which sides move to go one key on. */
  lemma StepsForward(a: seq<OrderedKey>, b: seq<OrderedKey>, u: seq<OrderedKey>, n: int, i: int, j: int)
    requires IsUnion(u, a, b) && Forward(a, u, n, i) && Forward(b, u, n, j)
    ensures i == |a| && j == |b| <==> n == |u|
    ensures var flag := FlagAt(a, b, u, n);
      n < |u| ==>
        && (flag <= 0 ==> i < |a|) && Forward(a, u, n + 1, if flag <= 0 then i + 1 else i)
        && (flag >= 0 ==> j < |b|) && Forward(b, u, n + 1, if flag >= 0 then j + 1 else j)
  {
    ForwardFlag(a, b, u, n, i, j);
    Sides(a, b, u, n);
    if n < |u| {
      SplitsOrder(a, u, n, i);
      SplitsOrder(b, u, n, j);
    }
  }

  lemma StepsBackward(a: seq<OrderedKey>, b: seq<OrderedKey>, u: seq<OrderedKey>, n: int, i: int, j: int)
    requires IsUnion(u, a, b) && Backward(a, u, n, i) && Backward(b, u, n, j)
    ensures i == -1 && j == -1 <==> n == -1
    ensures i < |a| && j < |b|
    ensures var flag := FlagAt(a, b, u, n);
      n >= 0 ==>
        && (flag <= 0 ==> i >= 0) && Backward(a, u, n - 1, if flag <= 0 then i - 1 else i)
        && (flag >= 0 ==> j >= 0) && Backward(b, u, n - 1, if flag >= 0 then j - 1 else j)
  {
    BackwardFlag(a, b, u, n, i, j);
    Sides(a, b, u, n + 1);
    if n >= 0 {
      Sides(a, b, u, n);
    }
  }

  lemma LastBackward(a: seq<OrderedKey>, b: seq<OrderedKey>, u: seq<OrderedKey>)
    requires IsUnion(u, a, b)
    ensures Backward(a, u, |u| - 1, |a| - 1) && Backward(b, u, |u| - 1, |b| - 1)
  {
    ForwardFlag(a, b, u, |u|, CountIn(a, u, |u|), CountIn(b, u, |u|));
    assert |u| - 1 + 1 == |u|;
  }

  /** What holds of the places of both sides, moving either way: the sides that the flag
      names stand at the current key; beside the keys both stand at one end. */
  ghost predicate Placed(a: seq<OrderedKey>, b: seq<OrderedKey>, u: seq<OrderedKey>, n: int, i: int, j: int) {
    var flag := FlagAt(a, b, u, n);
    if 0 <= n < |u| then
      && (flag <= 0 <==> u[n] in a) && (flag >= 0 <==> u[n] in b)
      && (flag <= 0 ==> 0 <= i < |a| && a[i] == u[n]) && (flag >= 0 ==> 0 <= j < |b| && b[j] == u[n])
    else (i == -1 && j == -1) || (i == |a| && j == |b|)
  }

  lemma PlacedForward(a: seq<OrderedKey>, b: seq<OrderedKey>, u: seq<OrderedKey>, n: int, i: int, j: int)
    requires IsUnion(u, a, b) && Forward(a, u, n, i) && Forward(b, u, n, j)
    ensures Placed(a, b, u, n, i, j)
  {
    ForwardFlag(a, b, u, n, i, j);
    Sides(a, b, u, n);
    if n < |u| {
      SplitsOrder(a, u, n, i);
      SplitsOrder(b, u, n, j);
    }
  }

  lemma PlacedBackward(a: seq<OrderedKey>, b: seq<OrderedKey>, u: seq<OrderedKey>, n: int, i: int, j: int)
    requires IsUnion(u, a, b) && Backward(a, u, n, i) && Backward(b, u, n, j)
    ensures Placed(a, b, u, n, i, j)
  {
    if n >= 0 {
      TurnsForward(a, b, u, n, i, j);
      var flag := FlagAt(a, b, u, n);
      PlacedForward(a, b, u, n, if flag == 1 then i + 1 else i, if flag == -1 then j + 1 else j);
    }
  }

  /** Iterates over the keys of two iterators as one: a single cursor, at `place`, over the
      sorted union of both key sequences. */
  class DuallyDiffIterator {
    const kt: KeyTrait
    const lhs: CursorIterator
    const rhs: CursorIterator
    ghost const lhsKeys: seq<OrderedKey>
    ghost const rhsKeys: seq<OrderedKey>
    ghost const keys: seq<OrderedKey>
    var flag: int
    var justAdvanced: bool
    ghost var place: int

    ghost predicate Keyed() {
      && lhs != rhs && lhs.Fixed() && rhs.Fixed() && IsUnion(keys, lhsKeys, rhsKeys)
      && |lhsKeys| == |Indices(lhs.ranges)| && |rhsKeys| == |Indices(rhs.ranges)|
    }

    ghost predicate Sources() {
      && Keyed()
      && lhsKeys == KeysOf(kt, lhs.elements, lhs.ranges) && rhsKeys == KeysOf(kt, rhs.elements, rhs.ranges)
    }

    ghost predicate MovingOn()
      reads this, lhs, rhs
    {
      && lhs.Valid() && rhs.Valid() && justAdvanced
      && Forward(lhsKeys, keys, place, lhs.Pos()) && Forward(rhsKeys, keys, place, rhs.Pos())
    }

    ghost predicate MovingBack()
      reads this, lhs, rhs
    {
      && lhs.Valid() && rhs.Valid() && !justAdvanced
      && Backward(lhsKeys, keys, place, lhs.Pos()) && Backward(rhsKeys, keys, place, rhs.Pos())
    }

    ghost predicate Valid()
      reads this, lhs, rhs
    {
      Sources() && (MovingOn() || MovingBack()) && flag == FlagAt(lhsKeys, rhsKeys, keys, place)
    }

    predicate Head() reads lhs, rhs { lhs.Head() && rhs.Head() }

    predicate End() reads lhs, rhs { lhs.End() && rhs.End() }

    /** Sets the flag by comparing the two current keys. */
    method UpdateFlag(greaterValid: bool)
      requires Sources() && (if greaterValid then MovingBack() else MovingOn())
      modifies this`flag
      ensures flag == FlagAt(lhsKeys, rhsKeys, keys, place)
    {
      lhs.PosBounds();
      rhs.PosBounds();
      if greaterValid {
        BackwardFlag(lhsKeys, rhsKeys, keys, place, lhs.Pos(), rhs.Pos());
      } else {
        ForwardFlag(lhsKeys, rhsKeys, keys, place, lhs.Pos(), rhs.Pos());
      }
      if Head() || End() {
        flag := 0;
      } else if lhs.Head() || lhs.End() {
        flag := 1;
      } else if rhs.Head() || rhs.End() {
        flag := -1;
      } else if Less(lhs.Key(kt), rhs.Key(kt)) {
        flag := if greaterValid then 1 else -1;
      } else if lhs.Key(kt) == rhs.Key(kt) {
        flag := 0;
      } else {
        flag := if greaterValid then -1 else 1;
      }
    }

    constructor (kt: KeyTrait, lhs: CursorIterator, rhs: CursorIterator)
      requires lhs != rhs && lhs.Fixed() && rhs.Fixed() && lhs.Valid() && rhs.Valid() && lhs.Head() && rhs.Head()
      requires Sorted(kt, lhs.elements) && Sorted(kt, rhs.elements)
      modifies lhs, rhs
      ensures Valid() && place == 0
      ensures this.kt == kt && this.lhs == lhs && this.rhs == rhs
    {
      this.kt := kt;
      this.lhs := lhs;
      this.rhs := rhs;
      justAdvanced := true;
      place := 0;
      ghost var a, b := KeysOf(kt, lhs.elements, lhs.ranges), KeysOf(kt, rhs.elements, rhs.ranges);
      lhsKeys, rhsKeys, keys := a, b, Union(a, b);
      KeysIncrease(kt, lhs.elements, lhs.ranges);
      KeysIncrease(kt, rhs.elements, rhs.ranges);
      UnionHolds(a, b);
      UnionIncreasing(a, b);
      new;
      MoveOn(true, true);
      UpdateFlag(false);
    }

    method MoveOn(left: bool, right: bool)
      requires lhs != rhs && lhs.Fixed() && rhs.Fixed() && lhs.Valid() && rhs.Valid()
      requires (left ==> !lhs.End()) && (right ==> !rhs.End())
      modifies lhs, rhs
      ensures lhs.Valid() && lhs.Pos() == old(lhs.Pos()) + if left then 1 else 0
      ensures rhs.Valid() && rhs.Pos() == old(rhs.Pos()) + if right then 1 else 0
    {
      if left {
        var _ := lhs.Next();
      }
      if right {
        var _ := rhs.Next();
      }
    }

    method MoveBack(left: bool, right: bool)
      requires lhs != rhs && lhs.Fixed() && rhs.Fixed() && lhs.Valid() && rhs.Valid()
      requires (left ==> !lhs.Head()) && (right ==> !rhs.Head())
      modifies lhs, rhs
      ensures lhs.Valid() && lhs.Pos() == old(lhs.Pos()) - if left then 1 else 0
      ensures rhs.Valid() && rhs.Pos() == old(rhs.Pos()) - if right then 1 else 0
    {
      if left {
        var _ := lhs.Previous();
      }
      if right {
        var _ := rhs.Previous();
      }
    }

    /** Both sides before the first key. */
    ghost predicate BeforeFirst()
      reads this, lhs, rhs
    {
      lhs.Valid() && rhs.Valid() && place == lhs.Pos() == rhs.Pos() == -1
    }

    /** Both sides after the last key. */
    ghost predicate AfterLast()
      reads this, lhs, rhs
    {
      lhs.Valid() && rhs.Valid() && place == |keys| && lhs.Pos() == |lhsKeys| && rhs.Pos() == |rhsKeys|
    }

    /** Both sides, as they have to stand to move forward. */
    method TurnForward()
      requires Keyed() && MovingBack() && flag == FlagAt(lhsKeys, rhsKeys, keys, place)
      modifies this`justAdvanced, lhs, rhs
      ensures justAdvanced && if place == -1 then BeforeFirst() else MovingOn()
    {
      lhs.PosBounds();
      rhs.PosBounds();
      TurnsForward(lhsKeys, rhsKeys, keys, place, lhs.Pos(), rhs.Pos());
      justAdvanced := true;
      MoveOn(flag == 1, flag == -1);
    }

    /** Both sides, as they have to stand to move backward. */
    method TurnBackward()
      requires Keyed() && MovingOn() && flag == FlagAt(lhsKeys, rhsKeys, keys, place)
      modifies this`justAdvanced, lhs, rhs
      ensures !justAdvanced && if place == |keys| then AfterLast() else MovingBack()
    {
      lhs.PosBounds();
      rhs.PosBounds();
      TurnsBackward(lhsKeys, rhsKeys, keys, place, lhs.Pos(), rhs.Pos());
      justAdvanced := false;
      MoveBack(flag == 1, flag == -1);
    }

    /** Unless at the end, the sides that hold the current key can move to the next. */
    lemma CanAdvance()
      requires Keyed() && MovingOn() && flag == FlagAt(lhsKeys, rhsKeys, keys, place)
      ensures End() <==> place == |keys|
      ensures !End() ==>
        && (flag <= 0 ==> !lhs.End()) && (flag >= 0 ==> !rhs.End())
        && Forward(lhsKeys, keys, place + 1, lhs.Pos() + if flag <= 0 then 1 else 0)
        && Forward(rhsKeys, keys, place + 1, rhs.Pos() + if flag >= 0 then 1 else 0)
    {
      lhs.PosBounds();
      rhs.PosBounds();
      StepsForward(lhsKeys, rhsKeys, keys, place, lhs.Pos(), rhs.Pos());
    }

    /** Unless at the head, the sides that hold the current key can move to the one before. */
    lemma CanRetreat()
      requires Keyed() && MovingBack() && flag == FlagAt(lhsKeys, rhsKeys, keys, place)
      ensures Head() <==> place == -1
      ensures !Head() ==>
        && (flag <= 0 ==> !lhs.Head()) && (flag >= 0 ==> !rhs.Head())
        && Backward(lhsKeys, keys, place - 1, lhs.Pos() - if flag <= 0 then 1 else 0)
        && Backward(rhsKeys, keys, place - 1, rhs.Pos() - if flag >= 0 then 1 else 0)
    {
      lhs.PosBounds();
      rhs.PosBounds();
      StepsBackward(lhsKeys, rhsKeys, keys, place, lhs.Pos(), rhs.Pos());
    }

    /** Moves the sides that hold the current key, forward. */
    method Advance()
      requires Keyed() && MovingOn() && flag == FlagAt(lhsKeys, rhsKeys, keys, place)
      modifies this`place, lhs, rhs
      ensures MovingOn() && place == if old(place) == |keys| then old(place) else old(place) + 1
    {
      CanAdvance();
      if !End() {
        MoveOn(flag <= 0, flag >= 0);
        place := place + 1;
      }
    }

    /** Moves the sides that hold the current key, backward. */
    method Retreat()
      requires Keyed() && MovingBack() && flag == FlagAt(lhsKeys, rhsKeys, keys, place)
      modifies this`place, lhs, rhs
      ensures MovingBack() && place == if old(place) == -1 then old(place) else old(place) - 1
    {
      CanRetreat();
      if !Head() {
        MoveBack(flag <= 0, flag >= 0);
        place := place - 1;
      }
    }

    method AdvanceFromHead()
      requires Keyed() && BeforeFirst() && justAdvanced
      modifies this`place, lhs, rhs
      ensures MovingOn() && place == 0
    {
      lhs.PosBounds();
      rhs.PosBounds();
      MoveOn(true, true);
      place := 0;
    }

    method RetreatFromEnd()
      requires Keyed() && AfterLast() && !justAdvanced
      modifies this`place, lhs, rhs
      ensures MovingBack() && place == old(place) - 1
    {
      lhs.PosBounds();
      rhs.PosBounds();
      LastBackward(lhsKeys, rhsKeys, keys);
      MoveBack(true, true);
      place := place - 1;
    }

    /** What the ends of both sides say about the place. */
    lemma AtEnds()
      requires Keyed() && (MovingOn() || MovingBack() || BeforeFirst() || AfterLast())
      ensures Head() <==> place == -1
      ensures End() <==> place == |keys|
    {
      lhs.PosBounds();
      rhs.PosBounds();
      if MovingOn() {
        StepsForward(lhsKeys, rhsKeys, keys, place, lhs.Pos(), rhs.Pos());
      } else if MovingBack() {
        StepsBackward(lhsKeys, rhsKeys, keys, place, lhs.Pos(), rhs.Pos());
      }
    }

    method StepOn()
      requires Keyed() && justAdvanced && flag == FlagAt(lhsKeys, rhsKeys, keys, place)
      requires if place == -1 then BeforeFirst() else MovingOn()
      modifies this`place, lhs, rhs
      ensures MovingOn() && place == if old(place) == |keys| then old(place) else old(place) + 1
    {
      AtEnds();
      if Head() {
        AdvanceFromHead();
      } else {
        Advance();
      }
    }

    method StepBack()
      requires Keyed() && !justAdvanced && flag == FlagAt(lhsKeys, rhsKeys, keys, place)
      requires if place == |keys| then AfterLast() else MovingBack()
      modifies this`place, lhs, rhs
      ensures MovingBack() && place == if old(place) == -1 then old(place) else old(place) - 1
    {
      AtEnds();
      if End() {
        RetreatFromEnd();
      } else {
        Retreat();
      }
    }

    method FaceForward()
      requires Valid()
      modifies this`justAdvanced, lhs, rhs
      ensures justAdvanced && if place == -1 then BeforeFirst() else MovingOn()
    {
      if !justAdvanced {
        TurnForward();
      } else {
        AtEnds();
        lhs.PosBounds();
        rhs.PosBounds();
      }
    }

    method FaceBackward()
      requires Valid()
      modifies this`justAdvanced, lhs, rhs
      ensures !justAdvanced && if place == |keys| then AfterLast() else MovingBack()
    {
      if justAdvanced {
        TurnBackward();
      } else {
        AtEnds();
        lhs.PosBounds();
        rhs.PosBounds();
      }
    }

    /** One key on, and not beyond the end. */
    method Next() returns (r: bool)
      requires Valid()
      modifies this, lhs, rhs
      ensures Valid() && place == if old(place) == |keys| then old(place) else old(place) + 1
      ensures r == (place < |keys|)
    {
      FaceForward();
      StepOn();
      UpdateFlag(false);
      AtEnds();
      return !End();
    }

    /** One key back, and not before the head. */
    method Previous() returns (r: bool)
      requires Valid()
      modifies this, lhs, rhs
      ensures Valid() && place == if old(place) == -1 then old(place) else old(place) - 1
      ensures r == (place > -1)
    {
      FaceBackward();
      StepBack();
      UpdateFlag(true);
      AtEnds();
      return !Head();
    }

    /** Whether a side that the flag names stands at an element. */
    lemma SidesStand()
      requires Valid()
      ensures flag == -1 || flag == 0 || flag == 1
      ensures flag <= 0 ==> (!lhs.Head() && !lhs.End() <==> 0 <= place < |keys|)
      ensures flag >= 0 ==> (!rhs.Head() && !rhs.End() <==> 0 <= place < |keys|)
      ensures 0 <= place < |keys| ==>
        && (flag <= 0 <==> keys[place] in lhsKeys) && (flag >= 0 <==> keys[place] in rhsKeys)
        && (flag <= 0 ==> 0 <= lhs.Pos() < |lhsKeys| && lhsKeys[lhs.Pos()] == keys[place])
        && (flag >= 0 ==> 0 <= rhs.Pos() < |rhsKeys| && rhsKeys[rhs.Pos()] == keys[place])
    {
      lhs.PosBounds();
      rhs.PosBounds();
      if justAdvanced {
        PlacedForward(lhsKeys, rhsKeys, keys, place, lhs.Pos(), rhs.Pos());
      } else {
        PlacedBackward(lhsKeys, rhsKeys, keys, place, lhs.Pos(), rhs.Pos());
      }
    }

    /** The current key; `None` is the fatal check before the first and after the last. */
    method Key() returns (k: Option<OrderedKey>)
      requires Valid()
      ensures k == if 0 <= place < |keys| then Some(keys[place]) else None
    {
      SidesStand();
      if flag <= 0 {
        if lhs.Head() || lhs.End() {
          return None;
        }
        return Some(lhs.Key(kt));
      } else {
        if rhs.Head() || rhs.End() {
          return None;
        }
        return Some(rhs.Key(kt));
      }
    }

    /** What the left side holds under the current key: nothing if it lacks the key. */
    method LhsValue() returns (v: Option<seq<Byte>>)
      requires Valid()
      ensures v.Some? <==> 0 <= place < |keys|
      ensures 0 <= place < |keys| && keys[place] !in lhsKeys ==> v == Some([])
      ensures 0 <= place < |keys| && keys[place] in lhsKeys ==>
        exists p :: 0 <= p < |lhsKeys| && lhsKeys[p] == keys[place]
          && v == Some(lhs.elements[Indices(lhs.ranges)[p]].data)
    {
      SidesStand();
      if flag <= 0 {
        if lhs.Head() || lhs.End() {
          return None;
        }
        lhs.PosBounds();
        v := Some(lhs.elements[lhs.cursor].data);
        assert lhsKeys[lhs.Pos()] == keys[place];
      } else {
        v := Some([]);
      }
    }

    method RhsValue() returns (v: Option<seq<Byte>>)
      requires Valid()
      ensures v.Some? <==> 0 <= place < |keys|
      ensures 0 <= place < |keys| && keys[place] !in rhsKeys ==> v == Some([])
      ensures 0 <= place < |keys| && keys[place] in rhsKeys ==>
        exists p :: 0 <= p < |rhsKeys| && rhsKeys[p] == keys[place]
          && v == Some(rhs.elements[Indices(rhs.ranges)[p]].data)
    {
      SidesStand();
      if flag >= 0 {
        if rhs.Head() || rhs.End() {
          return None;
        }
        rhs.PosBounds();
        v := Some(rhs.elements[rhs.cursor].data);
        assert rhsKeys[rhs.Pos()] == keys[place];
      } else {
        v := Some([]);
      }
    }
  }
}

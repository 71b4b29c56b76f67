/** Reading the elements of an index range out of a tree, leaf by leaf. */
module Segments {
  import opened Trees
  import opened Ranges
  import opened Splices
  import opened Outcomes
  import opened Sequences

  function Leaves(t: Tree): seq<seq<Entry>>
    decreases t, 0
  {
    match t
    case Leaf(entries) => [entries]
    case Meta(cs) => LeavesAll(cs)
  }

  function LeavesAll(cs: seq<MetaEntry>): seq<seq<Entry>>
    decreases cs, 0
  {
    if cs == [] then [] else Leaves(cs[0].node) + LeavesAll(cs[1..])
  }

  lemma {:induction false} LeavesFlatten(t: Tree)
    ensures Concat(Leaves(t)) == Flatten(t)
    decreases t, 0
  {
    match t
    case Leaf(entries) => assert [entries][1..] == [];
    case Meta(cs) => LeavesAllFlatten(cs);
  }

  lemma {:induction false} LeavesAllFlatten(cs: seq<MetaEntry>)
    ensures Concat(LeavesAll(cs)) == FlattenAll(cs)
    decreases cs, 0
  {
    if cs != [] {
      LeavesFlatten(cs[0].node);
      LeavesAllFlatten(cs[1..]);
      ConcatAppend(Leaves(cs[0].node), LeavesAll(cs[1..]));
    }
  }

  lemma {:induction false} LeavesSome(kt: KeyTrait, t: Tree)
    requires WellFormed(kt, t)
    ensures Leaves(t) != []
    decreases t
  {
    if t.Meta? {
      LeavesSome(kt, t.children[0].node);
    }
  }

  lemma {:induction false} LeavesFull(kt: KeyTrait, t: Tree)
    requires WellFormed(kt, t) && Flatten(t) != []
    ensures forall k :: 0 <= k < |Leaves(t)| ==> Leaves(t)[k] != []
    decreases t, 0
  {
    if t.Meta? {
      LeavesAllFull(kt, t.children);
    }
  }

  lemma {:induction false} LeavesAllFull(kt: KeyTrait, cs: seq<MetaEntry>)
    requires forall i :: 0 <= i < |cs| ==> Caches(kt, cs[i]) && WellFormed(kt, cs[i].node)
    ensures forall k :: 0 <= k < |LeavesAll(cs)| ==> LeavesAll(cs)[k] != []
    decreases cs, 0
  {
    if cs != [] {
      LeavesFull(kt, cs[0].node);
      LeavesAllFull(kt, cs[1..]);
    }
  }

  /** `done` elements from `start` on have been read, and the cursor stands at position
      `p` of leaf `k`. */
  ghost predicate Reading(s: seq<Entry>, leaves: seq<seq<Entry>>, start: nat, done: nat, k: nat, p: nat,
                          found: seq<seq<Entry>>) {
    && k < |leaves| && p <= |leaves[k]| && start + done <= |s|
    && s[start + done..] == leaves[k][p..] + Concat(leaves[k + 1..])
    && Concat(found) == s[start..start + done]
  }

  lemma ReadPart(s: seq<Entry>, leaves: seq<seq<Entry>>, start: nat, done: nat, k: nat, p: nat,
                 found: seq<seq<Entry>>, n: nat)
    requires Reading(s, leaves, start, done, k, p, found) && p + n <= |leaves[k]|
    ensures start + done + n <= |s|
    ensures Concat(found + [leaves[k][p..p + n]]) == s[start..start + done + n]
    ensures s[start + done + n..] == leaves[k][p + n..] + Concat(leaves[k + 1..])
  {
    var leaf, after := leaves[k], Concat(leaves[k + 1..]);
    ConcatSnoc(found, leaf[p..p + n]);
    TakeSlice(s, start + done, leaf, p, after, n);
    assert s[start..start + done] + s[start + done..start + done + n] == s[start..start + done + n];
  }

  lemma TakeSlice(s: seq<Entry>, i: nat, leaf: seq<Entry>, p: nat, after: seq<Entry>, n: nat)
    requires i <= |s| && p + n <= |leaf| && s[i..] == leaf[p..] + after
    ensures i + n <= |s| && s[i..i + n] == leaf[p..p + n] && s[i + n..] == leaf[p + n..] + after
  {
    var tail := s[i..];
    assert |tail| == |s| - i;
    assert s[i..i + n] == tail[..n] && s[i + n..] == tail[n..];
    assert leaf[p..][..n] == leaf[p..p + n] && leaf[p..][n..] == leaf[p + n..];
  }

  lemma ReadLeaf(s: seq<Entry>, leaves: seq<seq<Entry>>, start: nat, done: nat, k: nat, p: nat,
                 found: seq<seq<Entry>>, n: nat)
    requires Reading(s, leaves, start, done, k, p, found) && p + n == |leaves[k]| && start + done + n < |s|
    ensures Reading(s, leaves, start, done + n, k + 1, 0, found + [leaves[k][p..p + n]])
  {
    ReadPart(s, leaves, start, done, k, p, found, n);
    assert leaves[k][p + n..] == [] && leaves[k + 1..] != [];
    assert leaves[k + 1..][0] == leaves[k + 1] && leaves[k + 1..][1..] == leaves[k + 1 + 1..];
    assert leaves[k + 1][0..] == leaves[k + 1];
  }

  /** Reads a segment of each leaf in turn, from position `p0` of leaf `k0` on. */
  method ReadSegments(leaves: seq<seq<Entry>>, k0: nat, p0: nat, range: IndexRange, ghost s: seq<Entry>)
    returns (found: seq<seq<Entry>>)
    requires range.Upper() <= |s| && (forall j :: 0 <= j < |leaves| ==> leaves[j] != [])
    requires Reading(s, leaves, range.start, 0, k0, p0, []) && p0 < |leaves[k0]|
    ensures Concat(found) == s[range.start..range.Upper()]
  {
    found := [];
    var k: nat, p: nat, accumulated: nat := k0, p0, 0;
    while true
      invariant accumulated <= range.num && Reading(s, leaves, range.start, accumulated, k, p, found)
      invariant p < |leaves[k]|
      decreases range.num - accumulated
    {
      var leafRemaining := |leaves[k]| - p;
      var remaining := range.num - accumulated;
      if leafRemaining < remaining {
        ReadLeaf(s, leaves, range.start, accumulated, k, p, found, leafRemaining);
        found := found + [leaves[k][p..p + leafRemaining]];
        accumulated := accumulated + leafRemaining;
        k, p := k + 1, 0;
      } else {
        ReadPart(s, leaves, range.start, accumulated, k, p, found, remaining);
        found := found + [leaves[k][p..p + remaining]];
        return;
      }
    }
  }

  /** `None` is the fatal exit: a leaf hands out a segment, even an empty one, only
      from one of its elements on, so a range at the very end of the tree is refused.
      Otherwise the segments are the elements of the range in order. */
  method GetSegmentsFromIndexRange(t: Tree, range: IndexRange) returns (segs: Option<seq<seq<Entry>>>)
    requires WellFormed(ByKey, t) && range.Upper() <= |Flatten(t)|
    ensures segs.None? <==> range.start == |Flatten(t)|
    ensures segs.Some? ==> Concat(segs.value) == Flatten(t)[range.start..range.Upper()]
  {
    LeavesSome(ByKey, t);
    LeavesFlatten(t);
    var leaves := Leaves(t);
    Located(leaves, range.start);
    var at := Locate(leaves, range.start);
    if at.idx == |leaves[at.chunk]| {
      return None;
    }
    LeavesFull(ByKey, t);
    assert Concat([]) == Flatten(t)[range.start..range.start + 0];
    var found := ReadSegments(leaves, at.chunk, at.idx, range, Flatten(t));
    return Some(found);
  }
}

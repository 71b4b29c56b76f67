/** Sequences of sequences. */
module Sequences {
  function Concat<T>(parts: seq<seq<T>>): seq<T> {
    if parts == [] then [] else parts[0] + Concat(parts[1..])
  }

  lemma {:induction false} ConcatAppend<T>(a: seq<seq<T>>, b: seq<seq<T>>)
    ensures Concat(a + b) == Concat(a) + Concat(b)
    decreases |a|
  {
    if a == [] {
      assert a + b == b;
    } else {
      assert (a + b)[1..] == a[1..] + b;
      ConcatAppend(a[1..], b);
    }
  }

  lemma ConcatSnoc<T>(a: seq<seq<T>>, x: seq<T>)
    ensures Concat(a + [x]) == Concat(a) + x
  {
    ConcatAppend(a, [x]);
    assert [x][1..] == [];
  }

  lemma ConcatOne<T>(x: seq<T>)
    ensures Concat([x]) == x
  {
    assert [x][1..] == [] && x + [] == x;
  }

  lemma PlusAssociates<T>(a: seq<T>, b: seq<T>, c: seq<T>)
    ensures (a + b) + c == a + (b + c)
  {
  }

  // ----- positions

  /** A part and an index in it; one past the last index only at the end. */
  datatype Cursor = Cursor(chunk: nat, idx: nat)

  ghost predicate At<T>(parts: seq<seq<T>>, cur: Cursor) {
    && cur.chunk < |parts| && cur.idx <= |parts[cur.chunk]|
    && (cur.idx == |parts[cur.chunk]| ==> cur.chunk == |parts| - 1)
  }

  function Rest<T>(parts: seq<seq<T>>, cur: Cursor): seq<T>
    requires At(parts, cur)
  {
    parts[cur.chunk][cur.idx..] + Concat(parts[cur.chunk + 1..])
  }

  function Before<T>(parts: seq<seq<T>>, cur: Cursor): seq<T>
    requires At(parts, cur)
  {
    Concat(parts[..cur.chunk]) + parts[cur.chunk][..cur.idx]
  }

  /** The part of the i-th item, and the item's index in it; the end lies in the last part. */
  function Locate<T>(parts: seq<seq<T>>, i: nat): (at: Cursor)
    requires parts != [] && i <= |Concat(parts)|
    ensures at.chunk < |parts|
    decreases |parts|
  {
    if |parts| == 1 || i < |parts[0]| then Cursor(0, i)
    else
      var at := Locate(parts[1..], i - |parts[0]|);
      Cursor(at.chunk + 1, at.idx)
  }

  ghost predicate StandsAt<T>(parts: seq<seq<T>>, i: nat, at: Cursor) {
    && At(parts, at) && i <= |Concat(parts)|
    && Before(parts, at) == Concat(parts)[..i] && Rest(parts, at) == Concat(parts)[i..]
  }

  lemma StandsBehind<T>(parts: seq<seq<T>>, i: nat, deeper: Cursor)
    requires parts != [] && |parts[0]| <= i && StandsAt(parts[1..], i - |parts[0]|, deeper)
    ensures StandsAt(parts, i, Cursor(deeper.chunk + 1, deeper.idx))
  {
    var c, head, tail := deeper.chunk, parts[0], parts[1..];
    assert parts[..c + 1][1..] == tail[..c] && parts[c + 1 + 1..] == tail[c + 1..] && tail[c] == parts[c + 1];
    SlicePlus(head, Concat(tail), i);
    assert parts[..c + 1][0] == head;
    PlusAssociates(head, Concat(tail[..c]), tail[c][..deeper.idx]);
  }

  lemma SlicePlus<T>(a: seq<T>, b: seq<T>, n: nat)
    requires |a| <= n <= |a| + |b|
    ensures (a + b)[..n] == a + b[..n - |a|] && (a + b)[n..] == b[n - |a|..]
  {
  }

  lemma {:induction false} Located<T>(parts: seq<seq<T>>, i: nat)
    requires parts != [] && i <= |Concat(parts)|
    ensures StandsAt(parts, i, Locate(parts, i))
    decreases |parts|
  {
    var head, tail := parts[0], parts[1..];
    if |parts| == 1 || i < |head| {
      assert |parts| == 1 ==> tail == [];
      assert parts[..0] == [];
    } else {
      Located(tail, i - |head|);
      StandsBehind(parts, i, Locate(tail, i - |head|));
    }
  }
}

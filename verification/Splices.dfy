/** Splicing several replacements into one sequence in a single transaction. */
module Splices {
  import opened Trees
  import opened Ranges
  import opened Edits
  import opened Sequences

  /** The elements [start, start + num) of the base give way to `content`. */
  datatype Splice = Splice(start: nat, num: nat, content: seq<Entry>) {
    function Upper(): nat { start + num }
  }

  // ----- simultaneous splicing, in coordinates of the base

  /** Disjoint operands in increasing order, from `p` on and within `n`. */
  ghost predicate InOrder(ops: seq<Splice>, p: nat, n: nat)
    decreases |ops|
  {
    if ops == [] then p <= n else p <= ops[0].start && InOrder(ops[1..], ops[0].Upper(), n)
  }

  function End(ops: seq<Splice>, p: nat): nat {
    if ops == [] then p else ops[|ops| - 1].Upper()
  }

  /** What replaces `base` from `p` up to the end of the last operand. */
  function Out(base: seq<Entry>, ops: seq<Splice>, p: nat): seq<Entry>
    requires InOrder(ops, p, |base|)
    decreases |ops|
  {
    if ops == [] then []
    else
      InOrderBounds(ops, p, |base|);
      base[p..ops[0].start] + ops[0].content + Out(base, ops[1..], ops[0].Upper())
  }

  function Spliced(base: seq<Entry>, ops: seq<Splice>, p: nat): seq<Entry>
    requires InOrder(ops, p, |base|)
  {
    InOrderBounds(ops, p, |base|);
    Out(base, ops, p) + base[End(ops, p)..]
  }

  lemma SplicedCons(base: seq<Entry>, o: Splice, rest: seq<Splice>, p: nat)
    requires p <= o.start && InOrder(rest, o.Upper(), |base|)
    ensures o.Upper() <= |base| && InOrder([o] + rest, p, |base|)
    ensures Spliced(base, [o] + rest, p) == base[p..o.start] + o.content + Spliced(base, rest, o.Upper())
  {
    var ops := [o] + rest;
    assert ops[0] == o && ops[1..] == rest;
    assert rest != [] ==> ops[|ops| - 1] == rest[|rest| - 1];
    InOrderBounds(rest, o.Upper(), |base|);
  }

  lemma {:induction false} InOrderBounds(ops: seq<Splice>, p: nat, n: nat)
    requires InOrder(ops, p, n)
    ensures p <= End(ops, p) <= n
    ensures forall k :: 0 <= k < |ops| ==> p <= ops[k].start && ops[k].Upper() <= End(ops, p)
    decreases |ops|
  {
    if ops != [] {
      InOrderBounds(ops[1..], ops[0].Upper(), n);
      assert |ops| > 1 ==> ops[1..][|ops| - 2] == ops[|ops| - 1];
    }
  }

  lemma {:induction false} InOrderAppend(ops: seq<Splice>, p: nat, n: nat, o: Splice)
    requires InOrder(ops, p, n) && End(ops, p) <= o.start && o.Upper() <= n
    ensures InOrder(ops + [o], p, n)
    decreases |ops|
  {
    if ops == [] {
      assert ops + [o] == [o] && [o][1..] == [];
    } else {
      assert (ops + [o])[1..] == ops[1..] + [o];
      assert |ops| > 1 ==> ops[1..][|ops| - 2] == ops[|ops| - 1];
      InOrderAppend(ops[1..], ops[0].Upper(), n, o);
    }
  }

  lemma {:induction false} OutAppend(base: seq<Entry>, ops: seq<Splice>, p: nat, o: Splice)
    requires InOrder(ops, p, |base|) && End(ops, p) <= o.start && o.Upper() <= |base|
    ensures InOrder(ops + [o], p, |base|)
    ensures Out(base, ops + [o], p) == Out(base, ops, p) + base[End(ops, p)..o.start] + o.content
    decreases |ops|
  {
    InOrderAppend(ops, p, |base|, o);
    if ops == [] {
      assert ops + [o] == [o] && [o][1..] == [];
    } else {
      var first, rest := ops[0], ops[1..];
      assert (ops + [o])[1..] == rest + [o] && (ops + [o])[0] == first;
      assert |ops| > 1 ==> rest[|rest| - 1] == ops[|ops| - 1];
      OutAppend(base, rest, first.Upper(), o);
      InOrderBounds(ops, p, |base|);
      PlusFour(base[p..first.start] + first.content, Out(base, rest, first.Upper()), base[End(ops, p)..o.start],
               o.content);
    }
  }

  lemma PlusFour(a: seq<Entry>, b: seq<Entry>, c: seq<Entry>, d: seq<Entry>)
    ensures a + (b + c + d) == a + b + c + d
  {
  }

  lemma {:induction false} InOrderPrefix(ops: seq<Splice>, p: nat, n: nat)
    requires InOrder(ops, p, n) && ops != []
    ensures InOrder(ops[..|ops| - 1], p, n)
    ensures End(ops[..|ops| - 1], p) <= ops[|ops| - 1].start && ops[|ops| - 1].Upper() <= n
    decreases |ops|
  {
    InOrderBounds(ops, p, n);
    if |ops| > 1 {
      InOrderPrefix(ops[1..], ops[0].Upper(), n);
      assert ops[1..][..|ops| - 2] == ops[..|ops| - 1][1..];
      assert |ops| > 2 ==> ops[..|ops| - 1][|ops| - 2] == ops[1..][|ops| - 3];
    }
  }

  /** The output up to `End` depends only on the base up to there. */
  lemma {:induction false} OutLocal(base: seq<Entry>, base': seq<Entry>, ops: seq<Splice>, p: nat)
    requires InOrder(ops, p, |base|) && End(ops, p) <= |base| && End(ops, p) <= |base'|
    requires base[..End(ops, p)] == base'[..End(ops, p)]
    ensures InOrder(ops, p, |base'|) && Out(base, ops, p) == Out(base', ops, p)
    decreases |ops|
  {
    InOrderBounds(ops, p, |base|);
    if ops != [] {
      assert |ops| > 1 ==> ops[1..][|ops| - 2] == ops[|ops| - 1];
      OutLocal(base, base', ops[1..], ops[0].Upper());
      SameSlice(base, base', End(ops, p), p, ops[0].start);
    }
  }

  lemma SameSlice(base: seq<Entry>, base': seq<Entry>, n: nat, p: nat, q: nat)
    requires p <= q <= n <= |base| && n <= |base'| && base[..n] == base'[..n]
    ensures base[p..q] == base'[p..q]
  {
    assert base[p..q] == base[..n][p..q] && base'[p..q] == base'[..n][p..q];
  }

  // ----- replaying an edit script

  function SpliceOf(e: RangeMap, node: seq<Entry>): Splice
    requires e.rhs.Upper() <= |node|
  {
    Splice(e.lhs.start, e.lhs.num, node[e.rhs.start..e.rhs.Upper()])
  }

  function SplicesOf(edits: seq<RangeMap>, node: seq<Entry>): seq<Splice>
    requires forall k :: 0 <= k < |edits| ==> edits[k].rhs.Upper() <= |node|
  {
    if edits == [] then [] else [SpliceOf(edits[0], node)] + SplicesOf(edits[1..], node)
  }

  lemma {:induction false} ScriptBounds(base: seq<Entry>, node: seq<Entry>, edits: seq<RangeMap>, p: nat, q: nat)
    requires Script(base, node, edits, p, q)
    ensures p <= |base| && q <= |node|
    ensures forall k :: 0 <= k < |edits| ==> edits[k].lhs.Upper() <= |base| && edits[k].rhs.Upper() <= |node|
    decreases |edits|
  {
    if edits != [] {
      ScriptBounds(base, node, edits[1..], edits[0].lhs.Upper(), edits[0].rhs.Upper());
    }
  }

  lemma SliceThree(s: seq<Entry>, a: nat, b: nat, c: nat)
    requires a <= b <= c <= |s|
    ensures s[a..] == s[a..b] + s[b..c] + s[c..]
  {
  }

  /** Splicing the edits of a script into the base rebuilds the version. */
  lemma {:induction false} ScriptReplays(base: seq<Entry>, node: seq<Entry>, edits: seq<RangeMap>, p: nat, q: nat)
    requires Script(base, node, edits, p, q)
    requires forall k :: 0 <= k < |edits| ==> edits[k].rhs.Upper() <= |node|
    ensures p <= |base| && q <= |node|
    ensures InOrder(SplicesOf(edits, node), p, |base|)
    ensures Spliced(base, SplicesOf(edits, node), p) == node[q..]
    decreases |edits|
  {
    ScriptBounds(base, node, edits, p, q);
    if edits != [] {
      var e := edits[0];
      ScriptReplays(base, node, edits[1..], e.lhs.Upper(), e.rhs.Upper());
      SplicedCons(base, SpliceOf(e, node), SplicesOf(edits[1..], node), p);
      assert SplicesOf(edits, node) == [SpliceOf(e, node)] + SplicesOf(edits[1..], node);
      SliceThree(node, q, e.rhs.start, e.rhs.Upper());
    }
  }

  // ----- the builder

  function LowerBound(ops: seq<Splice>, pos: nat): (k: nat)
    ensures k <= |ops| && (forall j :: 0 <= j < k ==> ops[j].start < pos)
    ensures k < |ops| ==> ops[k].start >= pos
    decreases |ops|
  {
    if ops == [] || ops[0].start >= pos then 0 else 1 + LowerBound(ops[1..], pos)
  }

  function UpperBound(ops: seq<Splice>, pos: nat): (k: nat)
    ensures k <= |ops| && (forall j :: 0 <= j < k ==> ops[j].Upper() <= pos)
    ensures k < |ops| ==> pos < ops[k].Upper()
    decreases |ops|
  {
    if ops == [] || pos < ops[0].Upper() then 0 else 1 + UpperBound(ops[1..], pos)
  }

  /** Operands in increasing order of which no two insert at one position. */
  ghost predicate Disjoint(ops: seq<Splice>, n: nat) {
    && (forall k :: 0 <= k < |ops| ==> ops[k].Upper() <= n)
    && (forall k, l :: 0 <= k < l < |ops| ==> Clear(ops[k], ops[l]))
  }

  lemma {:induction false} DisjointInOrder(ops: seq<Splice>, p: nat, n: nat)
    requires Disjoint(ops, n) && p <= n && (ops != [] ==> p <= ops[0].start)
    ensures InOrder(ops, p, n)
    decreases |ops|
  {
    if ops != [] {
      DisjointInOrder(ops[1..], ops[0].Upper(), n);
    }
  }

  /** `o` inserts where an operand already inserts. */
  predicate Joins(ops: seq<Splice>, o: Splice) {
    var k := LowerBound(ops, o.Upper());
    k < |ops| && ops[k].num == 0 && o.num == 0 && ops[k].start == o.start
  }

  /** The operands with `o` among them, behind an insertion at the same position. */
  function Place(ops: seq<Splice>, o: Splice): seq<Splice> {
    var k := LowerBound(ops, o.Upper());
    if Joins(ops, o) then ops[k := o.(content := ops[k].content + o.content)]
    else ops[..k] + [o] + ops[k..]
  }

  ghost predicate Overlaps(ops: seq<Splice>, o: Splice) {
    exists k :: 0 <= k < |ops| && ops[k].start < o.Upper() && o.start < ops[k].Upper()
  }

  lemma Beyond(ops: seq<Splice>, n: nat, o: Splice, k: nat)
    requires Disjoint(ops, n) && k < |ops|
    ensures LowerBound(ops, o.Upper()) <= k ==> ops[k].start >= o.Upper()
    ensures UpperBound(ops, o.start) <= k ==> o.start < ops[k].Upper()
  {
    var head, tail := UpperBound(ops, o.start), LowerBound(ops, o.Upper());
    if tail < k {
      assert Clear(ops[tail], ops[k]);
    }
    if head < k {
      assert Clear(ops[head], ops[k]);
    }
  }

  lemma HeadPastTail(ops: seq<Splice>, n: nat, o: Splice)
    requires Disjoint(ops, n) && LowerBound(ops, o.Upper()) < UpperBound(ops, o.start)
    ensures Joins(ops, o) && UpperBound(ops, o.start) == LowerBound(ops, o.Upper()) + 1
  {
    var head, tail := UpperBound(ops, o.start), LowerBound(ops, o.Upper());
    assert ops[tail].start >= o.Upper() && ops[tail].Upper() <= o.start;
    if tail + 1 < head {
      Beyond(ops, n, o, tail + 1);
    }
  }

  /** How the two searches of the builder stand to each other. */
  lemma Bounds(ops: seq<Splice>, n: nat, o: Splice)
    requires Disjoint(ops, n)
    ensures var head, tail := UpperBound(ops, o.start), LowerBound(ops, o.Upper());
      && (Overlaps(ops, o) <==> head < tail)
      && (Joins(ops, o) ==> head == tail + 1)
      && (!Overlaps(ops, o) && !Joins(ops, o) ==> head == tail)
  {
    var head, tail := UpperBound(ops, o.start), LowerBound(ops, o.Upper());
    forall k | 0 <= k < |ops|
      ensures tail <= k ==> ops[k].start >= o.Upper()
      ensures head <= k ==> o.start < ops[k].Upper()
    {
      Beyond(ops, n, o, k);
    }
    if tail < head {
      HeadPastTail(ops, n, o);
    } else if head < tail {
      assert ops[head].start < o.Upper() && o.start < ops[head].Upper();
    }
  }

  /** Two operands may follow each other. */
  predicate Clear(a: Splice, b: Splice) {
    a.Upper() <= b.start && !(a.num == 0 && b.num == 0 && a.start == b.start)
  }

  lemma InsertDisjoint(ops: seq<Splice>, n: nat, o: Splice, k: nat)
    requires Disjoint(ops, n) && o.Upper() <= n && k <= |ops|
    requires forall j :: 0 <= j < k ==> Clear(ops[j], o)
    requires forall j :: k <= j < |ops| ==> Clear(o, ops[j])
    ensures Disjoint(ops[..k] + [o] + ops[k..], n)
  {
    var placed := ops[..k] + [o] + ops[k..];
    forall i, j | 0 <= i < j < |placed| ensures Clear(placed[i], placed[j]) {
      if j < k {
        assert placed[i] == ops[i] && placed[j] == ops[j];
      } else if j == k {
        assert placed[i] == ops[i] && placed[j] == o;
      } else if i < k {
        assert placed[i] == ops[i] && placed[j] == ops[j - 1];
      } else if i == k {
        assert placed[i] == o && placed[j] == ops[j - 1];
      } else {
        assert placed[i] == ops[i - 1] && placed[j] == ops[j - 1];
      }
    }
  }

  lemma PlaceDisjoint(ops: seq<Splice>, n: nat, o: Splice)
    requires Disjoint(ops, n) && o.Upper() <= n && !Overlaps(ops, o)
    ensures Disjoint(Place(ops, o), n)
  {
    Bounds(ops, n, o);
    if !Joins(ops, o) {
      var k := LowerBound(ops, o.Upper());
      forall j | k <= j < |ops| ensures Clear(o, ops[j]) {
        assert k < j ==> ops[k].Upper() <= ops[j].start && Clear(ops[k], ops[j]);
      }
      InsertDisjoint(ops, n, o, k);
    }
  }

  class AdvancedNodeBuilder {
    const base: seq<Entry>
    var operands: seq<Splice>

    ghost predicate Valid()
      reads this
    {
      Disjoint(operands, |base|)
    }

    constructor (base: seq<Entry>)
      ensures Valid() && this.base == base && operands == []
    {
      this.base := base;
      operands := [];
    }

    /** A removal that runs past the end of the base is cut there. */
    function Operand(start: nat, num: nat, content: seq<Entry>): Splice {
      Splice(start, if start <= |base| < start + num then |base| - start else num, content)
    }

    /** Adds one operand; `false` is the fatal exit. It is taken exactly if it starts
        within the base and overlaps no operand taken before; a second insertion at
        one position goes behind the first. */
    method AddSplice(start: nat, num: nat, segs: seq<seq<Entry>>) returns (ok: bool)
      requires Valid()
      modifies this
      ensures Valid()
      ensures ok <==> start <= |base| && !Overlaps(old(operands), Operand(start, num, Concat(segs)))
      ensures operands == if ok then Place(old(operands), Operand(start, num, Concat(segs))) else old(operands)
    {
      if |base| < start {
        return false;
      }
      var numDelete := if |base| < start + num then |base| - start else num;
      ghost var o := Operand(start, num, Concat(segs));
      Bounds(operands, |base|, o);
      if !Overlaps(operands, o) { PlaceDisjoint(operands, |base|, o); }
      var tail := LowerBound(operands, start + numDelete);
      var head := UpperBound(operands, start);
      if head == tail {
        operands := operands[..tail] + [Splice(start, numDelete, Concat(segs))] + operands[tail..];
        ok := true;
      } else if head == tail + 1 {
        operands := operands[tail := operands[tail].(content := operands[tail].content + Concat(segs))];
        ok := true;
      } else {
        ok := false;
      }
    }

    /** Applies the operands from the last to the first, one after the other; the
        outcome is that of applying them all at once. */
    method Commit() returns (result: seq<Entry>)
      requires Valid()
      modifies this
      ensures Valid() && operands == []
      ensures InOrder(old(operands), 0, |base|) && result == Spliced(base, old(operands), 0)
    {
      DisjointInOrder(operands, 0, |base|);
      result := base;
      ghost var ops := operands;
      var k := |operands|;
      assert ops[..k] == ops;
      while k > 0
        invariant k <= |ops| && operands == ops
        invariant Remains(base, ops, result, k)
      {
        RemainsLess(base, ops, result, k - 1);
        var o := operands[k - 1];
        result := result[..o.start] + o.content + result[o.Upper()..];
        k := k - 1;
      }
      assert ops[..0] == [];
      operands := [];
    }
  }

  /** What is left to do is to apply the first `k` operands. */
  ghost predicate Remains(base: seq<Entry>, ops: seq<Splice>, result: seq<Entry>, k: nat)
    requires InOrder(ops, 0, |base|) && k <= |ops|
  {
    InOrder(ops[..k], 0, |result|) && Spliced(base, ops, 0) == Spliced(result, ops[..k], 0)
  }

  lemma RemainsLess(base: seq<Entry>, ops: seq<Splice>, result: seq<Entry>, k: nat)
    requires InOrder(ops, 0, |base|) && k < |ops| && Remains(base, ops, result, k + 1)
    ensures var o := ops[k];
      && o.Upper() <= |result|
      && Remains(base, ops, result[..o.start] + o.content + result[o.Upper()..], k)
  {
    CommitStep(result, ops[..k + 1]);
    assert ops[..k + 1][..k] == ops[..k];
  }

  /** Applying the last operand alone leaves the rest of the transaction the same. */
  lemma CommitStep(s: seq<Entry>, ops: seq<Splice>)
    requires ops != [] && InOrder(ops, 0, |s|)
    ensures var o, init := ops[|ops| - 1], ops[..|ops| - 1];
      && o.Upper() <= |s|
      && var s' := s[..o.start] + o.content + s[o.Upper()..];
         InOrder(init, 0, |s'|) && Spliced(s', init, 0) == Spliced(s, ops, 0)
  {
    var o, init := ops[|ops| - 1], ops[..|ops| - 1];
    InOrderPrefix(ops, 0, |s|);
    var s' := s[..o.start] + o.content + s[o.Upper()..];
    OutAppend(s, init, 0, o);
    assert init + [o] == ops;
    var e := End(init, 0);
    InOrderBounds(init, 0, |s|);
    ReplacedSlices(s, o.start, o.Upper(), o.content, e);
    OutLocal(s, s', init, 0);
    PlusFour(Out(s, init, 0), s[e..o.start], o.content, s[o.Upper()..]);
  }

  lemma ReplacedSlices(s: seq<Entry>, from: nat, to: nat, content: seq<Entry>, e: nat)
    requires e <= from <= to <= |s|
    ensures var s' := s[..from] + content + s[to..];
      s'[..e] == s[..e] && s'[e..] == s[e..from] + content + s[to..]
  {
  }
}

/** A transaction on a tree: its operands are committed one by one, the last one first. */
module Transactions {
  import opened Trees
  import opened Splices
  import opened Sequences
  import opened RollingHash
  import opened Chunking
  import opened Builder
  import opened PosTree

  /** The elements of a tree are the encoded entries. */
  function AsNodes(s: seq<Entry>): (xs: seq<Node>)
    ensures |xs| == |s| && forall i :: 0 <= i < |s| ==> xs[i] == Element(s[i].data)
  {
    seq(|s|, i requires 0 <= i < |s| => Element(s[i].data))
  }

  // ----- the elements between two operands

  lemma {:induction false} SuffixInOrder(ops: seq<Splice>, p: nat, n: nat, k: nat)
    requires InOrder(ops, p, n) && k <= |ops|
    ensures InOrder(ops[k..], p, n)
    decreases |ops|
  {
    if k == 0 {
      assert ops[0..] == ops;
    } else {
      SuffixInOrder(ops[1..], ops[0].Upper(), n, k - 1);
      assert ops[1..][k - 1..] == ops[k..];
      if ops[k..] == [] {
        InOrderBounds(ops, p, n);
      }
    }
  }

  /** The elements once the operands from the k-th on have been committed. */
  function After(base: seq<Entry>, ops: seq<Splice>, k: nat): seq<Entry>
    requires InOrder(ops, 0, |base|) && k <= |ops|
  {
    SuffixInOrder(ops, 0, |base|, k);
    Spliced(base, ops[k..], 0)
  }

  /** Operands that start later leave what is before alone. */
  lemma SplicedFrom(base: seq<Entry>, ops: seq<Splice>, u: nat)
    requires InOrder(ops, u, |base|)
    ensures u <= |base| && InOrder(ops, 0, |base|)
    ensures Spliced(base, ops, 0) == base[..u] + Spliced(base, ops, u)
  {
    InOrderBounds(ops, u, |base|);
    if ops != [] {
      var first := ops[0];
      assert base[0..first.start] == base[..u] + base[u..first.start];
      PlusFive(base[..u], base[u..first.start], first.content, Out(base, ops[1..], first.Upper()), base[End(ops, u)..]);
    }
  }

  lemma PlusFive(a: seq<Entry>, b: seq<Entry>, c: seq<Entry>, d: seq<Entry>, e: seq<Entry>)
    ensures a + b + c + d + e == a + (b + c + d + e)
  {
  }

  /** Committing the k-th operand is one edit of what the later ones have left. */
  lemma AfterStep(base: seq<Entry>, ops: seq<Splice>, k: nat)
    requires InOrder(ops, 0, |base|) && k < |ops|
    ensures var o, s := ops[k], After(base, ops, k + 1);
      o.Upper() <= |s| && After(base, ops, k) == s[..o.start] + o.content + s[o.Upper()..]
  {
    var o, rest := ops[k], ops[k + 1..];
    SuffixInOrder(ops, 0, |base|, k);
    assert ops[k..] == [o] + rest && ops[k..][1..] == rest;
    SplicedCons(base, o, rest, 0);
    SplicedFrom(base, rest, o.Upper());
    SliceOfPlus(base, o.start, o.Upper(), Spliced(base, rest, o.Upper()));
  }

  lemma SliceOfPlus(base: seq<Entry>, i: nat, u: nat, tail: seq<Entry>)
    requires i <= u <= |base|
    ensures (base[..u] + tail)[..i] == base[0..i] && (base[..u] + tail)[u..] == tail
  {
  }

  lemma EditOfNodes(s: seq<Entry>, o: Splice)
    requires o.Upper() <= |s|
    ensures EditedElements(AsNodes(s), o.start, o.num, AsNodes(o.content)) ==
            AsNodes(s[..o.start] + o.content + s[o.Upper()..])
  {
  }

  // ----- committing

  /** Committing an operand cuts whole leaves off the end. */
  ghost predicate StepCuts(leaf: Config, enc: Encoding, base: seq<Entry>, ops: seq<Splice>, k: nat)
    requires InOrder(ops, 0, |base|) && k < |ops|
  {
    AfterStep(base, ops, k);
    CutsOff(leaf, enc, AsNodes(After(base, ops, k + 1)), ops[k].start, ops[k].num, AsNodes(ops[k].content))
  }

  ghost function StepLeaves(leaf: Config, enc: Encoding, base: seq<Entry>, ops: seq<Splice>, k: nat):
    seq<seq<Node>>
    requires InOrder(ops, 0, |base|) && k < |ops|
  {
    AfterStep(base, ops, k);
    NewLeaves(leaf, enc, AsNodes(After(base, ops, k + 1)), ops[k].start, ops[k].num, AsNodes(ops[k].content))
  }

  /** There is a tree after every operand, and none but the one committed at the end cuts
      whole leaves off. */
  ghost predicate Goes(leaf: Config, meta: Config, enc: Encoding, base: seq<Entry>, ops: seq<Splice>)
    requires Disjoint(ops, |base|)
  {
    DisjointInOrder(ops, 0, |base|);
    forall k :: 0 <= k < |ops| ==>
      Rooted(meta, enc, StepLeaves(leaf, enc, base, ops, k)) && (k > 0 ==> !StepCuts(leaf, enc, base, ops, k))
  }

  /** The leaves after a transaction: those of the spliced elements, and an empty one if
      whole leaves were cut off. */
  ghost function LeavesAfter(leaf: Config, enc: Encoding, base: seq<Entry>, ops: seq<Splice>): seq<seq<Node>>
    requires Disjoint(ops, |base|)
  {
    DisjointInOrder(ops, 0, |base|);
    var xs := AsNodes(Spliced(base, ops, 0));
    if ops != [] && StepCuts(leaf, enc, base, ops, 0) then Chunks(leaf, enc, xs) + [[]] else Level(leaf, enc, xs)
  }

  lemma StepYields(leaf: Config, enc: Encoding, base: seq<Entry>, ops: seq<Splice>, k: nat)
    requires InOrder(ops, 0, |base|) && k < |ops|
    ensures var xs := AsNodes(After(base, ops, k));
      StepLeaves(leaf, enc, base, ops, k) ==
      if StepCuts(leaf, enc, base, ops, k) then Chunks(leaf, enc, xs) + [[]] else Level(leaf, enc, xs)
  {
    var s := After(base, ops, k + 1);
    AfterStep(base, ops, k);
    EditOfNodes(s, ops[k]);
    LevelConcat(leaf, enc, AsNodes(s));
  }

  lemma FirstYields(leaf: Config, enc: Encoding, base: seq<Entry>, ops: seq<Splice>)
    requires Disjoint(ops, |base|) && ops != []
    ensures InOrder(ops, 0, |base|)
    ensures StepLeaves(leaf, enc, base, ops, 0) == LeavesAfter(leaf, enc, base, ops)
  {
    DisjointInOrder(ops, 0, |base|);
    StepYields(leaf, enc, base, ops, 0);
    assert ops[0..] == ops;
  }

  /** Commits one operand on the tree that the later ones have left. */
  method CommitOperand(leaf: Chunker, meta: Chunker, enc: Encoding, root: Node, o: Splice,
                       ghost base: seq<Entry>, ghost ops: seq<Splice>, ghost k: nat)
    returns (root': Node)
    requires 0 < leaf.window && 0 < meta.window && InOrder(ops, 0, |base|) && k < |ops| && o == ops[k]
    requires IsTree(leaf.Cfg(), meta.Cfg(), enc, AsNodes(After(base, ops, k + 1)), root)
    requires Rooted(meta.Cfg(), enc, StepLeaves(leaf.Cfg(), enc, base, ops, k))
    ensures IsRoot(meta.Cfg(), enc, StepLeaves(leaf.Cfg(), enc, base, ops, k), root')
    ensures !StepCuts(leaf.Cfg(), enc, base, ops, k) ==>
            IsTree(leaf.Cfg(), meta.Cfg(), enc, AsNodes(After(base, ops, k)), root')
  {
    ghost var xs := AsNodes(After(base, ops, k + 1));
    AfterStep(base, ops, k);
    StepYields(leaf.Cfg(), enc, base, ops, k);
    var ys := AsNodes(o.content);
    ConcatOne(ys);
    root' := PosTree.Commit(leaf, meta, enc, root, o.start, o.num, [ys], xs);
  }

  /** Commits a transaction on the tree of the builder's base: the new tree is the one over
      the spliced elements, up to an empty leaf at the end. */
  method Commit(builder: AdvancedNodeBuilder, leaf: Chunker, meta: Chunker, enc: Encoding, root: Node)
    returns (root': Node)
    requires builder.Valid() && 0 < leaf.window && 0 < meta.window
    requires IsTree(leaf.Cfg(), meta.Cfg(), enc, AsNodes(builder.base), root)
    requires Goes(leaf.Cfg(), meta.Cfg(), enc, builder.base, builder.operands)
    modifies builder
    ensures builder.Valid() && builder.operands == []
    ensures IsRoot(meta.Cfg(), enc, LeavesAfter(leaf.Cfg(), enc, builder.base, old(builder.operands)), root')
  {
    ghost var base, ops := builder.base, builder.operands;
    DisjointInOrder(ops, 0, |base|);
    root' := root;
    var k := |builder.operands|;
    assert ops[k..] == [] && After(base, ops, k) == base;
    while k > 0
      invariant k <= |ops| && builder.operands == ops
      invariant k > 0 || ops == [] ==> IsTree(leaf.Cfg(), meta.Cfg(), enc, AsNodes(After(base, ops, k)), root')
      invariant k == 0 && ops != [] ==> IsRoot(meta.Cfg(), enc, StepLeaves(leaf.Cfg(), enc, base, ops, 0), root')
    {
      k := k - 1;
      root' := CommitOperand(leaf, meta, enc, root', builder.operands[k], base, ops, k);
    }
    if builder.operands != [] {
      FirstYields(leaf.Cfg(), enc, base, ops);
    }
    builder.operands := [];
  }

  /** On an empty base all operands have been joined to one, so the elements are its. */
  lemma OneOperand(ops: seq<Splice>)
    requires Disjoint(ops, 0)
    ensures InOrder(ops, 0, 0) && |ops| <= 1
    ensures Spliced([], ops, 0) == if ops == [] then [] else ops[0].content
  {
    DisjointInOrder(ops, 0, 0);
    assert |ops| > 1 ==> Clear(ops[0], ops[1]);
    if |ops| == 1 {
      SplicedCons([], ops[0], [], 0);
      assert [ops[0]] + [] == ops;
    }
  }

  /** The elements that operands put into an empty base. */
  ghost function NewElements(ops: seq<Splice>): seq<Node>
    requires Disjoint(ops, 0)
  {
    OneOperand(ops);
    AsNodes(Spliced([], ops, 0))
  }

  /** Commits a transaction where there is no tree yet. */
  method CommitNew(builder: AdvancedNodeBuilder, leaf: Chunker, meta: Chunker, enc: Encoding) returns (root: Node)
    requires builder.Valid() && builder.base == [] && 0 < leaf.window && 0 < meta.window
    requires Rooted(meta.Cfg(), enc, Level(leaf.Cfg(), enc, NewElements(builder.operands)))
    ensures IsTree(leaf.Cfg(), meta.Cfg(), enc, NewElements(builder.operands), root)
  {
    OneOperand(builder.operands);
    var ys := if |builder.operands| == 0 then [] else AsNodes(builder.operands[0].content);
    assert ys == NewElements(builder.operands);
    ConcatOne(ys);
    root := Build(leaf, meta, enc, [ys]);
  }
}

/** Trees of chunks: committing an edit yields the tree that building the edited elements
    from nothing yields. */
module PosTree {
  import opened Keys
  import opened RollingHash
  import opened Words
  import opened Chunking
  import opened Builder
  import opened Sequences

  // ----- the levels of a tree

  /** The meta entries of a level, one for each chunk. */
  function Metas(level: seq<seq<Node>>): (ms: seq<Node>)
    ensures |ms| == |level| && forall k :: 0 <= k < |level| ==> ms[k] == Chunk(level[k])
  {
    seq(|level|, k requires 0 <= k < |level| => Chunk(level[k]))
  }

  /** The n-th level above `first`. */
  function Up(meta: Config, enc: Encoding, first: seq<seq<Node>>, n: nat): seq<seq<Node>> {
    if n == 0 then first else Level(meta, enc, Metas(Up(meta, enc, first, n - 1)))
  }

  lemma LevelConcat(cfg: Config, enc: Encoding, xs: seq<Node>)
    ensures Concat(Level(cfg, enc, xs)) == xs && |Level(cfg, enc, xs)| > 0
  {
    if xs == [] {
      var none: seq<seq<Node>> := [[]];
      assert none[0] == [] && none[1..] == [];
    } else {
      ChunksConcat(cfg, enc, xs);
    }
  }

  lemma {:induction false} UpNonEmpty(meta: Config, enc: Encoding, first: seq<seq<Node>>, n: nat)
    requires first != []
    ensures Up(meta, enc, first, n) != []
  {
    if n > 0 {
      LevelConcat(meta, enc, Metas(Up(meta, enc, first, n - 1)));
    }
  }

  /** The tree over `first`: the chunk of the lowest level that has only one. */
  ghost predicate IsRoot(meta: Config, enc: Encoding, first: seq<seq<Node>>, t: Node) {
    exists n: nat :: RootAt(meta, enc, first, t, n)
  }

  ghost predicate RootAt(meta: Config, enc: Encoding, first: seq<seq<Node>>, t: Node, n: nat) {
    t.Chunk? && Up(meta, enc, first, n) == [t.entries] && Several(meta, enc, first, 0, n)
  }

  /** The levels from the m-th to before the n-th have several chunks. */
  ghost predicate Several(meta: Config, enc: Encoding, first: seq<seq<Node>>, m: nat, n: nat) {
    forall k :: m <= k < n ==> |Up(meta, enc, first, k)| > 1
  }

  lemma SeveralNext(meta: Config, enc: Encoding, first: seq<seq<Node>>, m: nat, n: nat)
    requires Several(meta, enc, first, m, n) && |Up(meta, enc, first, n)| > 1
    ensures Several(meta, enc, first, m, n + 1)
  {
  }

  lemma {:induction false} SingleStays(meta: Config, enc: Encoding, first: seq<seq<Node>>, m: nat, n: nat)
    requires m <= n && |Up(meta, enc, first, m)| == 1
    ensures |Up(meta, enc, first, n)| == 1
    decreases n - m
  {
    if m < n {
      SingleStays(meta, enc, first, m, n - 1);
      SingleEntry(meta, enc, Metas(Up(meta, enc, first, n - 1)));
    }
  }

  lemma SingleEntry(cfg: Config, enc: Encoding, xs: seq<Node>)
    requires |xs| == 1
    ensures |Level(cfg, enc, xs)| == 1
  {
    assert FirstEnd(cfg, enc, xs, 0) == 1 && xs[1..] == [];
    assert Chunks(cfg, enc, xs[1..]) == [];
  }

  /** There is at most one tree over a level. */
  lemma RootUnique(meta: Config, enc: Encoding, first: seq<seq<Node>>, s: Node, t: Node)
    requires IsRoot(meta, enc, first, s) && IsRoot(meta, enc, first, t)
    ensures s == t
  {
    var m: nat :| RootAt(meta, enc, first, s, m);
    var n: nat :| RootAt(meta, enc, first, t, n);
    assert m == n;
  }

  /** The tree over a sequence of elements. */
  ghost predicate IsTree(leaf: Config, meta: Config, enc: Encoding, xs: seq<Node>, t: Node) {
    IsRoot(meta, enc, Level(leaf, enc, xs), t)
  }

  /** Some level has only one chunk. */
  ghost predicate Rooted(meta: Config, enc: Encoding, first: seq<seq<Node>>) {
    exists n: nat :: |Up(meta, enc, first, n)| == 1
  }

  /** Some level has only one chunk exactly if there is a tree. */
  lemma RootExists(meta: Config, enc: Encoding, first: seq<seq<Node>>)
    requires IsFirst(first)
    ensures Rooted(meta, enc, first) <==> exists t :: IsRoot(meta, enc, first, t)
  {
    if Rooted(meta, enc, first) {
      var n: nat :| |Up(meta, enc, first, n)| == 1;
      PrunedIsRoot(meta, enc, first, n);
    }
    if t :| IsRoot(meta, enc, first, t) {
      var n: nat :| RootAt(meta, enc, first, t, n);
    }
  }

  // ----- when there is a tree

  /** No meta entry holds a boundary by itself. */
  ghost predicate NoneAlone(meta: Config, enc: Encoding) {
    forall es: seq<Node> :: !Crossed(meta, enc(es), 0)
  }

  /** Entries shorter than the window hold none by themselves. */
  lemma ShortNotAlone(meta: Config, enc: Encoding)
    requires forall es: seq<Node> :: |enc(es)| < meta.window
    ensures NoneAlone(meta, enc)
  {
    forall es: seq<Node> ensures !Crossed(meta, enc(es), 0) {
      if Crossed(meta, enc(es), 0) {
        CrossedLong(meta, enc(es), 0);
      }
    }
  }

  lemma AloneOrNot(cfg: Config, enc: Encoding, x: Node)
    ensures Closed(cfg, enc, [x]) <==> Crossed(cfg, EntryBytes(enc, x), 0)
  {
    assert [x][1..] == [] && Encode(enc, []) == [];
    assert Encode(enc, [x]) == EntryBytes(enc, x) + [] == EntryBytes(enc, x);
  }

  ghost predicate AllChunks(xs: seq<Node>) {
    forall i :: 0 <= i < |xs| ==> xs[i].Chunk?
  }

  /** Then every chunk but the last has two entries or more. */
  lemma {:induction false} ChunksHalve(meta: Config, enc: Encoding, xs: seq<Node>)
    requires NoneAlone(meta, enc) && AllChunks(xs)
    ensures 2 * |Chunks(meta, enc, xs)| <= |xs| + 1
    decreases |xs|
  {
    if xs != [] {
      var end := FirstEnd(meta, enc, xs, 0);
      AloneOrNot(meta, enc, xs[0]);
      assert xs[..1] == [xs[0]];
      assert end >= 2 || end == |xs|;
      ChunksHalve(meta, enc, xs[end..]);
    }
  }

  /** Levels above a level of no more than n + 1 chunks come down to one chunk. */
  lemma {:induction false} HalvingEnds(meta: Config, enc: Encoding, first: seq<seq<Node>>, n: nat, above: nat)
    requires first != [] && NoneAlone(meta, enc) && |Up(meta, enc, first, n)| <= above + 1
    ensures |Up(meta, enc, first, n + above)| == 1
    decreases above
  {
    UpNonEmpty(meta, enc, first, n);
    if above > 0 {
      var xs := Metas(Up(meta, enc, first, n));
      ChunksHalve(meta, enc, xs);
      HalvingEnds(meta, enc, first, n + 1, above - 1);
    }
  }

  /** If no meta entry holds a boundary by itself, there is a tree over any leaves. */
  lemma HalvingRoots(meta: Config, enc: Encoding, first: seq<seq<Node>>)
    requires first != [] && NoneAlone(meta, enc)
    ensures Rooted(meta, enc, first)
  {
    HalvingEnds(meta, enc, first, 0, |first| - 1);
  }

  /** If all do, every level has as many chunks as the leaves, so that there is a tree over
      a single leaf only. */
  lemma AllAlone(meta: Config, enc: Encoding, first: seq<seq<Node>>)
    requires first != [] && forall es: seq<Node> :: Crossed(meta, enc(es), 0)
    ensures Rooted(meta, enc, first) <==> |first| == 1
  {
    forall n: nat ensures |Up(meta, enc, first, n)| == |first| {
      LevelsStay(meta, enc, first, n);
    }
    assert |first| == 1 ==> |Up(meta, enc, first, 0)| == 1;
  }

  lemma {:induction false} LevelsStay(meta: Config, enc: Encoding, first: seq<seq<Node>>, n: nat)
    requires first != [] && forall es: seq<Node> :: Crossed(meta, enc(es), 0)
    ensures |Up(meta, enc, first, n)| == |first|
  {
    if n > 0 {
      LevelsStay(meta, enc, first, n - 1);
      ChunksStay(meta, enc, Metas(Up(meta, enc, first, n - 1)));
    }
  }

  lemma {:induction false} ChunksStay(meta: Config, enc: Encoding, xs: seq<Node>)
    requires AllChunks(xs) && forall es: seq<Node> :: Crossed(meta, enc(es), 0)
    ensures |Chunks(meta, enc, xs)| == |xs|
    decreases |xs|
  {
    if xs != [] {
      AloneOrNot(meta, enc, xs[0]);
      assert xs[..1] == [xs[0]] && FirstEnd(meta, enc, xs, 0) == 1;
      ChunksStay(meta, enc, xs[1..]);
    }
  }

  /** So it is where entries fill a window and the pattern is met by any, and where entries
      are as long as a chunk may be. */
  lemma LevelsCanStay(meta: Chunker, enc: Encoding, first: seq<seq<Node>>)
    requires first != [] && 0 < meta.window
    requires || (meta.pattern == 0 && forall es: seq<Node> :: meta.window <= |enc(es)|)
             || (meta.window <= meta.max && forall es: seq<Node> :: meta.max <= |enc(es)|)
    ensures Rooted(meta.Cfg(), enc, first) <==> |first| == 1
  {
    var filled := meta.pattern == 0 && forall es: seq<Node> :: meta.window <= |enc(es)|;
    var size := if filled then meta.window else meta.max;
    forall es: seq<Node> ensures Crossed(meta.Cfg(), enc(es), 0) {
      AnyMatches(meta.Cfg().matches, meta, Last(enc(es)[..size], meta.window));
      assert Hit(meta.Cfg(), enc(es)[..size]);
      CrossedMeans(meta.Cfg(), enc(es), 0);
    }
    AllAlone(meta.Cfg(), enc, first);
  }

  lemma AnyMatches(matches: seq<Byte> -> bool, meta: Chunker, bytes: seq<Byte>)
    requires matches == meta.Cfg().matches
    ensures meta.pattern == 0 ==> matches(bytes)
  {
    var w := Digest(Uint32(meta.window), meta.table, bytes);
    assert matches(bytes) == HasBits(meta.pattern)(w);
  }

  // ----- pruning

  function Pruned(t: Node): Node {
    if t.Chunk? && |t.entries| == 1 && t.entries[0].Chunk? then Pruned(t.entries[0]) else t
  }

  /** Descends from the root while a meta node has a single entry. */
  method Prune(root: Node) returns (t: Node)
    ensures t == Pruned(root)
  {
    t := root;
    while t.Chunk? && |t.entries| == 1 && t.entries[0].Chunk?
      invariant Pruned(t) == Pruned(root)
      decreases t
    {
      t := t.entries[0];
    }
  }

  ghost predicate AllElements(xs: seq<Node>) {
    forall i :: 0 <= i < |xs| ==> xs[i].Element?
  }

  ghost predicate IsFirst(first: seq<seq<Node>>) {
    first != [] && forall k :: 0 <= k < |first| ==> AllElements(first[k])
  }

  /** Pruning a single chunk of some level finds the tree. */
  lemma {:induction false} PrunedIsRoot(meta: Config, enc: Encoding, first: seq<seq<Node>>, n: nat)
    requires IsFirst(first) && |Up(meta, enc, first, n)| == 1
    ensures IsRoot(meta, enc, first, Pruned(Chunk(Up(meta, enc, first, n)[0])))
  {
    var top := Up(meta, enc, first, n);
    var t := Chunk(top[0]);
    if n == 0 {
      assert AllElements(first[0]);
      assert RootAt(meta, enc, first, t, 0);
    } else {
      var below := Up(meta, enc, first, n - 1);
      OneChunk(meta, enc, Metas(below));
      UpNonEmpty(meta, enc, first, n - 1);
      if |below| == 1 {
        PrunedIsRoot(meta, enc, first, n - 1);
      } else {
        SeveralBelow(meta, enc, first, n - 1);
        assert RootAt(meta, enc, first, t, n);
      }
    }
  }

  lemma OneChunk(cfg: Config, enc: Encoding, xs: seq<Node>)
    requires |Level(cfg, enc, xs)| == 1
    ensures Level(cfg, enc, xs)[0] == xs
  {
    LevelConcat(cfg, enc, xs);
    var level := Level(cfg, enc, xs);
    assert level[1..] == [] && Concat(level) == level[0] + [];
  }

  lemma SeveralBelow(meta: Config, enc: Encoding, first: seq<seq<Node>>, n: nat)
    requires first != [] && |Up(meta, enc, first, n)| > 1
    ensures Several(meta, enc, first, 0, n + 1)
  {
    forall m | 0 <= m <= n ensures |Up(meta, enc, first, m)| > 1 {
      UpNonEmpty(meta, enc, first, m);
      if |Up(meta, enc, first, m)| == 1 {
        SingleStays(meta, enc, first, m, n);
      }
    }
  }

  // ----- positions

  /** An edit at the i-th entry, as an edit of the entries. */
  lemma EditedAt(level: seq<seq<Node>>, i: nat, num: nat, segs: seq<seq<Node>>)
    requires level != [] && i <= |Concat(level)|
    ensures var at := Locate(level, i);
      && At(level, at)
      && Edited(level, at, num, segs) ==
         Concat(level)[..i] + Concat(segs) + Concat(level)[i + Min(num, |Concat(level)| - i)..]
  {
    Located(level, i);
    var xs := Concat(level);
    assert xs[i..][Min(num, |xs| - i)..] == xs[i + Min(num, |xs| - i)..];
  }

  // ----- committing an edit

  /** One segment for each meta entry. */
  function MetaSegments(made: seq<seq<Node>>): (segs: seq<seq<Node>>) {
    if made == [] then [] else [[Chunk(made[0])]] + MetaSegments(made[1..])
  }

  lemma {:induction false} MetaSegmentsConcat(made: seq<seq<Node>>)
    ensures Concat(MetaSegments(made)) == Metas(made)
    decreases |made|
  {
    if made != [] {
      MetaSegmentsConcat(made[1..]);
      var segs := MetaSegments(made);
      assert segs[0] == [Chunk(made[0])] && segs[1..] == MetaSegments(made[1..]);
    }
  }

  /** The levels of a tree, from the leaves up. */
  ghost predicate AreLevels(meta: Config, enc: Encoding, first: seq<seq<Node>>, levels: seq<seq<seq<Node>>>) {
    && levels != [] && (forall j :: 0 <= j < |levels| ==> levels[j] == Up(meta, enc, first, j))
    && |levels[|levels| - 1]| == 1
  }

  /** A level of meta entries. */
  predicate IsMeta(level: seq<seq<Node>>) {
    && level != [] && level[0] != [] && level[0][0].Chunk?
    && forall i :: 0 <= i < |Concat(level)| ==> Concat(level)[i].Chunk?
  }

  /** The level below: the chunks that the meta entries point to. */
  function Below(level: seq<seq<Node>>): (below: seq<seq<Node>>)
    requires IsMeta(level)
    ensures |below| == |Concat(level)| > 0 && below[0] == level[0][0].entries
  {
    var xs := Concat(level);
    seq(|xs|, i requires 0 <= i < |xs| => xs[i].entries)
  }

  /** The levels down from a level, from the leaves up. */
  function LevelsDown(level: seq<seq<Node>>): seq<seq<seq<Node>>>
    requires level != []
    decreases Chunk(level[0])
  {
    if IsMeta(level) then LevelsDown(Below(level)) + [level] else [level]
  }

  lemma BelowMetas(level: seq<seq<Node>>, below: seq<seq<Node>>)
    requires IsMeta(level) && Concat(level) == Metas(below)
    ensures Below(level) == below
  {
  }

  lemma LevelIsMeta(meta: Config, enc: Encoding, below: seq<seq<Node>>)
    requires below != []
    ensures IsMeta(Level(meta, enc, Metas(below)))
  {
    LevelConcat(meta, enc, Metas(below));
    ChunksNonEmpty(meta, enc, Metas(below), 0);
  }

  lemma FirstNotMeta(first: seq<seq<Node>>)
    requires IsFirst(first)
    ensures !IsMeta(first)
  {
    if first[0] != [] {
      assert AllElements(first[0]) && Concat(first)[0] == first[0][0];
    }
  }

  /** From the n-th level down lie the levels over the leaves. */
  lemma {:induction false} LevelsFound(meta: Config, enc: Encoding, first: seq<seq<Node>>, n: nat)
    requires IsFirst(first)
    ensures Up(meta, enc, first, n) != []
    ensures var levels := LevelsDown(Up(meta, enc, first, n));
      |levels| == n + 1 && forall j :: 0 <= j <= n ==> levels[j] == Up(meta, enc, first, j)
  {
    UpNonEmpty(meta, enc, first, n);
    if n == 0 {
      FirstNotMeta(first);
    } else {
      var below := Up(meta, enc, first, n - 1);
      LevelsFound(meta, enc, first, n - 1);
      LevelIsMeta(meta, enc, below);
      LevelConcat(meta, enc, Metas(below));
      BelowMetas(Up(meta, enc, first, n), below);
    }
  }

  /** A root gives back the levels it was built from. */
  lemma RootLevels(meta: Config, enc: Encoding, first: seq<seq<Node>>, root: Node)
    requires IsFirst(first) && IsRoot(meta, enc, first, root)
    ensures root.Chunk? && AreLevels(meta, enc, first, LevelsDown([root.entries]))
  {
    var n: nat :| RootAt(meta, enc, first, root, n);
    LevelsFound(meta, enc, first, n);
  }

  /** A level with the chunks from `c` to `parent` replaced. */
  function Replaced(level: seq<seq<Node>>, c: nat, made: seq<seq<Node>>, parent: nat): seq<seq<Node>>
    requires c <= parent <= |level|
  {
    level[..c] + made + level[parent..]
  }

  /** Replacing chunks of a level is an edit of the meta entries above it. */
  lemma ReplacedMetas(level: seq<seq<Node>>, above: seq<seq<Node>>, c: nat, made: seq<seq<Node>>, parent: nat)
    requires c < parent <= |level| && above != [] && Concat(above) == Metas(level) && made != []
    ensures var at, num, segs := Locate(above, c), parent - c, MetaSegments(made);
      && At(above, at) && !TailRemoved(above, at, num, segs)
      && Edited(above, at, num, segs) == Metas(Replaced(level, c, made, parent))
  {
    MetaSegmentsConcat(made);
    EditedAt(above, c, parent - c, MetaSegments(made));
    MetasReplaced(level, c, made, parent);
  }

  lemma MetasReplaced(level: seq<seq<Node>>, c: nat, made: seq<seq<Node>>, parent: nat)
    requires c <= parent <= |level|
    ensures Metas(level)[..c] + Metas(made) + Metas(level)[parent..] == Metas(Replaced(level, c, made, parent))
  {
  }

  /** Commits one level above the leaves: the parent's cursor stands at the entry of the
      first replaced chunk, the entries up to `parent` are skipped and those of the new
      chunks appended. */
  method CommitAbove(chunker: Chunker, enc: Encoding, level: seq<seq<Node>>, above: seq<seq<Node>>,
                     c: nat, made: seq<seq<Node>>, parent: nat)
    returns (c': nat, made': seq<seq<Node>>, parent': nat)
    requires 0 < chunker.window && above == Level(chunker.Cfg(), enc, Metas(level))
    requires c < parent <= |level| && made != []
    ensures c' < parent' <= |above| && made' != []
    ensures Replaced(above, c', made', parent') ==
            Level(chunker.Cfg(), enc, Metas(Replaced(level, c, made, parent)))
  {
    LevelConcat(chunker.Cfg(), enc, Metas(level));
    ReplacedMetas(level, above, c, made, parent);
    var at := Locate(above, c);
    made', parent' := RebuildLevel(chunker, enc, above, at, parent - c, MetaSegments(made));
    c' := at.chunk;
  }

  /** Builds the level of meta entries above `level`. */
  method NextLevel(meta: Chunker, enc: Encoding, level: seq<seq<Node>>) returns (above: seq<seq<Node>>)
    requires 0 < meta.window
    ensures above == Level(meta.Cfg(), enc, Metas(level)) && above != []
  {
    MetaSegmentsConcat(level);
    LevelConcat(meta.Cfg(), enc, Metas(level));
    above := BuildLevel(meta, enc, MetaSegments(level));
  }

  lemma NotYetSingle(meta: Config, enc: Encoding, first: seq<seq<Node>>, n: nat, single: nat)
    requires |Up(meta, enc, first, single)| == 1 && |Up(meta, enc, first, n)| > 1
    ensures n < single
  {
    if single <= n {
      SingleStays(meta, enc, first, single, n);
    }
  }

  /** The levels above a level, built from nothing until one has a single chunk. */
  method Grow(meta: Chunker, enc: Encoding, top: seq<seq<Node>>, ghost first: seq<seq<Node>>, ghost n: nat)
    returns (root: Node, ghost height: nat)
    requires 0 < meta.window && top != [] && top == Up(meta.Cfg(), enc, first, n) && Rooted(meta.Cfg(), enc, first)
    ensures root.Chunk? && Up(meta.Cfg(), enc, first, height) == [root.entries]
    ensures n <= height && Several(meta.Cfg(), enc, first, n, height)
  {
    var level := top;
    height := n;
    ghost var cfg := meta.Cfg();
    ghost var single: nat :| |Up(cfg, enc, first, single)| == 1;
    while |level| > 1
      invariant level == Up(cfg, enc, first, height) && level != [] && n <= height
      invariant Several(cfg, enc, first, n, height)
      decreases single - height
    {
      NotYetSingle(cfg, enc, first, height, single);
      SeveralNext(cfg, enc, first, n, height);
      level := NextLevel(meta, enc, level);
      height := height + 1;
    }
    root := Chunk(level[0]);
  }

  /** Builds a tree from nothing. */
  method Build(leaf: Chunker, meta: Chunker, enc: Encoding, segs: seq<seq<Node>>) returns (root: Node)
    requires 0 < leaf.window && 0 < meta.window
    requires Rooted(meta.Cfg(), enc, Level(leaf.Cfg(), enc, Concat(segs)))
    ensures IsTree(leaf.Cfg(), meta.Cfg(), enc, Concat(segs), root)
  {
    var level := BuildLevel(leaf, enc, segs);
    LevelConcat(leaf.Cfg(), enc, Concat(segs));
    ghost var height;
    root, height := Grow(meta, enc, level, level, 0);
    assert RootAt(meta.Cfg(), enc, level, root, height);
  }

  /** The elements after an edit: from the i-th on, `num` of them, or all there are, give
      way to new ones. */
  function EditedElements(xs: seq<Node>, i: nat, num: nat, ys: seq<Node>): seq<Node>
    requires i <= |xs|
  {
    xs[..i] + ys + xs[i + Min(num, |xs| - i)..]
  }

  /** Everything from a leaf other than the first on is removed and nothing is added. */
  ghost predicate CutsLeaves(leaves: seq<seq<Node>>, i: nat, num: nat, ys: seq<Node>)
    requires leaves != [] && i <= |Concat(leaves)|
  {
    Locate(leaves, i).chunk > 0 && Locate(leaves, i).idx == 0 && ys == [] && |Concat(leaves)| <= i + num
  }

  /** The leaves of the edited tree: those of the edited elements, and an empty one if
      whole leaves were cut off the end. */
  ghost function EditedLeaves(cfg: Config, enc: Encoding, leaves: seq<seq<Node>>, i: nat, num: nat, ys: seq<Node>):
    seq<seq<Node>>
    requires leaves != [] && i <= |Concat(leaves)|
  {
    var xs := EditedElements(Concat(leaves), i, num, ys);
    if CutsLeaves(leaves, i, num, ys) then Chunks(cfg, enc, xs) + [[]] else Level(cfg, enc, xs)
  }

  /** The leaves after an edit of the elements of a tree. */
  ghost function NewLeaves(cfg: Config, enc: Encoding, xs: seq<Node>, i: nat, num: nat, ys: seq<Node>):
    seq<seq<Node>>
    requires i <= |xs|
  {
    LevelConcat(cfg, enc, xs);
    EditedLeaves(cfg, enc, Level(cfg, enc, xs), i, num, ys)
  }

  /** Whole leaves are cut off the end of a tree. */
  ghost predicate CutsOff(cfg: Config, enc: Encoding, xs: seq<Node>, i: nat, num: nat, ys: seq<Node>)
    requires i <= |xs|
  {
    LevelConcat(cfg, enc, xs);
    CutsLeaves(Level(cfg, enc, xs), i, num, ys)
  }

  lemma ElementsStay(cfg: Config, enc: Encoding, leaves: seq<seq<Node>>, i: nat, num: nat, ys: seq<Node>)
    requires leaves != [] && i <= |Concat(leaves)| && AllElements(Concat(leaves)) && AllElements(ys)
    ensures IsFirst(EditedLeaves(cfg, enc, leaves, i, num, ys))
  {
    var xs := EditedElements(Concat(leaves), i, num, ys);
    assert AllElements(xs);
    LevelConcat(cfg, enc, xs);
    var first := EditedLeaves(cfg, enc, leaves, i, num, ys);
    forall k | 0 <= k < |first| ensures AllElements(first[k]) {
      if k < |Chunks(cfg, enc, xs)| {
        ChunkElements(cfg, enc, xs, k);
      }
    }
  }

  lemma {:induction false} ChunkElements(cfg: Config, enc: Encoding, xs: seq<Node>, k: nat)
    requires AllElements(xs) && k < |Chunks(cfg, enc, xs)|
    ensures AllElements(Chunks(cfg, enc, xs)[k])
    decreases |xs|
  {
    var end := FirstEnd(cfg, enc, xs, 0);
    if k > 0 {
      ChunkElements(cfg, enc, xs[end..], k - 1);
    }
  }

  lemma TailIsLeaves(leaves: seq<seq<Node>>, i: nat, num: nat, segs: seq<seq<Node>>)
    requires leaves != [] && i <= |Concat(leaves)|
    ensures At(leaves, Locate(leaves, i))
    ensures TailRemoved(leaves, Locate(leaves, i), num, segs) <==> CutsLeaves(leaves, i, num, Concat(segs))
  {
    Located(leaves, i);
  }

  lemma EditIsElements(leaves: seq<seq<Node>>, i: nat, num: nat, segs: seq<seq<Node>>)
    requires leaves != [] && i <= |Concat(leaves)|
    ensures At(leaves, Locate(leaves, i))
    ensures Edited(leaves, Locate(leaves, i), num, segs) == EditedElements(Concat(leaves), i, num, Concat(segs))
  {
    EditedAt(leaves, i, num, segs);
  }

  /** A rebuilt leaf level is that of the edited elements. */
  lemma RebuiltLeaves(cfg: Config, enc: Encoding, leaves: seq<seq<Node>>, i: nat, num: nat, segs: seq<seq<Node>>,
                      made: seq<seq<Node>>, parent: nat)
    requires leaves != [] && i <= |Concat(leaves)| && At(leaves, Locate(leaves, i))
    requires Rebuilt(cfg, enc, leaves, Locate(leaves, i), num, segs, made, parent)
    ensures Locate(leaves, i).chunk < parent <= |leaves| && made != []
    ensures Replaced(leaves, Locate(leaves, i).chunk, made, parent) ==
            EditedLeaves(cfg, enc, leaves, i, num, Concat(segs))
  {
    EditIsElements(leaves, i, num, segs);
    TailIsLeaves(leaves, i, num, segs);
  }

  /** Commits the leaf level. */
  method CommitLeaves(leaf: Chunker, enc: Encoding, leaves: seq<seq<Node>>, i: nat, num: nat, segs: seq<seq<Node>>)
    returns (c: nat, made: seq<seq<Node>>, parent: nat)
    requires 0 < leaf.window && leaves == Level(leaf.Cfg(), enc, Concat(leaves)) && i <= |Concat(leaves)|
    ensures leaves != [] && c < parent <= |leaves| && made != []
    ensures Replaced(leaves, c, made, parent) == EditedLeaves(leaf.Cfg(), enc, leaves, i, num, Concat(segs))
  {
    LevelConcat(leaf.Cfg(), enc, Concat(leaves));
    var at := Locate(leaves, i);
    Located(leaves, i);
    made, parent := RebuildLevel(leaf, enc, leaves, at, num, segs);
    RebuiltLeaves(leaf.Cfg(), enc, leaves, i, num, segs, made, parent);
    c := at.chunk;
  }

  /** Commits the levels of the old tree from the leaves up; yields the chunks of the
      topmost. */
  method CommitLevels(leaf: Chunker, meta: Chunker, enc: Encoding, levels: seq<seq<seq<Node>>>,
                      i: nat, num: nat, segs: seq<seq<Node>>)
    returns (top: seq<seq<Node>>)
    requires 0 < leaf.window && 0 < meta.window && levels != [] && AreLevels(meta.Cfg(), enc, levels[0], levels)
    requires levels[0] == Level(leaf.Cfg(), enc, Concat(levels[0])) && i <= |Concat(levels[0])|
    ensures levels[0] != [] && top != []
    ensures var first := EditedLeaves(leaf.Cfg(), enc, levels[0], i, num, Concat(segs));
      top == Up(meta.Cfg(), enc, first, |levels| - 1)
  {
    var c: nat, made, parent := CommitLeaves(leaf, enc, levels[0], i, num, segs);
    ghost var first := EditedLeaves(leaf.Cfg(), enc, levels[0], i, num, Concat(segs));
    for j := 1 to |levels|
      invariant c < parent <= |levels[j - 1]| && made != []
      invariant Replaced(levels[j - 1], c, made, parent) == Up(meta.Cfg(), enc, first, j - 1)
    {
      c, made, parent := CommitAbove(meta, enc, levels[j - 1], levels[j], c, made, parent);
    }
    ghost var last := levels[|levels| - 1];
    assert Replaced(last, c, made, parent) == made;
    top := made;
  }

  /** Commits an edit of the tree over `xs`: the new tree is the one over the edited leaves,
      so the tree over the edited elements unless whole leaves were cut off the end. */
  method Commit(leaf: Chunker, meta: Chunker, enc: Encoding, root: Node, i: nat, num: nat, segs: seq<seq<Node>>,
                ghost xs: seq<Node>)
    returns (root': Node)
    requires 0 < leaf.window && 0 < meta.window && IsTree(leaf.Cfg(), meta.Cfg(), enc, xs, root)
    requires i <= |xs| && AllElements(xs) && AllElements(Concat(segs))
    requires Rooted(meta.Cfg(), enc, NewLeaves(leaf.Cfg(), enc, xs, i, num, Concat(segs)))
    ensures IsRoot(meta.Cfg(), enc, NewLeaves(leaf.Cfg(), enc, xs, i, num, Concat(segs)), root')
    ensures !CutsOff(leaf.Cfg(), enc, xs, i, num, Concat(segs)) ==>
            IsTree(leaf.Cfg(), meta.Cfg(), enc, EditedElements(xs, i, num, Concat(segs)), root')
  {
    ghost var leaves, first := Level(leaf.Cfg(), enc, xs), NewLeaves(leaf.Cfg(), enc, xs, i, num, Concat(segs));
    LevelConcat(leaf.Cfg(), enc, xs);
    LevelElements(leaf.Cfg(), enc, xs);
    RootLevels(meta.Cfg(), enc, leaves, root);
    ElementsStay(leaf.Cfg(), enc, leaves, i, num, Concat(segs));
    var levels := LevelsDown([root.entries]);
    var top := CommitLevels(leaf, meta, enc, levels, i, num, segs);
    ghost var height;
    root', height := Grow(meta, enc, top, first, |levels| - 1);
    PrunedIsRoot(meta.Cfg(), enc, first, height);
    root' := Prune(root');
  }

  // ----- when the committed tree is the built tree

  function NumLeaves(t: Node): nat {
    match t
    case Element(_) => 0
    case Chunk(entries) => if entries == [] || entries[0].Element? then 1 else SumLeaves(entries)
  }

  function SumLeaves(xs: seq<Node>): nat {
    if xs == [] then 0 else NumLeaves(xs[0]) + SumLeaves(xs[1..])
  }

  lemma {:induction false} SumConcat(xs: seq<Node>, ys: seq<Node>)
    ensures SumLeaves(xs + ys) == SumLeaves(xs) + SumLeaves(ys)
    decreases |xs|
  {
    if xs == [] {
      assert xs + ys == ys;
    } else {
      assert (xs + ys)[1..] == xs[1..] + ys;
      SumConcat(xs[1..], ys);
    }
  }

  /** The entries above chunks of meta entries stand for as many leaves as those do. */
  lemma {:induction false} MetasSum(level: seq<seq<Node>>)
    requires forall k :: 0 <= k < |level| ==> level[k] != [] && level[k][0].Chunk?
    ensures SumLeaves(Metas(level)) == SumLeaves(Concat(level))
    decreases |level|
  {
    if level != [] {
      MetasSum(level[1..]);
      assert Metas(level)[1..] == Metas(level[1..]);
      SumConcat(level[0], Concat(level[1..]));
    }
  }

  lemma {:induction false} FirstSum(first: seq<seq<Node>>)
    requires forall k :: 0 <= k < |first| ==> AllElements(first[k])
    ensures SumLeaves(Metas(first)) == |first|
    decreases |first|
  {
    if first != [] {
      FirstSum(first[1..]);
      assert Metas(first)[1..] == Metas(first[1..]);
      assert AllElements(first[0]);
    }
  }

  lemma {:induction false} ChunkOfChunks(cfg: Config, enc: Encoding, xs: seq<Node>, k: nat)
    requires k < |Chunks(cfg, enc, xs)| && forall i :: 0 <= i < |xs| ==> xs[i].Chunk?
    ensures Chunks(cfg, enc, xs)[k] != [] && Chunks(cfg, enc, xs)[k][0].Chunk?
    decreases |xs|
  {
    var end := FirstEnd(cfg, enc, xs, 0);
    if k > 0 {
      ChunkOfChunks(cfg, enc, xs[end..], k - 1);
    }
  }

  lemma {:induction false} UpSum(meta: Config, enc: Encoding, first: seq<seq<Node>>, n: nat)
    requires IsFirst(first)
    ensures SumLeaves(Metas(Up(meta, enc, first, n))) == |first|
  {
    if n == 0 {
      FirstSum(first);
    } else {
      var xs := Metas(Up(meta, enc, first, n - 1));
      UpSum(meta, enc, first, n - 1);
      UpNonEmpty(meta, enc, first, n - 1);
      var level: seq<seq<Node>> := Level(meta, enc, xs);
      LevelConcat(meta, enc, xs);
      forall k | 0 <= k < |level| ensures level[k] != [] && level[k][0].Chunk? {
        ChunkOfChunks(meta, enc, xs, k);
      }
      MetasSum(level);
    }
  }

  /** A tree has as many leaves as it was built over. */
  lemma RootLeaves(meta: Config, enc: Encoding, first: seq<seq<Node>>, t: Node)
    requires IsFirst(first) && IsRoot(meta, enc, first, t)
    ensures NumLeaves(t) == |first|
  {
    var n: nat :| RootAt(meta, enc, first, t, n);
    UpSum(meta, enc, first, n);
    var ms := Metas(Up(meta, enc, first, n));
    assert ms == [t] && ms[1..] == [];
  }

  /** The committed tree is the tree built from the edited elements, unless whole leaves
      were cut off the end: then it never is. */
  lemma CommitIsBuild(leaf: Config, meta: Config, enc: Encoding, xs: seq<Node>, i: nat, num: nat,
                      ys: seq<Node>, committed: Node, built: Node)
    requires i <= |xs| && AllElements(xs) && AllElements(ys)
    requires IsRoot(meta, enc, NewLeaves(leaf, enc, xs, i, num, ys), committed)
    requires IsTree(leaf, meta, enc, EditedElements(xs, i, num, ys), built)
    ensures committed == built <==> !CutsOff(leaf, enc, xs, i, num, ys)
  {
    var leaves, zs := Level(leaf, enc, xs), EditedElements(xs, i, num, ys);
    LevelConcat(leaf, enc, xs);
    if CutsOff(leaf, enc, xs, i, num, ys) {
      ElementsStay(leaf, enc, leaves, i, num, ys);
      RootLeaves(meta, enc, NewLeaves(leaf, enc, xs, i, num, ys), committed);
      LevelElements(leaf, enc, zs);
      RootLeaves(meta, enc, Level(leaf, enc, zs), built);
      EarlierLeaves(leaf, enc, leaves, i);
      assert zs[0] == xs[0];
    } else {
      RootUnique(meta, enc, Level(leaf, enc, zs), committed, built);
    }
  }

  lemma ChunkOfOne(cfg: Config, enc: Encoding, x: Node)
    ensures Chunks(cfg, enc, [x]) == [[x]]
  {
    assert FirstEnd(cfg, enc, [x], 0) == 1 && [x][..1] == [x] && [x][1..] == [];
    assert Chunks(cfg, enc, []) == [];
  }

  /** Such an edit: of two leaves the last is removed, and an empty leaf takes its place. */
  lemma LastLeafRemoved(leaf: Config, enc: Encoding, a: Node, b: Node)
    requires Closed(leaf, enc, [a])
    ensures Level(leaf, enc, [a, b]) == [[a], [b]]
    ensures CutsOff(leaf, enc, [a, b], 1, 1, []) && NewLeaves(leaf, enc, [a, b], 1, 1, []) == [[a], []]
    ensures Level(leaf, enc, EditedElements([a, b], 1, 1, [])) == [[a]]
  {
    assert [a, b][..1] == [a] && [a, b][1..] == [b] && [b][1..] == [] && [a][1..] == [];
    assert FirstEnd(leaf, enc, [a, b], 0) == 1;
    ChunkOfOne(leaf, enc, a);
    ChunkOfOne(leaf, enc, b);
    assert Chunks(leaf, enc, [a, b]) == [[a]] + [[b]];
    assert [[a], [b]][1..] == [[b]] && Concat([[b]]) == [b] + [];
    assert Locate([[a], [b]], 1) == Cursor(1, 0);
    assert EditedElements([a, b], 1, 1, []) == [a];
  }

  lemma LevelElements(cfg: Config, enc: Encoding, xs: seq<Node>)
    requires AllElements(xs)
    ensures IsFirst(Level(cfg, enc, xs))
  {
    LevelConcat(cfg, enc, xs);
    forall k | 0 <= k < |Level(cfg, enc, xs)| ensures AllElements(Level(cfg, enc, xs)[k]) {
      if xs != [] {
        ChunkElements(cfg, enc, xs, k);
      }
    }
  }

  /** Elements lie before any leaf but the first. */
  lemma EarlierLeaves(cfg: Config, enc: Encoding, leaves: seq<seq<Node>>, i: nat)
    requires leaves == Level(cfg, enc, Concat(leaves)) && leaves != [] && i <= |Concat(leaves)|
    requires Locate(leaves, i).chunk > 0
    ensures i > 0
  {
    LevelNoneEmpty(cfg, enc, leaves);
  }
}

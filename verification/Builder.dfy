/** Rebuilding one level of a tree after an edit: the entries from the edited chunk on
    are cut anew until a boundary meets the end of an old chunk. */
module Builder {
  import opened Keys
  import opened RollingHash
  import opened Words
  import opened Chunking
  import opened Sequences

  datatype Chunker = Chunker(table: Table<bv32>, pattern: bv32, window: nat, max: nat) {
    function Cfg(): Config { PatternConfig(Uint32(window), table, HasBits(pattern), window, max) }
  }

  method NewHasher(chunker: Chunker) returns (hasher: RollingHasher<bv32>)
    requires 0 < chunker.window
    ensures fresh(hasher) && fresh(hasher.buz) && fresh(hasher.buz.buf)
    ensures hasher.Fixed() && hasher.Valid() && hasher.cfg == chunker.Cfg()
    ensures hasher.since == [] && hasher.resetAt == 0
  {
    Uint32Lawful(chunker.window);
    hasher := new RollingHasher(Uint32(chunker.window), chunker.table, HasBits(chunker.pattern),
      chunker.window, chunker.max);
  }

  // ----- cutting one segment

  /** The entry of a segment that holds the byte at `pos`. */
  function PosToIdx(enc: Encoding, seg: seq<Node>, pos: nat): (idx: nat)
    requires pos < |Encode(enc, seg)|
    ensures idx < |seg|
  {
    var n := |EntryBytes(enc, seg[0])|;
    if pos < n then 0 else 1 + PosToIdx(enc, seg[1..], pos - n)
  }

  lemma {:induction false} PosToIdxHolds(enc: Encoding, seg: seq<Node>, pos: nat)
    requires pos < |Encode(enc, seg)|
    ensures var idx := PosToIdx(enc, seg, pos);
      |Encode(enc, seg[..idx])| <= pos < |Encode(enc, seg[..idx + 1])|
    decreases |seg|
  {
    var n, idx := |EntryBytes(enc, seg[0])|, PosToIdx(enc, seg, pos);
    if pos < n {
      assert seg[..1] == [seg[0]] && [seg[0]][1..] == [];
    } else {
      PosToIdxHolds(enc, seg[1..], pos - n);
      assert seg[..idx][1..] == seg[1..][..idx - 1] && seg[..idx + 1][1..] == seg[1..][..idx];
    }
  }

  lemma EncodePrefix(enc: Encoding, xs: seq<Node>, m: nat)
    requires m <= |xs|
    ensures |Encode(enc, xs[..m])| <= |Encode(enc, xs)|
    ensures Encode(enc, xs)[..|Encode(enc, xs[..m])|] == Encode(enc, xs[..m])
  {
    EncodeConcat(enc, xs[..m], xs[m..]);
    assert xs[..m] + xs[m..] == xs;
  }

  /** The first boundary after `pending` lies at byte `pos` of the segment. */
  ghost predicate FirstBoundary(cfg: Config, enc: Encoding, pending: seq<Node>, seg: seq<Node>, pos: nat) {
    var before, data := Encode(enc, pending), Encode(enc, seg);
    && pos < |data| && Crossed(cfg, before + data[..pos + 1], 0)
    && forall k :: 0 <= k <= pos ==> !Crossed(cfg, before + data[..k], 0)
  }

  lemma CutAt(cfg: Config, enc: Encoding, pending: seq<Node>, seg: seq<Node>, pos: nat)
    requires FirstBoundary(cfg, enc, pending, seg, pos)
    ensures IsCut(cfg, enc, pending + seg[..PosToIdx(enc, seg, pos) + 1])
  {
    var idx := PosToIdx(enc, seg, pos);
    var m, n := |Encode(enc, seg[..idx])|, |Encode(enc, seg[..idx + 1])|;
    PosToIdxHolds(enc, seg, pos);
    EncodeTake(enc, pending, seg, idx);
    EncodeTake(enc, pending, seg, idx + 1);
    CrossedLater(cfg, Encode(enc, pending), Encode(enc, seg), pos + 1, n);
    var chunk := pending + seg[..idx + 1];
    assert chunk[..|chunk| - 1] == pending + seg[..idx];
    assert !Closed(cfg, enc, pending + seg[..idx]);
  }

  lemma EncodeTake(enc: Encoding, pending: seq<Node>, seg: seq<Node>, m: nat)
    requires m <= |seg|
    ensures |Encode(enc, seg[..m])| <= |Encode(enc, seg)|
    ensures Encode(enc, pending + seg[..m]) ==
            Encode(enc, pending) + Encode(enc, seg)[..|Encode(enc, seg[..m])|]
  {
    EncodePrefix(enc, seg, m);
    EncodeConcat(enc, pending, seg[..m]);
  }

  lemma CrossedLater(cfg: Config, before: seq<Byte>, data: seq<Byte>, i: nat, j: nat)
    requires i <= j <= |data| && Crossed(cfg, before + data[..i], 0)
    ensures Crossed(cfg, before + data[..j], 0)
  {
    CrossedGrows(cfg, before + data[..i], data[i..j], 0);
    assert before + data[..i] + data[i..j] == before + data[..j];
  }

  /** The hasher has taken in the entries of the chunk in the making, and met no
      boundary yet. */
  ghost predicate Pending<W(!new)>(hasher: RollingHasher<W>, enc: Encoding, pending: seq<Node>)
    reads hasher, hasher.buz, hasher.buz.buf
  {
    && hasher.Fixed() && hasher.Valid() && hasher.resetAt == 0 && hasher.since == Encode(enc, pending)
    && !hasher.crossedBoundary
  }

  /** Adds a segment to the chunk in the making; the chunk is cut, and a new one begun,
      after every entry that holds a boundary. Whatever comes after, the made chunks are
      the first ones of the whole. */
  method ChunkSegment<W(!new)>(hasher: RollingHasher<W>, enc: Encoding, pending: seq<Node>, seg: seq<Node>,
                      ghost after: seq<Node>)
    returns (made: seq<seq<Node>>, pending': seq<Node>)
    requires Pending(hasher, enc, pending)
    modifies hasher, hasher.buz, hasher.buz.buf
    ensures Pending(hasher, enc, pending')
    ensures Chunks(hasher.cfg, enc, pending + seg + after) == made + Chunks(hasher.cfg, enc, pending' + after)
    ensures pending != [] || seg != [] ==> made != [] || pending' != []
  {
    made, pending' := [], pending;
    var rest := seg;
    ghost var cfg, whole := hasher.cfg, Chunks(hasher.cfg, enc, pending + seg + after);
    ghost var some := pending != [] || seg != [];
    while rest != []
      invariant Pending(hasher, enc, pending')
      invariant some ==> made != [] || pending' != [] || rest != []
      invariant Cutting(cfg, enc, whole, made, pending', rest, after)
      decreases |rest|
    {
      var pos := HashSegment(hasher, enc, pending', rest);
      if pos < |Encode(enc, rest)| {
        var idx := PosToIdx(enc, rest, pos);
        CutAt(cfg, enc, pending', rest, pos);
        CutFirst(cfg, enc, whole, made, pending', rest, idx, after);
        made := made + [pending' + rest[..idx + 1]];
        hasher.ClearLastBoundary();
        pending', rest := [], rest[idx + 1..];
      } else {
        KeptRest(cfg, enc, whole, made, pending', rest, after);
        pending', rest := pending' + rest, [];
      }
    }
    assert pending' + [] == pending';
  }

  /** The made chunks, then the chunks of what is left, are the whole. */
  ghost predicate Cutting(cfg: Config, enc: Encoding, whole: seq<seq<Node>>, made: seq<seq<Node>>,
                          pending: seq<Node>, rest: seq<Node>, after: seq<Node>) {
    whole == made + Chunks(cfg, enc, pending + rest + after)
  }

  lemma CutFirst(cfg: Config, enc: Encoding, whole: seq<seq<Node>>, made: seq<seq<Node>>,
                 pending: seq<Node>, rest: seq<Node>, idx: nat, after: seq<Node>)
    requires Cutting(cfg, enc, whole, made, pending, rest, after)
    requires idx < |rest| && IsCut(cfg, enc, pending + rest[..idx + 1])
    ensures Cutting(cfg, enc, whole, made + [pending + rest[..idx + 1]], [], rest[idx + 1..], after)
  {
    var chunk := pending + rest[..idx + 1];
    assert pending + rest + after == chunk + ([] + rest[idx + 1..] + after);
    ChunksCons(cfg, enc, chunk, [] + rest[idx + 1..] + after);
  }

  lemma KeptRest(cfg: Config, enc: Encoding, whole: seq<seq<Node>>, made: seq<seq<Node>>,
                 pending: seq<Node>, rest: seq<Node>, after: seq<Node>)
    requires Cutting(cfg, enc, whole, made, pending, rest, after)
    ensures Cutting(cfg, enc, whole, made, pending + rest, [], after)
  {
    assert pending + rest + [] == pending + rest;
  }

  /** Hashes a segment up to its first boundary. */
  method HashSegment<W(!new)>(hasher: RollingHasher<W>, enc: Encoding, pending: seq<Node>, seg: seq<Node>)
    returns (pos: nat)
    requires Pending(hasher, enc, pending)
    modifies hasher, hasher.buz, hasher.buz.buf
    ensures hasher.Fixed() && hasher.Valid()
    ensures pos < |Encode(enc, seg)| ==> FirstBoundary(hasher.cfg, enc, pending, seg, pos)
    ensures pos >= |Encode(enc, seg)| ==> Pending(hasher, enc, pending + seg)
  {
    ghost var before := Encode(enc, pending);
    var data := Encode(enc, seg);
    EncodeConcat(enc, pending, seg);
    assert before + data[..0] == before;
    pos := hasher.TryHashBytes(data);
    assert data[..|data|] == data;
  }

  method ChunkSegments<W(!new)>(hasher: RollingHasher<W>, enc: Encoding, segs: seq<seq<Node>>, ghost after: seq<Node>)
    returns (made: seq<seq<Node>>, pending: seq<Node>)
    requires Pending(hasher, enc, [])
    modifies hasher, hasher.buz, hasher.buz.buf
    ensures Pending(hasher, enc, pending)
    ensures Chunks(hasher.cfg, enc, Concat(segs) + after) == made + Chunks(hasher.cfg, enc, pending + after)
  {
    made, pending := [], [];
    assert segs[0..] == segs && [] + Concat(segs) == Concat(segs);
    for i := 0 to |segs|
      invariant Pending(hasher, enc, pending)
      invariant Chunks(hasher.cfg, enc, Concat(segs) + after) ==
                made + Chunks(hasher.cfg, enc, pending + Concat(segs[i..]) + after)
    {
      SegmentFirst(pending, segs, i, after);
      var more;
      more, pending := ChunkSegment(hasher, enc, pending, segs[i], Concat(segs[i + 1..]) + after);
      PlusAssociates(pending, Concat(segs[i + 1..]), after);
      made := made + more;
    }
    assert pending + [] == pending;
  }

  lemma SegmentFirst(pending: seq<Node>, segs: seq<seq<Node>>, i: nat, after: seq<Node>)
    requires i < |segs|
    ensures pending + Concat(segs[i..]) + after == pending + segs[i] + (Concat(segs[i + 1..]) + after)
    ensures pending + Concat(segs[i..]) == pending + segs[i] + Concat(segs[i + 1..])
  {
    assert segs[i..][0] == segs[i] && segs[i..][1..] == segs[i + 1..];
  }

  // ----- positions in a level

  /** The chunks of a level, one of them empty if there are no entries. */
  function Level(cfg: Config, enc: Encoding, xs: seq<Node>): seq<seq<Node>> {
    if xs == [] then [[]] else Chunks(cfg, enc, xs)
  }

  ghost predicate IsLevel(cfg: Config, enc: Encoding, level: seq<seq<Node>>) {
    level == Level(cfg, enc, Concat(level))
  }

  lemma {:induction false} ChunksNonEmpty(cfg: Config, enc: Encoding, xs: seq<Node>, k: nat)
    requires k < |Chunks(cfg, enc, xs)|
    ensures Chunks(cfg, enc, xs)[k] != []
    decreases |xs|
  {
    var end := FirstEnd(cfg, enc, xs, 0);
    if k > 0 {
      ChunksNonEmpty(cfg, enc, xs[end..], k - 1);
    }
  }

  ghost predicate NoneEmpty(level: seq<seq<Node>>) {
    forall k :: 0 <= k < |level| ==> level[k] != []
  }

  lemma LevelNoneEmpty(cfg: Config, enc: Encoding, level: seq<seq<Node>>)
    requires IsLevel(cfg, enc, level)
    ensures level == [[]] || NoneEmpty(level)
  {
    if level != [[]] {
      forall k | 0 <= k < |level| ensures level[k] != [] {
        ChunksNonEmpty(cfg, enc, Concat(level), k);
      }
    }
  }

  lemma RestStep(level: seq<seq<Node>>, cur: Cursor)
    requires At(level, cur) && cur.idx < |level[cur.chunk]|
    ensures Rest(level, cur) != []
    ensures cur.idx + 1 < |level[cur.chunk]| || cur.chunk == |level| - 1 ==>
      && At(level, Cursor(cur.chunk, cur.idx + 1))
      && Rest(level, Cursor(cur.chunk, cur.idx + 1)) == Rest(level, cur)[1..]
    ensures cur.idx + 1 == |level[cur.chunk]| && cur.chunk < |level| - 1 && level[cur.chunk + 1] != [] ==>
      && At(level, Cursor(cur.chunk + 1, 0))
      && Rest(level, Cursor(cur.chunk + 1, 0)) == Rest(level, cur)[1..]
  {
    if cur.chunk < |level| - 1 {
      assert level[cur.chunk + 1..][0] == level[cur.chunk + 1];
      assert level[cur.chunk + 1..][1..] == level[cur.chunk + 2..];
    }
  }

  /** Passes over up to `num` entries. The parent's cursor, which points to the current
      chunk, moves on with every chunk that is left behind. */
  method SkipEntries(level: seq<seq<Node>>, at: Cursor, num: nat) returns (cur: Cursor, parent: nat)
    requires At(level, at) && (level == [[]] || NoneEmpty(level))
    ensures At(level, cur) && at.chunk <= cur.chunk
    ensures Rest(level, cur) == Rest(level, at)[Min(num, |Rest(level, at)|)..]
    ensures parent == if Rest(level, cur) == [] && Rest(level, at) != [] then |level| else cur.chunk
  {
    cur, parent := at, at.chunk;
    ghost var whole := Rest(level, at);
    if cur.idx == |level[cur.chunk]| {
      return;
    }
    for i := 0 to num
      invariant At(level, cur) && at.chunk <= cur.chunk == parent && cur.idx < |level[cur.chunk]|
      invariant i < |whole| && Rest(level, cur) == whole[i..]
    {
      RestStep(level, cur);
      assert whole[i..][1..] == whole[i + 1..];
      cur := Cursor(cur.chunk, cur.idx + 1);
      if cur.idx == |level[cur.chunk]| {
        parent := parent + 1;
        if parent == |level| {
          return;
        }
        cur := Cursor(cur.chunk + 1, 0);
      }
    }
  }

  // ----- rebuilding a level

  /** The entries of a level after an edit: from `at` on, `num` entries give way to the
      entries of `segs`. */
  function Edited(level: seq<seq<Node>>, at: Cursor, num: nat, segs: seq<seq<Node>>): seq<Node>
    requires At(level, at)
  {
    Before(level, at) + Concat(segs) + Rest(level, at)[Min(num, |Rest(level, at)|)..]
  }

  /** Adds whole old chunks, until a boundary meets the end of one or the entries end. */
  method ChunkNodes<W(!new)>(hasher: RollingHasher<W>, enc: Encoding, level: seq<seq<Node>>, from: nat,
                             first: seq<seq<Node>>, open: seq<Node>, ghost whole: seq<seq<Node>>)
    returns (made: seq<seq<Node>>, pending: seq<Node>, parent: nat)
    requires Pending(hasher, enc, open) && from <= |level|
    requires Midway(hasher.cfg, enc, whole, first, open, level, from)
    modifies hasher, hasher.buz, hasher.buz.buf
    ensures Pending(hasher, enc, pending)
    ensures from <= parent <= |level| && (|pending| > 0 ==> parent == |level|)
    ensures Midway(hasher.cfg, enc, whole, made, pending, level, parent)
  {
    made, pending, parent := first, open, from;
    while |pending| > 0 && parent < |level|
      invariant Pending(hasher, enc, pending) && from <= parent <= |level|
      invariant Midway(hasher.cfg, enc, whole, made, pending, level, parent)
      decreases |level| - parent
    {
      made, pending, parent := ChunkNode(hasher, enc, level, parent, made, pending, whole);
    }
  }

  /** Adds one whole old chunk. */
  method ChunkNode<W(!new)>(hasher: RollingHasher<W>, enc: Encoding, level: seq<seq<Node>>, parent: nat,
                            made: seq<seq<Node>>, pending: seq<Node>, ghost whole: seq<seq<Node>>)
    returns (made': seq<seq<Node>>, pending': seq<Node>, parent': nat)
    requires Pending(hasher, enc, pending) && parent < |level| && |pending| > 0
    requires Midway(hasher.cfg, enc, whole, made, pending, level, parent)
    modifies hasher, hasher.buz, hasher.buz.buf
    ensures Pending(hasher, enc, pending') && parent' == parent + 1
    ensures Midway(hasher.cfg, enc, whole, made', pending', level, parent')
  {
    var first;
    first, pending' := ChunkSegment(hasher, enc, pending, level[parent], Concat(level[parent + 1..]));
    CutOn(hasher.cfg, enc, whole, made, pending, level, parent, first, pending');
    made', parent' := made + first, parent + 1;
  }

  /** Something has been cut or is pending, and what is left is still to be cut. */
  ghost predicate Midway(cfg: Config, enc: Encoding, whole: seq<seq<Node>>, made: seq<seq<Node>>,
                         pending: seq<Node>, level: seq<seq<Node>>, parent: nat)
    requires parent <= |level|
  {
    |made| + |pending| > 0 && CutUpTo(cfg, enc, whole, made, pending, level, parent)
  }

  /** The made chunks, then the chunks of what is left of the level, are the whole. */
  ghost predicate CutUpTo(cfg: Config, enc: Encoding, whole: seq<seq<Node>>, made: seq<seq<Node>>,
                          pending: seq<Node>, level: seq<seq<Node>>, parent: nat)
    requires parent <= |level|
  {
    whole == made + Chunks(cfg, enc, pending + Concat(level[parent..]))
  }

  lemma CutOn(cfg: Config, enc: Encoding, whole: seq<seq<Node>>, made: seq<seq<Node>>, pending: seq<Node>,
              level: seq<seq<Node>>, parent: nat, first: seq<seq<Node>>, left: seq<Node>)
    requires parent < |level| && CutUpTo(cfg, enc, whole, made, pending, level, parent)
    requires Chunks(cfg, enc, pending + level[parent] + Concat(level[parent + 1..])) ==
             first + Chunks(cfg, enc, left + Concat(level[parent + 1..]))
    ensures CutUpTo(cfg, enc, whole, made + first, left, level, parent + 1)
  {
    SegmentFirst(pending, level, parent, []);
    PlusAssociates(made, first, Chunks(cfg, enc, left + Concat(level[parent + 1..])));
  }

  /** Cuts the old entries from the cursor on, until a boundary meets the end of an old
      chunk or the entries end; `parent` is the parent's cursor. */
  method ChunkRest<W(!new)>(hasher: RollingHasher<W>, enc: Encoding, level: seq<seq<Node>>, cur: Cursor,
                            open: seq<Node>)
    returns (made: seq<seq<Node>>, pending: seq<Node>, parent: nat)
    requires Pending(hasher, enc, open)
    requires At(level, cur) && cur.idx < |level[cur.chunk]|
    modifies hasher, hasher.buz, hasher.buz.buf
    ensures Pending(hasher, enc, pending)
    ensures cur.chunk < parent <= |level| && (pending != [] ==> parent == |level|)
    ensures Chunks(hasher.cfg, enc, open + Rest(level, cur)) ==
            made + Chunks(hasher.cfg, enc, pending + Concat(level[parent..]))
    ensures made != [] || pending != []
  {
    ghost var after := Concat(level[cur.chunk + 1..]);
    PlusAssociates(open, level[cur.chunk][cur.idx..], after);
    ghost var whole := Chunks(hasher.cfg, enc, open + Rest(level, cur));
    var first, left := ChunkSegment(hasher, enc, open, level[cur.chunk][cur.idx..], after);
    made, pending, parent := ChunkNodes(hasher, enc, level, cur.chunk + 1, first, left, whole);
  }

  /** All entries from a chunk on are removed and none are added, so nothing is left to
      cut, though earlier chunks remain. */
  ghost predicate TailRemoved(level: seq<seq<Node>>, at: Cursor, num: nat, segs: seq<seq<Node>>)
    requires At(level, at)
  {
    at.chunk > 0 && at.idx == 0 && Concat(segs) == [] && |Rest(level, at)| <= num
  }

  lemma EditedSplit(level: seq<seq<Node>>, at: Cursor, num: nat, segs: seq<seq<Node>>, rest: seq<Node>)
    requires At(level, at) && rest == Rest(level, at)[Min(num, |Rest(level, at)|)..]
    ensures Edited(level, at, num, segs) ==
            Concat(level[..at.chunk]) + (Concat([level[at.chunk][..at.idx]] + segs) + rest)
  {
    var pre := level[at.chunk][..at.idx];
    assert ([pre] + segs)[0] == pre && ([pre] + segs)[1..] == segs;
  }

  /** The chunks before a position stay, whatever follows. */
  lemma PrefixStays(cfg: Config, enc: Encoding, level: seq<seq<Node>>, c: nat, ys: seq<Node>)
    requires IsLevel(cfg, enc, level) && c < |level|
    ensures Chunks(cfg, enc, Concat(level[..c]) + ys) == level[..c] + Chunks(cfg, enc, ys)
  {
    if Concat(level) == [] {
      assert level == [[]] && level[..c] == [];
      assert Concat(level[..c]) + ys == ys;
    } else {
      ChunksCut(cfg, enc, Concat(level), c);
      ChunksAfter(cfg, enc, level[..c], ys);
    }
  }

  /** The chunks from a position on are those of their entries. */
  lemma SuffixStays(cfg: Config, enc: Encoding, level: seq<seq<Node>>, k: nat)
    requires IsLevel(cfg, enc, level) && 0 < k <= |level|
    ensures Chunks(cfg, enc, Concat(level[k..])) == level[k..]
  {
    if Concat(level) == [] {
      assert level == [[]] && level[k..] == [];
    } else {
      ChunksTail(cfg, enc, Concat(level), k);
    }
  }

  /** What the last chunk and the untouched chunks amount to. */
  lemma LastChunk(cfg: Config, enc: Encoding, level: seq<seq<Node>>, made: seq<seq<Node>>, pending: seq<Node>, k: nat)
    requires IsLevel(cfg, enc, level) && 0 < k <= |level| && (pending != [] ==> k == |level|)
    requires !Closed(cfg, enc, pending)
    ensures made + Chunks(cfg, enc, pending + Concat(level[k..])) ==
            (if pending == [] then made else made + [pending]) + level[k..]
  {
    SuffixStays(cfg, enc, level, k);
    if pending == [] {
      assert pending + Concat(level[k..]) == Concat(level[k..]);
    } else {
      assert level[k..] == [];
      assert pending + Concat(level[k..]) == pending;
      ChunksOpen(cfg, enc, pending);
    }
  }

  /** The entries from the edited chunk on, and their chunks. */
  lemma EditedChunks(cfg: Config, enc: Encoding, level: seq<seq<Node>>, at: Cursor, num: nat, segs: seq<seq<Node>>,
                     rest: seq<Node>, made: seq<seq<Node>>, parent: nat)
    requires IsLevel(cfg, enc, level) && At(level, at) && at.chunk < parent <= |level|
    requires rest == Rest(level, at)[Min(num, |Rest(level, at)|)..]
    requires Chunks(cfg, enc, Concat([level[at.chunk][..at.idx]] + segs) + rest) == made + level[parent..]
    requires made == [] ==> rest == [] && parent == |level|
    ensures Rebuilt(cfg, enc, level, at, num, segs, if made == [] then [[]] else made, parent)
  {
    var xs, pre := Edited(level, at, num, segs), level[at.chunk][..at.idx];
    var tail := Concat([pre] + segs) + rest;
    EditedSplit(level, at, num, segs, rest);
    PrefixStays(cfg, enc, level, at.chunk, tail);
    assert ([pre] + segs)[0] == pre && ([pre] + segs)[1..] == segs;
    assert tail == [] <==> at.idx == 0 && Concat(segs) == [] && |Rest(level, at)| <= num;
    assert level[..at.chunk] + (made + level[parent..]) == level[..at.chunk] + made + level[parent..];
    if made == [] {
      assert tail == [];
      assert at.chunk == 0 ==> level[..at.chunk] == [];
      assert at.chunk == 0 ==> Concat(level[..at.chunk]) + tail == [];
    }
  }

  /** The level with new chunks in place of those from `at.chunk` to `parent` is the level
      of the edited entries, with one empty chunk too many if a tail was removed. */
  ghost predicate Rebuilt(cfg: Config, enc: Encoding, level: seq<seq<Node>>, at: Cursor, num: nat,
                          segs: seq<seq<Node>>, made: seq<seq<Node>>, parent: nat)
    requires At(level, at)
  {
    && at.chunk < parent <= |level| && made != []
    && var xs := Edited(level, at, num, segs);
       level[..at.chunk] + made + level[parent..] ==
         if TailRemoved(level, at, num, segs) then Chunks(cfg, enc, xs) + [[]] else Level(cfg, enc, xs)
  }

  /** Rebuilds a level after an edit at `at`: returns the new chunks and the parent's
      cursor, up to which its old entries are dropped. */
  method RebuildLevel(chunker: Chunker, enc: Encoding, level: seq<seq<Node>>, at: Cursor, num: nat,
                      segs: seq<seq<Node>>)
    returns (made: seq<seq<Node>>, parent: nat)
    requires 0 < chunker.window && IsLevel(chunker.Cfg(), enc, level) && At(level, at)
    ensures Rebuilt(chunker.Cfg(), enc, level, at, num, segs, made, parent)
  {
    LevelNoneEmpty(chunker.Cfg(), enc, level);
    var hasher := NewHasher(chunker);
    var cur;
    cur, parent := SkipEntries(level, at, num);
    if parent < |level| {
      parent := parent + 1;
    }
    ghost var rest := Rest(level, cur);
    var pending;
    made, pending := ChunkSegments(hasher, enc, [level[at.chunk][..at.idx]] + segs, rest);
    if cur.idx < |level[cur.chunk]| {
      var more;
      ghost var first := made;
      more, pending, parent := ChunkRest(hasher, enc, level, cur, pending);
      made := made + more;
      PlusAssociates(first, more, Chunks(hasher.cfg, enc, pending + Concat(level[parent..])));
    }
    LastChunk(hasher.cfg, enc, level, made, pending, parent);
    if pending != [] {
      made := made + [pending];
    }
    EditedChunks(hasher.cfg, enc, level, at, num, segs, rest, made, parent);
    if made == [] {
      made := [[]];
    }
  }

  /** Builds a level from nothing. */
  method BuildLevel(chunker: Chunker, enc: Encoding, segs: seq<seq<Node>>) returns (made: seq<seq<Node>>)
    requires 0 < chunker.window
    ensures made == Level(chunker.Cfg(), enc, Concat(segs))
  {
    var hasher := NewHasher(chunker);
    var pending;
    made, pending := ChunkSegments(hasher, enc, segs, []);
    assert Concat(segs) + [] == Concat(segs) && pending + [] == pending;
    if pending != [] {
      ChunksOpen(hasher.cfg, enc, pending);
      made := made + [pending];
    }
    if made == [] {
      made := [[]];
    }
  }
}

/** Cutting a sequence of entries into chunks at the boundaries the rolling hash
    detects, and why the cut depends on the entries alone. */
module Chunking {
  import opened Keys
  import opened RollingHash
  import opened Sequences

  /** What a node holds: an element of a leaf, or an entry of a meta node, which stands
      for the chunk it points to. */
  datatype Node = Element(bytes: seq<Byte>) | Chunk(entries: seq<Node>)

  /** How a meta entry is encoded: counts, key and hash of the chunk it points to. */
  type Encoding = seq<Node> -> seq<Byte>

  function EntryBytes(enc: Encoding, x: Node): seq<Byte> {
    match x
    case Element(bytes) => bytes
    case Chunk(entries) => enc(entries)
  }

  function Encode(enc: Encoding, xs: seq<Node>): seq<Byte> {
    if xs == [] then [] else EntryBytes(enc, xs[0]) + Encode(enc, xs[1..])
  }

  lemma {:induction false} EncodeConcat(enc: Encoding, xs: seq<Node>, ys: seq<Node>)
    ensures Encode(enc, xs + ys) == Encode(enc, xs) + Encode(enc, ys)
    decreases |xs|
  {
    if xs == [] {
      assert xs + ys == ys;
    } else {
      assert (xs + ys)[1..] == xs[1..] + ys;
      EncodeConcat(enc, xs[1..], ys);
    }
  }

  // ----- the canonical chunks

  /** The bytes of the entries hold a boundary. */
  predicate Closed(cfg: Config, enc: Encoding, xs: seq<Node>) {
    Crossed(cfg, Encode(enc, xs), 0)
  }

  /** A chunk that ends with the entry in which its first boundary lies. */
  predicate IsCut(cfg: Config, enc: Encoding, xs: seq<Node>) {
    xs != [] && Closed(cfg, enc, xs) && !Closed(cfg, enc, xs[..|xs| - 1])
  }

  /** Where the first chunk of `xs` ends, if not before the first `m` entries do. */
  function FirstEnd(cfg: Config, enc: Encoding, xs: seq<Node>, m: nat): (end: nat)
    requires m <= |xs|
    ensures m <= end <= |xs| && (m < |xs| ==> m < end)
    decreases |xs| - m
  {
    if m == |xs| then m
    else if Closed(cfg, enc, xs[..m + 1]) then m + 1
    else FirstEnd(cfg, enc, xs, m + 1)
  }

  function Chunks(cfg: Config, enc: Encoding, xs: seq<Node>): seq<seq<Node>>
    decreases |xs|
  {
    if xs == [] then []
    else
      var end := FirstEnd(cfg, enc, xs, 0);
      [xs[..end]] + Chunks(cfg, enc, xs[end..])
  }

  lemma {:induction false} CrossedGrows(cfg: Config, a: seq<Byte>, b: seq<Byte>, from: nat)
    requires Crossed(cfg, a, from)
    ensures Crossed(cfg, a + b, from)
    decreases |b|
  {
    if b == [] {
      assert a + b == a;
    } else {
      CrossedGrows(cfg, a, b[..|b| - 1], from);
      assert (a + b)[..|a + b| - 1] == a + b[..|b| - 1];
    }
  }

  lemma ClosedGrows(cfg: Config, enc: Encoding, xs: seq<Node>, ys: seq<Node>)
    requires Closed(cfg, enc, xs)
    ensures Closed(cfg, enc, xs + ys)
  {
    EncodeConcat(enc, xs, ys);
    CrossedGrows(cfg, Encode(enc, xs), Encode(enc, ys), 0);
  }

  lemma {:induction false} FirstEndAt(cfg: Config, enc: Encoding, xs: seq<Node>, ys: seq<Node>, m: nat)
    requires IsCut(cfg, enc, xs) && m < |xs|
    ensures FirstEnd(cfg, enc, xs + ys, m) == |xs|
    decreases |xs| - m
  {
    var prefix := xs[..m + 1];
    assert (xs + ys)[..m + 1] == prefix;
    if m + 1 < |xs| {
      FirstEndAt(cfg, enc, xs, ys, m + 1);
      assert prefix + xs[m + 1..|xs| - 1] == xs[..|xs| - 1];
      if Closed(cfg, enc, prefix) {
        ClosedGrows(cfg, enc, prefix, xs[m + 1..|xs| - 1]);
      }
    } else {
      assert prefix == xs;
    }
  }

  /** A cut chunk is the first chunk of whatever begins with it. */
  lemma ChunksCons(cfg: Config, enc: Encoding, xs: seq<Node>, ys: seq<Node>)
    requires IsCut(cfg, enc, xs)
    ensures Chunks(cfg, enc, xs + ys) == [xs] + Chunks(cfg, enc, ys)
  {
    FirstEndAt(cfg, enc, xs, ys, 0);
    assert (xs + ys)[..|xs|] == xs && (xs + ys)[|xs|..] == ys;
  }

  ghost predicate AllCut(cfg: Config, enc: Encoding, chunks: seq<seq<Node>>) {
    forall k :: 0 <= k < |chunks| ==> IsCut(cfg, enc, chunks[k])
  }

  /** Chunking forgets what lies before a cut. */
  lemma {:induction false} ChunksAfter(cfg: Config, enc: Encoding, chunks: seq<seq<Node>>, ys: seq<Node>)
    requires AllCut(cfg, enc, chunks)
    ensures Chunks(cfg, enc, Concat(chunks) + ys) == chunks + Chunks(cfg, enc, ys)
    decreases |chunks|
  {
    if chunks == [] {
      assert Concat(chunks) + ys == ys;
    } else {
      var first, rest := chunks[0], chunks[1..];
      ChunksAfter(cfg, enc, rest, ys);
      ChunksCons(cfg, enc, first, Concat(rest) + ys);
      PlusAssociates(first, Concat(rest), ys);
      PlusAssociates([first], rest, Chunks(cfg, enc, ys));
      assert chunks == [first] + rest;
    }
  }

  lemma {:induction false} FirstEndOpen(cfg: Config, enc: Encoding, xs: seq<Node>, m: nat)
    requires m <= |xs| && !Closed(cfg, enc, xs)
    ensures FirstEnd(cfg, enc, xs, m) == |xs|
    decreases |xs| - m
  {
    if m < |xs| {
      FirstEndOpen(cfg, enc, xs, m + 1);
      assert xs[..m + 1] + xs[m + 1..] == xs;
      if Closed(cfg, enc, xs[..m + 1]) {
        ClosedGrows(cfg, enc, xs[..m + 1], xs[m + 1..]);
      }
    }
  }

  /** Entries without a boundary form one chunk. */
  lemma ChunksOpen(cfg: Config, enc: Encoding, xs: seq<Node>)
    requires xs != [] && !Closed(cfg, enc, xs)
    ensures Chunks(cfg, enc, xs) == [xs]
  {
    FirstEndOpen(cfg, enc, xs, 0);
    assert xs[..|xs|] == xs && xs[|xs|..] == [];
  }

  lemma {:induction false} FirstEndCloses(cfg: Config, enc: Encoding, xs: seq<Node>, m: nat)
    requires m <= |xs| && !Closed(cfg, enc, xs[..m])
    ensures FirstEnd(cfg, enc, xs, m) < |xs| ==> IsCut(cfg, enc, xs[..FirstEnd(cfg, enc, xs, m)])
    decreases |xs| - m
  {
    if m < |xs| {
      if Closed(cfg, enc, xs[..m + 1]) {
        assert xs[..m + 1][..m] == xs[..m];
      } else {
        FirstEndCloses(cfg, enc, xs, m + 1);
      }
    }
  }

  lemma {:induction false} ChunksConcat(cfg: Config, enc: Encoding, xs: seq<Node>)
    ensures Concat(Chunks(cfg, enc, xs)) == xs
    decreases |xs|
  {
    if xs != [] {
      var end := FirstEnd(cfg, enc, xs, 0);
      ChunksConcat(cfg, enc, xs[end..]);
      assert Chunks(cfg, enc, xs)[1..] == Chunks(cfg, enc, xs[end..]) && xs == xs[..end] + xs[end..];
    }
  }

  /** A tail of the chunks is the chunking of its entries. */
  lemma {:induction false} ChunksTail(cfg: Config, enc: Encoding, xs: seq<Node>, k: nat)
    requires k <= |Chunks(cfg, enc, xs)|
    ensures Chunks(cfg, enc, Concat(Chunks(cfg, enc, xs)[k..])) == Chunks(cfg, enc, xs)[k..]
    decreases |xs|
  {
    var cs := Chunks(cfg, enc, xs);
    if k == 0 {
      ChunksConcat(cfg, enc, xs);
      assert cs[0..] == cs;
    } else {
      var end := FirstEnd(cfg, enc, xs, 0);
      ChunksTail(cfg, enc, xs[end..], k - 1);
      assert cs[1..] == Chunks(cfg, enc, xs[end..]) && cs[k..] == cs[1..][k - 1..];
    }
  }

  /** All chunks but the last are cut. */
  lemma {:induction false} ChunksCut(cfg: Config, enc: Encoding, xs: seq<Node>, k: nat)
    requires k < |Chunks(cfg, enc, xs)|
    ensures AllCut(cfg, enc, Chunks(cfg, enc, xs)[..k])
    decreases |xs|
  {
    if k > 0 {
      var cs := Chunks(cfg, enc, xs);
      var end := FirstIsCut(cfg, enc, xs);
      ChunksCut(cfg, enc, xs[end..], k - 1);
      CutCons(cfg, enc, cs[0], cs[1..][..k - 1]);
      assert cs[..k] == [cs[0]] + cs[1..][..k - 1];
    }
  }

  lemma {:induction false} FirstIsCut(cfg: Config, enc: Encoding, xs: seq<Node>) returns (end: nat)
    requires |Chunks(cfg, enc, xs)| > 1
    ensures 0 < end < |xs| && Chunks(cfg, enc, xs)[1..] == Chunks(cfg, enc, xs[end..])
    ensures IsCut(cfg, enc, Chunks(cfg, enc, xs)[0])
  {
    end := FirstEnd(cfg, enc, xs, 0);
    assert Encode(enc, xs[..0]) == [];
    FirstEndCloses(cfg, enc, xs, 0);
  }

  lemma CutCons(cfg: Config, enc: Encoding, x: seq<Node>, rest: seq<seq<Node>>)
    requires IsCut(cfg, enc, x) && AllCut(cfg, enc, rest)
    ensures AllCut(cfg, enc, [x] + rest)
  {
    forall k | 0 <= k < |[x] + rest| ensures IsCut(cfg, enc, ([x] + rest)[k]) {
      assert k > 0 ==> ([x] + rest)[k] == rest[k - 1];
    }
  }

  /** Two sequences that share their entries from a cut on chunk them alike. */
  lemma SharedTail(cfg: Config, enc: Encoding, xs: seq<Node>, ys: seq<Node>, i: nat, j: nat)
    requires i <= |Chunks(cfg, enc, xs)| && j <= |Chunks(cfg, enc, ys)|
    requires Concat(Chunks(cfg, enc, xs)[i..]) == Concat(Chunks(cfg, enc, ys)[j..])
    ensures Chunks(cfg, enc, xs)[i..] == Chunks(cfg, enc, ys)[j..]
  {
    ChunksTail(cfg, enc, xs, i);
    ChunksTail(cfg, enc, ys, j);
  }
}

/** The rolling hash over a window of bytes, and the boundaries it detects. */
module RollingHash {
  import opened Keys
  import opened Outcomes

  // ----- words

  /** The operations on words: exclusive or, rotation by one bit, and rotation by the size
      of the window. */
  datatype Ops<!W> = Ops(zero: W, xor: (W, W) -> W, rot: W -> W, rotN: W -> W)

  /** Rotation by `k` bits, one bit at a time. */
  function RotateBy<W>(rot: W -> W, x: W, k: nat): W {
    if k == 0 then x else rot(RotateBy(rot, x, k - 1))
  }

  ghost predicate Neutral<W(!new)>(ops: Ops<W>) {
    && ops.rot(ops.zero) == ops.zero
    && (forall x {:trigger ops.xor(x, ops.zero)} :: ops.xor(x, ops.zero) == x)
    && (forall x {:trigger ops.xor(ops.zero, x)} :: ops.xor(ops.zero, x) == x)
  }

  ghost predicate Regroups<W(!new)>(ops: Ops<W>) {
    forall r, d, t {:trigger ops.xor(ops.rot(r), ops.xor(ops.rot(d), t))} ::
      ops.xor(ops.rot(r), ops.xor(ops.rot(d), t)) == ops.xor(ops.rot(ops.xor(r, d)), t)
  }

  ghost predicate Cancels<W(!new)>(ops: Ops<W>) {
    forall r, d, t {:trigger ops.xor(ops.xor(ops.rot(ops.xor(r, d)), ops.rot(r)), t)} ::
      ops.xor(ops.xor(ops.rot(ops.xor(r, d)), ops.rot(r)), t) == ops.xor(ops.rot(d), t)
  }

  ghost predicate Turns<W(!new)>(ops: Ops<W>, n: nat) {
    forall x {:trigger ops.rotN(x)} :: ops.rotN(x) == RotateBy(ops.rot, x, n)
  }

  /** Rotation distributes over exclusive or, which cancels; rotation by the size of the
      window `n` is `n` rotations. */
  ghost predicate Lawful<W(!new)>(ops: Ops<W>, n: nat) {
    Neutral(ops) && Regroups(ops) && Cancels(ops) && Turns(ops, n)
  }

  // ----- the digest of a window

  /** The word of each byte. */
  type Table<W> = Byte -> W

  /** The exclusive or of the table words of all bytes, each rotated by its age. */
  function Digest<W>(ops: Ops<W>, table: Table<W>, bytes: seq<Byte>): W
  {
    if bytes == [] then ops.zero
    else ops.xor(RotateBy(ops.rot, table(bytes[0]), |bytes| - 1), Digest(ops, table, bytes[1..]))
  }

  /** The last `n` bytes, or all if there are fewer. */
  function Last(bytes: seq<Byte>, n: nat): seq<Byte> {
    if |bytes| <= n then bytes else bytes[|bytes| - n..]
  }

  lemma {:induction false} DigestAppend<W(!new)>(ops: Ops<W>, n: nat, table: Table<W>, bytes: seq<Byte>, b: Byte)
    requires Lawful(ops, n)
    ensures Digest(ops, table, bytes + [b]) == ops.xor(ops.rot(Digest(ops, table, bytes)), table(b))
    decreases |bytes|
  {
    if bytes == [] {
      assert bytes + [b] == [b] && [b][1..] == [];
    } else {
      var all := bytes + [b];
      assert all[1..] == bytes[1..] + [b] && all[0] == bytes[0];
      DigestAppend(ops, n, table, bytes[1..], b);
      var r, d := RotateBy(ops.rot, table(bytes[0]), |bytes| - 1), Digest(ops, table, bytes[1..]);
      assert ops.xor(ops.rot(r), ops.xor(ops.rot(d), table(b))) == ops.xor(ops.rot(ops.xor(r, d)), table(b));
    }
  }

  /** Taking in a byte and dropping the oldest one. */
  lemma DigestSlide<W(!new)>(ops: Ops<W>, table: Table<W>, bytes: seq<Byte>, b: Byte)
    requires bytes != [] && Lawful(ops, |bytes|)
    ensures Digest(ops, table, bytes[1..] + [b]) ==
            ops.xor(ops.xor(ops.rot(Digest(ops, table, bytes)), ops.rotN(table(bytes[0]))), table(b))
  {
    DigestAppend(ops, |bytes|, table, bytes[1..], b);
    var r, d := RotateBy(ops.rot, table(bytes[0]), |bytes| - 1), Digest(ops, table, bytes[1..]);
    assert ops.xor(ops.xor(ops.rot(ops.xor(r, d)), ops.rot(r)), table(b)) == ops.xor(ops.rot(d), table(b));
  }

  lemma LastAppend(bytes: seq<Byte>, b: Byte, n: nat)
    requires 0 < n
    ensures |bytes| < n ==> Last(bytes + [b], n) == Last(bytes, n) + [b]
    ensures |bytes| >= n ==> Last(bytes + [b], n) == Last(bytes, n)[1..] + [b]
  {
  }

  lemma CircularSlide(buf: seq<Byte>, p: nat, b: Byte)
    requires p < |buf|
    ensures var buf' := buf[p := b];
      buf'[p + 1..] + buf'[..p + 1] == (buf[p..] + buf[..p])[1..] + [b]
  {
  }

  /** The rolling hash: its state is the digest of the last `n` bytes since the last
      reset, kept in a circular buffer. */
  class BuzHash<W(!new)> {
    const ops: Ops<W>
    const table: Table<W>
    const n: nat
    const buf: array<Byte>
    var state: W
    var bufpos: nat
    var overflow: bool
    ghost var history: seq<Byte>

    /** The buffered bytes, oldest first. */
    ghost function Window(): seq<Byte>
      requires bufpos <= buf.Length
      reads this, buf
    {
      if overflow then buf[bufpos..] + buf[..bufpos] else buf[..bufpos]
    }

    ghost predicate Fixed() { 0 < n == buf.Length && Lawful(ops, n) }

    ghost predicate Buffered()
      reads this, buf
    {
      && 0 < n == buf.Length && bufpos <= n
      && (if overflow then 0 < bufpos && n < |history| else bufpos == |history|)
      && Window() == Last(history, n)
    }

    ghost predicate Valid()
        reads this, buf
    {
      Buffered() && state == Digest(ops, table, Last(history, n))
    }

    constructor (ops: Ops<W>, table: Table<W>, n: nat)
      requires 0 < n && Lawful(ops, n)
      ensures Fixed() && Valid() && fresh(buf) && history == []
      ensures this.ops == ops && this.table == table && this.n == n
    {
      this.ops := ops;
      this.table := table;
      this.n := n;
      buf := new Byte[n](_ => 0);
      state, bufpos, overflow, history := ops.zero, 0, false, [];
    }

    method Reset()
      requires Fixed() && Valid()
      modifies this
      ensures Valid() && history == []
    {
      state, bufpos, overflow, history := ops.zero, 0, false, [];
    }

    /** Overwrites the oldest byte, if the buffer is full. */
    method Store(b: Byte) returns (oldest: Option<Byte>)
      requires Buffered()
      modifies this`bufpos, this`overflow, this`history, buf
      ensures Buffered() && history == old(history) + [b]
      ensures oldest == if |old(history)| < n then None else Some(Last(old(history), n)[0])
    {
      LastAppend(history, b, n);
      if bufpos == n {
        overflow := true;
        bufpos := 0;
      }
      ghost var before := buf[..];
      assert Window() == Last(history, n);
      oldest := if overflow then Some(buf[bufpos]) else None;
      CircularSlide(before, bufpos, b);
      buf[bufpos] := b;
      assert buf[..] == before[bufpos := b];
      bufpos := bufpos + 1;
      history := history + [b];
    }

    method HashByte(b: Byte) returns (sum: W)
      requires Fixed() && Valid()
      modifies this, buf
      ensures Valid() && history == old(history) + [b] && sum == state
    {
      ghost var window := Last(history, n);
      LastAppend(history, b, n);
      var oldest := Store(b);
      var s := ops.rot(state);
      if oldest.Some? {
        DigestSlide(ops, table, window, b);
        s := ops.xor(s, ops.rotN(table(oldest.value)));
      } else {
        DigestAppend(ops, n, table, window, b);
      }
      s := ops.xor(s, table(b));
      state := s;
      return state;
    }
  }

  // ----- boundaries

  /** When a byte is a boundary: `matches` says it of the last window of bytes. */
  datatype Config = Config(matches: seq<Byte> -> bool, window: nat, max: nat)

  /** A window matches if its digest does. */
  function PatternConfig<W>(ops: Ops<W>, table: Table<W>, matches: W -> bool, window: nat, max: nat): Config
  {
    Config(bytes => matches(Digest(ops, table, bytes)), window, max)
  }

  /** The byte that completes `bytes` is a boundary: the last window matches, or the size
      limit is met; never before a window is full. */
  predicate Hit(cfg: Config, bytes: seq<Byte>) {
    cfg.window <= |bytes| && (cfg.matches(Last(bytes, cfg.window)) || |bytes| == cfg.max)
  }

  /** Some byte after the first `from` ones is a boundary. */
  predicate Crossed(cfg: Config, bytes: seq<Byte>, from: nat)
    decreases |bytes|
  {
    from < |bytes| && (Hit(cfg, bytes) || Crossed(cfg, bytes[..|bytes| - 1], from))
  }

  lemma {:induction false} CrossedMeans(cfg: Config, bytes: seq<Byte>, from: nat)
    ensures Crossed(cfg, bytes, from) <==> exists k :: from < k <= |bytes| && Hit(cfg, bytes[..k])
    decreases |bytes|
  {
    if from < |bytes| {
      var init := bytes[..|bytes| - 1];
      CrossedMeans(cfg, init, from);
      assert bytes[..|bytes|] == bytes;
      assert forall k :: 0 <= k < |bytes| ==> init[..k] == bytes[..k];
    }
  }

  lemma {:induction false} CrossedLong(cfg: Config, bytes: seq<Byte>, from: nat)
    requires Crossed(cfg, bytes, from)
    ensures cfg.window <= |bytes|
    decreases |bytes|
  {
    if !Hit(cfg, bytes) {
      CrossedLong(cfg, bytes[..|bytes| - 1], from);
    }
  }

  lemma SnocSlice(s: seq<Byte>, data: seq<Byte>, i: nat)
    requires i < |data|
    ensures s + data[..i] + [data[i]] == s + data[..i + 1]
  {
  }

  ghost predicate EndsWith(stream: seq<Byte>, bytes: seq<Byte>) {
    |bytes| <= |stream| && stream[|stream| - |bytes|..] == bytes
  }

  lemma EndsWithAppend(stream: seq<Byte>, bytes: seq<Byte>, b: Byte)
    requires EndsWith(stream, bytes)
    ensures EndsWith(stream + [b], bytes + [b])
  {
  }

  lemma LastOfEnd(stream: seq<Byte>, bytes: seq<Byte>, n: nat)
    requires EndsWith(stream, bytes) && n <= |bytes|
    ensures Last(stream, n) == Last(bytes, n)
  {
  }

  /** The written update of the boundary flag, whatever was hashed before. */
  lemma CrossedStep(cfg: Config, stream: seq<Byte>, bytes: seq<Byte>, from: nat)
    requires EndsWith(stream, bytes) && from < |bytes|
    ensures var init := bytes[..|bytes| - 1];
      Crossed(cfg, bytes, from) <==>
        && cfg.window <= |bytes|
        && (Crossed(cfg, init, from) || cfg.matches(Last(stream, cfg.window)) || |bytes| == cfg.max)
  {
    var init := bytes[..|bytes| - 1];
    if Crossed(cfg, init, from) {
      CrossedLong(cfg, init, from);
    }
    if cfg.window <= |bytes| {
      LastOfEnd(stream, bytes, cfg.window);
    }
  }

  /** None of the next `n` bytes completes a boundary. */
  ghost predicate NoneCrossed(cfg: Config, bytes: seq<Byte>, data: seq<Byte>, resetAt: nat, n: nat)
    requires n <= |data|
  {
    forall k :: 0 < k <= n ==> !Crossed(cfg, bytes + data[..k], resetAt)
  }

  /** Detects boundaries. Whether one has been crossed depends only on the bytes since
      the last cleared boundary, never on what was hashed before. */
  class RollingHasher<W(!new)> {
    const matches: W -> bool
    const windowSize: nat
    const maxSize: nat
    const buz: BuzHash<W>
    ghost const cfg: Config
    var byteHashed: nat
    var crossedBoundary: bool
    ghost var since: seq<Byte>
    ghost var resetAt: nat

    /** The count and the flag are right for the bytes since the last cleared boundary. */
    ghost predicate Counted(bytes: seq<Byte>)
      reads this
    {
      && byteHashed == |bytes| && resetAt <= |bytes|
      && crossedBoundary == Crossed(cfg, bytes, resetAt)
    }

    ghost predicate Fixed() {
      && buz.Fixed() && buz.n == windowSize
      && cfg == PatternConfig(buz.ops, buz.table, matches, windowSize, maxSize)
    }

    ghost predicate Valid()
      reads this, buz, buz.buf
    {
      buz.Valid() && EndsWith(buz.history, since) && Counted(since)
    }

    constructor (ops: Ops<W>, table: Table<W>, matches: W -> bool, windowSize: nat, maxSize: nat)
      requires 0 < windowSize && Lawful(ops, windowSize)
      ensures Fixed() && Valid() && fresh(buz) && fresh(buz.buf)
      ensures cfg == PatternConfig(ops, table, matches, windowSize, maxSize) && since == [] && resetAt == 0
    {
      this.matches := matches;
      this.windowSize := windowSize;
      this.maxSize := maxSize;
      cfg := PatternConfig(ops, table, matches, windowSize, maxSize);
      byteHashed, crossedBoundary, since, resetAt := 0, false, [], 0;
      buz := new BuzHash(ops, table, windowSize);
    }

    /** Feeds the rolling hash and matches its sum against the pattern. */
    method Roll(b: Byte) returns (matched: bool)
      requires Fixed() && buz.Valid()
      modifies buz, buz.buf
      ensures buz.Valid() && buz.history == old(buz.history) + [b]
      ensures matched == cfg.matches(Last(buz.history, windowSize))
    {
      var sum := buz.HashByte(b);
      matched := matches(sum);
    }

    method HashByte(b: Byte)
      requires Fixed() && Valid()
      modifies this, buz, buz.buf
      ensures Valid() && since == old(since) + [b] && resetAt == old(resetAt)
    {
      EndsWithAppend(buz.history, since, b);
      assert (since + [b])[..|since|] == since;
      var matched := Roll(b);
      since := since + [b];
      UpdateFlag(matched, buz.history, since);
    }

    /** Counts a byte and updates the boundary flag, which sticks. */
    method UpdateFlag(matched: bool, ghost stream: seq<Byte>, ghost bytes: seq<Byte>)
      requires cfg.window == windowSize && cfg.max == maxSize
      requires bytes != [] && Counted(bytes[..|bytes| - 1]) && EndsWith(stream, bytes)
      requires matched == cfg.matches(Last(stream, windowSize))
      modifies this`byteHashed, this`crossedBoundary
      ensures Counted(bytes)
    {
      CrossedStep(cfg, stream, bytes, resetAt);
      byteHashed := byteHashed + 1;
      crossedBoundary := byteHashed >= windowSize
                         && (crossedBoundary || matched || byteHashed == maxSize);
    }

    method HashBytes(data: seq<Byte>)
      requires Fixed() && Valid()
      modifies this, buz, buz.buf
      ensures Valid() && since == old(since) + data && resetAt == old(resetAt)
    {
      for i := 0 to |data|
        invariant Valid() && since == old(since) + data[..i] && resetAt == old(resetAt)
      {
        SnocSlice(old(since), data, i);
        HashByte(data[i]);
      }
    }

    /** Hashes up to the first boundary. */
    method TryHashBytes(data: seq<Byte>) returns (pos: nat)
      requires Fixed() && Valid()
      modifies this, buz, buz.buf
      ensures Valid() && resetAt == old(resetAt) && pos <= |data|
      ensures since == old(since) + if pos < |data| then data[..pos + 1] else data
      ensures pos < |data| ==> crossedBoundary
      ensures NoneCrossed(cfg, old(since), data, resetAt, pos)
    {
      for i := 0 to |data|
        invariant Valid() && since == old(since) + data[..i] && resetAt == old(resetAt)
        invariant NoneCrossed(cfg, old(since), data, resetAt, i)
      {
        SnocSlice(old(since), data, i);
        HashByte(data[i]);
        if crossedBoundary {
          return i;
        }
      }
      return |data|;
    }

    method ClearLastBoundary()
      requires Fixed() && Valid()
      modifies this
      ensures Valid() && since == [] && resetAt == 0
    {
      crossedBoundary, byteHashed, since, resetAt := false, 0, [], 0;
    }

    method ResetBoundary()
      requires Fixed() && Valid()
      modifies this
      ensures Valid() && since == old(since) && resetAt == |since|
    {
      crossedBoundary, resetAt := false, |since|;
    }
  }
}

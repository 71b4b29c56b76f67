/** The three traversals of a pair of nodes, element by element. */
module Leaves {
  import opened Keys
  import opened Trees
  import opened Ranges

  /** What a comparison collects: the left indices that also occur on the right,
      those that do not, or the pairs of equal elements. */
  datatype Traverser = Intersector | Differ | Mapper

  datatype Piece = Range(lhs: IndexRange) | Map(lhs: IndexRange, rhs: IndexRange)

  // ----- what a comparison is to compute

  /** Elements `l[i]` and `r[j]` have the same key and the same bytes. */
  predicate Match(kt: KeyTrait, l: seq<Entry>, r: seq<Entry>, i: nat, j: nat)
    requires i < |l| && j < |r|
  {
    KeyAt(kt, l, i) == KeyAt(kt, r, j) && l[i].data == r[j].data
  }

  /** Element `l[i]` occurs among the elements of `r` with an index in `w`. */
  ghost predicate Common(kt: KeyTrait, l: seq<Entry>, r: seq<Entry>, w: IndexRange, i: nat)
    requires i < |l|
  {
    exists j :: In(w, j) && j < |r| && Match(kt, l, r, i, j)
  }

  ghost predicate Selected(tr: Traverser, kt: KeyTrait, l: seq<Entry>, r: seq<Entry>, w: IndexRange, i: nat)
    requires i < |l|
  {
    if tr.Differ? then !Common(kt, l, r, w, i) else Common(kt, l, r, w, i)
  }

  ghost predicate Reported(ps: seq<Piece>, i: int) {
    exists k :: 0 <= k < |ps| && In(ps[k].lhs, i)
  }

  /** Index `i` is reported exactly if it is selected, and paired only with its match. */
  ghost predicate RightAt(tr: Traverser, kt: KeyTrait, l: seq<Entry>, r: seq<Entry>, w: IndexRange,
                          ps: seq<Piece>, i: nat)
    requires i < |l|
  {
    && (Reported(ps, i) <==> Selected(tr, kt, l, r, w, i))
    && (forall k :: 0 <= k < |ps| && ps[k].Map? && In(ps[k].lhs, i) ==>
          var j := ps[k].rhs.start + (i - ps[k].lhs.start);
          j < |r| && Match(kt, l, r, i, j))
  }

  ghost predicate Exact(tr: Traverser, kt: KeyTrait, l: seq<Entry>, r: seq<Entry>, w: IndexRange,
                        ps: seq<Piece>, from: nat, to: nat)
    requires to <= |l|
  {
    forall i :: from <= i < to ==> RightAt(tr, kt, l, r, w, ps, i)
  }

  predicate Fits(tr: Traverser, p: Piece, from: nat, to: nat) {
    && p.lhs.num > 0 && from <= p.lhs.start && p.lhs.Upper() <= to
    && (if tr.Mapper? then p.Map? && p.rhs.num == p.lhs.num else p.Range?)
  }

  /** Well-shaped pieces in increasing order inside [from, to). */
  ghost predicate Within(tr: Traverser, ps: seq<Piece>, from: nat, to: nat) {
    && (forall k :: 0 <= k < |ps| ==> Fits(tr, ps[k], from, to))
    && (forall k, m :: 0 <= k < m < |ps| ==> ps[k].lhs.Upper() <= ps[m].lhs.start)
  }

  // ----- putting pieces together

  lemma ReportedConcat(ps: seq<Piece>, qs: seq<Piece>, i: int)
    ensures Reported(ps + qs, i) <==> Reported(ps, i) || Reported(qs, i)
  {
    if Reported(ps, i) {
      var k :| 0 <= k < |ps| && In(ps[k].lhs, i);
      assert In((ps + qs)[k].lhs, i);
    }
    if Reported(qs, i) {
      var k :| 0 <= k < |qs| && In(qs[k].lhs, i);
      assert In((ps + qs)[|ps| + k].lhs, i);
    }
  }

  lemma RightAtConcat(tr: Traverser, kt: KeyTrait, l: seq<Entry>, r: seq<Entry>, w: IndexRange,
                      ps: seq<Piece>, qs: seq<Piece>, from: nat, mid: nat, to: nat, i: nat)
    requires from <= mid <= to <= |l| && from <= i < to
    requires Within(tr, ps, from, mid) && Within(tr, qs, mid, to)
    ensures i < mid ==> (RightAt(tr, kt, l, r, w, ps + qs, i) <==> RightAt(tr, kt, l, r, w, ps, i))
    ensures mid <= i ==> (RightAt(tr, kt, l, r, w, ps + qs, i) <==> RightAt(tr, kt, l, r, w, qs, i))
  {
    if i < mid {
      forall k | 0 <= k < |qs| ensures !In(qs[k].lhs, i) { assert Fits(tr, qs[k], mid, to); }
      RightAtAppend(tr, kt, l, r, w, ps, qs, i);
    } else {
      forall k | 0 <= k < |ps| ensures !In(ps[k].lhs, i) { assert Fits(tr, ps[k], from, mid); }
      RightAtPrepend(tr, kt, l, r, w, ps, qs, i);
    }
  }

  lemma RightAtAppend(tr: Traverser, kt: KeyTrait, l: seq<Entry>, r: seq<Entry>, w: IndexRange,
                      ps: seq<Piece>, qs: seq<Piece>, i: nat)
    requires i < |l| && forall k :: 0 <= k < |qs| ==> !In(qs[k].lhs, i)
    ensures RightAt(tr, kt, l, r, w, ps + qs, i) <==> RightAt(tr, kt, l, r, w, ps, i)
  {
    ReportedConcat(ps, qs, i);
    assert forall k :: 0 <= k < |ps| ==> (ps + qs)[k] == ps[k];
  }

  lemma RightAtPrepend(tr: Traverser, kt: KeyTrait, l: seq<Entry>, r: seq<Entry>, w: IndexRange,
                       ps: seq<Piece>, qs: seq<Piece>, i: nat)
    requires i < |l| && forall k :: 0 <= k < |ps| ==> !In(ps[k].lhs, i)
    ensures RightAt(tr, kt, l, r, w, ps + qs, i) <==> RightAt(tr, kt, l, r, w, qs, i)
  {
    ReportedConcat(ps, qs, i);
    assert forall k :: 0 <= k < |qs| ==> (ps + qs)[|ps| + k] == qs[k];
  }

  /** Results for adjacent spans are both exact exactly if their concatenation is. */
  lemma ExactConcat(tr: Traverser, kt: KeyTrait, l: seq<Entry>, r: seq<Entry>, w: IndexRange,
                    ps: seq<Piece>, qs: seq<Piece>, from: nat, mid: nat, to: nat)
    requires from <= mid <= to <= |l|
    requires Within(tr, ps, from, mid) && Within(tr, qs, mid, to)
    ensures Within(tr, ps + qs, from, to)
    ensures Exact(tr, kt, l, r, w, ps + qs, from, to) <==>
            Exact(tr, kt, l, r, w, ps, from, mid) && Exact(tr, kt, l, r, w, qs, mid, to)
  {
    WithinConcat(tr, ps, qs, from, mid, to);
    forall i | from <= i < mid
      ensures RightAt(tr, kt, l, r, w, ps + qs, i) <==> RightAt(tr, kt, l, r, w, ps, i)
    {
      RightAtConcat(tr, kt, l, r, w, ps, qs, from, mid, to, i);
    }
    forall i | mid <= i < to
      ensures RightAt(tr, kt, l, r, w, ps + qs, i) <==> RightAt(tr, kt, l, r, w, qs, i)
    {
      RightAtConcat(tr, kt, l, r, w, ps, qs, from, mid, to, i);
    }
  }

  lemma WithinConcat(tr: Traverser, ps: seq<Piece>, qs: seq<Piece>, from: nat, mid: nat, to: nat)
    requires from <= mid <= to && Within(tr, ps, from, mid) && Within(tr, qs, mid, to)
    ensures Within(tr, ps + qs, from, to)
  {
    forall k, m | 0 <= k < m < |ps + qs| ensures (ps + qs)[k].lhs.Upper() <= (ps + qs)[m].lhs.start {
      if k < |ps| <= m {
        assert Fits(tr, ps[k], from, mid) && Fits(tr, qs[m - |ps|], mid, to);
      }
    }
  }

  function Grow(p: Piece): Piece {
    match p
    case Range(lhs) => Range(lhs.(num := lhs.num + 1))
    case Map(lhs, rhs) => Map(lhs.(num := lhs.num + 1), rhs.(num := rhs.num + 1))
  }

  /** The closed pieces with the one still open, which is absent while empty. */
  function Open(ps: seq<Piece>, curr: Piece): seq<Piece> {
    if curr.lhs.num == 0 then ps else ps + [curr]
  }

  /** Index `i` is passed over without being reported. */
  lemma ExactSkip(tr: Traverser, kt: KeyTrait, l: seq<Entry>, r: seq<Entry>, w: IndexRange, ps: seq<Piece>,
                  from: nat, i: nat)
    requires from <= i < |l| && Within(tr, ps, from, i) && Exact(tr, kt, l, r, w, ps, from, i)
    requires !Selected(tr, kt, l, r, w, i)
    ensures Within(tr, ps, from, i + 1) && Exact(tr, kt, l, r, w, ps, from, i + 1)
  {
    assert Within(tr, [], i, i + 1);
    assert ps + [] == ps;
    ExactConcat(tr, kt, l, r, w, ps, [], from, i, i + 1);
  }

  lemma RightAtSingle(tr: Traverser, kt: KeyTrait, l: seq<Entry>, r: seq<Entry>, w: IndexRange, p: Piece, i: nat)
    requires i < |l| && Selected(tr, kt, l, r, w, i) && In(p.lhs, i)
    requires p.Map? ==>
               var j := p.rhs.start + (i - p.lhs.start);
               j < |r| && Match(kt, l, r, i, j)
    ensures RightAt(tr, kt, l, r, w, [p], i)
  {
    assert In([p][0].lhs, i);
  }

  /** Index `i` is reported by a piece of its own. */
  lemma ExactStart(tr: Traverser, kt: KeyTrait, l: seq<Entry>, r: seq<Entry>, w: IndexRange,
                   ps: seq<Piece>, p: Piece, from: nat, i: nat)
    requires from <= i < |l| && Within(tr, ps, from, i) && Exact(tr, kt, l, r, w, ps, from, i)
    requires Selected(tr, kt, l, r, w, i) && Fits(tr, p, i, i + 1)
    requires tr.Mapper? ==> p.rhs.start < |r| && Match(kt, l, r, i, p.rhs.start)
    ensures Within(tr, ps + [p], from, i + 1) && Exact(tr, kt, l, r, w, ps + [p], from, i + 1)
  {
    RightAtSingle(tr, kt, l, r, w, p, i);
    ExactConcat(tr, kt, l, r, w, ps, [p], from, i, i + 1);
  }

  /** Index `i` is reported by the open piece growing onto it. */
  lemma ExactGrow(tr: Traverser, kt: KeyTrait, l: seq<Entry>, r: seq<Entry>, w: IndexRange,
                  ps: seq<Piece>, p: Piece, from: nat, i: nat)
    requires from <= i < |l| && p.lhs.num > 0 && p.lhs.Upper() == i
    requires Within(tr, ps + [p], from, i) && Exact(tr, kt, l, r, w, ps + [p], from, i)
    requires Selected(tr, kt, l, r, w, i)
    requires tr.Mapper? ==> p.Map? && p.rhs.Upper() < |r| && Match(kt, l, r, i, p.rhs.Upper())
    ensures Within(tr, ps + [Grow(p)], from, i + 1) && Exact(tr, kt, l, r, w, ps + [Grow(p)], from, i + 1)
  {
    var qs, q := ps + [p], Grow(p);
    assert qs[|ps|] == p && Fits(tr, p, from, i);
    assert Within(tr, ps, from, p.lhs.start) by {
      forall k | 0 <= k < |ps| ensures Fits(tr, ps[k], from, p.lhs.start) {
        assert qs[k] == ps[k] && Fits(tr, qs[k], from, i) && qs[k].lhs.Upper() <= qs[|ps|].lhs.start;
      }
      forall k, m | 0 <= k < m < |ps| ensures ps[k].lhs.Upper() <= ps[m].lhs.start {
        assert qs[k] == ps[k] && qs[m] == ps[m];
      }
    }
    assert Within(tr, [p], p.lhs.start, i) && Within(tr, [q], p.lhs.start, i + 1);
    ExactConcat(tr, kt, l, r, w, ps, [p], from, p.lhs.start, i);
    forall h | p.lhs.start <= h < i + 1 ensures RightAt(tr, kt, l, r, w, [q], h) {
      if h < i {
        assert RightAt(tr, kt, l, r, w, [p], h) && In([p][0].lhs, h);
      }
      RightAtSingle(tr, kt, l, r, w, q, h);
    }
    ExactConcat(tr, kt, l, r, w, ps, [q], from, p.lhs.start, i + 1);
  }

  // ----- the merge-join of two sorted element sequences

  /** Two nodes under comparison: `lhs` and `rhs` are the elements of `l` and `r`
      from `ls` and `rs` on. */
  datatype Join = Join(kt: KeyTrait, ghost l: seq<Entry>, ghost r: seq<Entry>,
                       lhs: seq<Entry>, ls: nat, rhs: seq<Entry>, rs: nat) {
    function LeftEnd(): nat { ls + |lhs| }
    function RightEnd(): nat { rs + |rhs| }
    function Seen(): IndexRange { IndexRange(rs, |rhs|) }
  }

  ghost predicate Aligned(n: Join) {
    && Sorted(n.kt, n.l) && Sorted(n.kt, n.r)
    && n.LeftEnd() <= |n.l| && n.l[n.ls..n.LeftEnd()] == n.lhs
    && n.RightEnd() <= |n.r| && n.r[n.rs..n.RightEnd()] == n.rhs
  }

  /** The right elements before `j` have smaller keys than the left elements from `i` on. */
  ghost predicate Passed(n: Join, i: nat, j: nat)
    requires n.LeftEnd() <= |n.l| && j <= |n.r|
  {
    forall h, g :: i <= h < n.LeftEnd() && n.rs <= g < j ==> Less(KeyAt(n.kt, n.r, g), KeyAt(n.kt, n.l, h))
  }

  /** The join stands at left index `i` and right index `j`, and `ps` is exact so far. */
  ghost predicate Joined(tr: Traverser, n: Join, i: nat, j: nat, ps: seq<Piece>)
    requires n.LeftEnd() <= |n.l| && n.RightEnd() <= |n.r|
  {
    && n.ls <= i <= n.LeftEnd() && n.rs <= j <= n.RightEnd()
    && Passed(n, i, j)
    && Within(tr, ps, n.ls, i) && Exact(tr, n.kt, n.l, n.r, n.Seen(), ps, n.ls, i)
  }

  /** The key under a cursor at position `pos` of `s`, whose element has index `idx`. */
  function CursorKey(kt: KeyTrait, s: seq<Entry>, pos: nat, idx: nat): OrderedKey
    requires pos < |s|
  {
    if kt.ByIndex? then Value(idx) else Bytes(s[pos].key)
  }

  lemma Cursors(n: Join, lc: nat, rc: nat)
    requires Aligned(n)
    ensures lc < |n.lhs| ==> CursorKey(n.kt, n.lhs, lc, n.ls + lc) == KeyAt(n.kt, n.l, n.ls + lc)
    ensures rc < |n.rhs| ==> CursorKey(n.kt, n.rhs, rc, n.rs + rc) == KeyAt(n.kt, n.r, n.rs + rc)
    ensures lc < |n.lhs| ==> n.lhs[lc] == n.l[n.ls + lc]
    ensures rc < |n.rhs| ==> n.rhs[rc] == n.r[n.rs + rc]
  {
    assert lc < |n.lhs| ==> n.l[n.ls..n.LeftEnd()][lc] == n.l[n.ls + lc];
    assert rc < |n.rhs| ==> n.r[n.rs..n.RightEnd()][rc] == n.r[n.rs + rc];
  }

  lemma JoinRight(tr: Traverser, n: Join, i: nat, j: nat, ps: seq<Piece>)
    requires Aligned(n) && Joined(tr, n, i, j, ps) && i < n.LeftEnd() && j < n.RightEnd()
    requires Less(KeyAt(n.kt, n.r, j), KeyAt(n.kt, n.l, i))
    ensures Joined(tr, n, i, j + 1, ps)
  {
    forall h | i <= h < n.LeftEnd() ensures Less(KeyAt(n.kt, n.r, j), KeyAt(n.kt, n.l, h)) {
      if i < h {
        Transitive(KeyAt(n.kt, n.r, j), KeyAt(n.kt, n.l, i), KeyAt(n.kt, n.l, h));
      }
    }
  }

  /** Where the join stands decides whether the left element occurs on the right. */
  lemma Decide(n: Join, i: nat, j: nat)
    requires Aligned(n) && n.ls <= i < n.LeftEnd() && n.rs <= j <= n.RightEnd() && Passed(n, i, j)
    requires j < n.RightEnd() ==> AtMost(KeyAt(n.kt, n.l, i), KeyAt(n.kt, n.r, j))
    ensures Common(n.kt, n.l, n.r, n.Seen(), i) <==> j < n.RightEnd() && Match(n.kt, n.l, n.r, i, j)
  {
    forall g | n.rs <= g < n.RightEnd() && Match(n.kt, n.l, n.r, i, g) ensures g == j {
      if g < j {
        Trichotomy(KeyAt(n.kt, n.r, g), KeyAt(n.kt, n.l, i));
      } else if g > j {
        assert Less(KeyAt(n.kt, n.r, j), KeyAt(n.kt, n.r, g));
        Trichotomy(KeyAt(n.kt, n.r, j), KeyAt(n.kt, n.r, g));
      }
    }
  }

  /** The open piece after it takes in left index `i`, matched with right index `j`. */
  function TakeIn(tr: Traverser, curr: Piece, i: nat, j: nat): Piece {
    if curr.lhs.num > 0 then Grow(curr)
    else if tr.Mapper? then Map(IndexRange(i, 1), IndexRange(j, 1))
    else Range(IndexRange(i, 1))
  }

  /** The open piece ends where the join stands. */
  predicate Ends(tr: Traverser, curr: Piece, i: nat, j: nat) {
    curr.lhs.num != 0 ==>
      curr.lhs.Upper() == i && (tr.Mapper? ==> curr.Map? && curr.rhs.Upper() == j)
  }

  /** The left element is settled: it joins the open piece if selected. */
  lemma JoinLeft(tr: Traverser, n: Join, i: nat, j: nat, results: seq<Piece>, curr: Piece)
    returns (same: bool, taken: bool, next: seq<Piece>)
    requires Aligned(n) && Joined(tr, n, i, j, Open(results, curr)) && Ends(tr, curr, i, j)
    requires i < n.LeftEnd() && (j < n.RightEnd() ==> AtMost(KeyAt(n.kt, n.l, i), KeyAt(n.kt, n.r, j)))
    ensures same <==> j < n.RightEnd() && KeyAt(n.kt, n.l, i) == KeyAt(n.kt, n.r, j)
    ensures taken <==> (same && n.l[i].data == n.r[j].data) != tr.Differ?
    ensures next == Open(results, if taken then TakeIn(tr, curr, i, j) else curr)
    ensures same ==> Joined(tr, n, i + 1, j + 1, next)
    ensures !same ==> Joined(tr, n, i + 1, j, next)
  {
    Decide(n, i, j);
    Cursors(n, i - n.ls, j - n.rs);
    same := j < n.RightEnd() && KeyAt(n.kt, n.l, i) == KeyAt(n.kt, n.r, j);
    if same {
      forall h | i + 1 <= h < n.LeftEnd() ensures Less(KeyAt(n.kt, n.r, j), KeyAt(n.kt, n.l, h)) {
        assert Less(KeyAt(n.kt, n.l, i), KeyAt(n.kt, n.l, h));
      }
    }
    taken := Common(n.kt, n.l, n.r, n.Seen(), i) != tr.Differ?;
    next := Settle(tr, n, i, j, results, curr);
  }

  lemma Settle(tr: Traverser, n: Join, i: nat, j: nat, results: seq<Piece>, curr: Piece)
    returns (next: seq<Piece>)
    requires Aligned(n) && Joined(tr, n, i, j, Open(results, curr)) && Ends(tr, curr, i, j) && i < n.LeftEnd()
    requires Common(n.kt, n.l, n.r, n.Seen(), i) <==> j < n.RightEnd() && Match(n.kt, n.l, n.r, i, j)
    ensures next == Open(results, if Common(n.kt, n.l, n.r, n.Seen(), i) != tr.Differ? then TakeIn(tr, curr, i, j)
                                  else curr)
    ensures Within(tr, next, n.ls, i + 1) && Exact(tr, n.kt, n.l, n.r, n.Seen(), next, n.ls, i + 1)
  {
    next := Open(results, if Common(n.kt, n.l, n.r, n.Seen(), i) != tr.Differ? then TakeIn(tr, curr, i, j) else curr);
    if Common(n.kt, n.l, n.r, n.Seen(), i) == tr.Differ? {
      ExactSkip(tr, n.kt, n.l, n.r, n.Seen(), Open(results, curr), n.ls, i);
    } else if curr.lhs.num == 0 {
      ExactStart(tr, n.kt, n.l, n.r, n.Seen(), results, TakeIn(tr, curr, i, j), n.ls, i);
    } else {
      ExactGrow(tr, n.kt, n.l, n.r, n.Seen(), results, curr, n.ls, i);
    }
  }

  function Emptied(curr: Piece): Piece {
    match curr
    case Range(lhs) => Range(lhs.(num := 0))
    case Map(lhs, rhs) => Map(lhs.(num := 0), rhs.(num := 0))
  }

  function LeftKey(n: Join, lc: nat): OrderedKey
    requires lc < |n.lhs|
  {
    CursorKey(n.kt, n.lhs, lc, n.ls + lc)
  }

  function RightKey(n: Join, rc: nat): OrderedKey
    requires rc < |n.rhs|
  {
    CursorKey(n.kt, n.rhs, rc, n.rs + rc)
  }

  predicate SameKey(n: Join, lc: nat, rc: nat)
    requires lc < |n.lhs|
  {
    rc < |n.rhs| && LeftKey(n, lc) == RightKey(n, rc)
  }

  /** Whether the left element is collected, once no smaller right element is left. */
  predicate Taken(tr: Traverser, n: Join, lc: nat, rc: nat)
    requires lc < |n.lhs|
  {
    (SameKey(n, lc, rc) && n.lhs[lc].data == n.rhs[rc].data) != tr.Differ?
  }

  /** The join of what is left from cursor positions `lc` and `rc` on, with the
      pieces closed so far and the one still open. Only the mapper closes its piece
      when the right side moves alone; only the differ keeps the rest of the left. */
  function JoinFrom(tr: Traverser, n: Join, lc: nat, rc: nat, results: seq<Piece>, curr: Piece): seq<Piece>
    requires lc <= |n.lhs| && rc <= |n.rhs|
    decreases |n.lhs| - lc + |n.rhs| - rc
  {
    if lc == |n.lhs| || (rc == |n.rhs| && !tr.Differ?) then Open(results, curr)
    else if rc < |n.rhs| && Less(RightKey(n, rc), LeftKey(n, lc)) then
      if tr.Mapper? then JoinFrom(tr, n, lc, rc + 1, Open(results, curr), Emptied(curr))
      else JoinFrom(tr, n, lc, rc + 1, results, curr)
    else
      var rc' := if SameKey(n, lc, rc) then rc + 1 else rc;
      if Taken(tr, n, lc, rc) then JoinFrom(tr, n, lc + 1, rc', results, TakeIn(tr, curr, n.ls + lc, n.rs + rc))
      else JoinFrom(tr, n, lc + 1, rc', Open(results, curr), Emptied(curr))
  }

  /** A smaller right element is passed. */
  lemma JoinPass(tr: Traverser, n: Join, lc: nat, rc: nat, open: seq<Piece>)
    requires lc < |n.lhs| && rc < |n.rhs| && Aligned(n)
    requires Joined(tr, n, n.ls + lc, n.rs + rc, open)
    requires Less(RightKey(n, rc), LeftKey(n, lc))
    ensures Joined(tr, n, n.ls + lc, n.rs + (rc + 1), open)
  {
    Cursors(n, lc, rc);
    JoinRight(tr, n, n.ls + lc, n.rs + rc, open);
  }

  /** One left element is settled. */
  lemma JoinStep(tr: Traverser, n: Join, lc: nat, rc: nat, results: seq<Piece>, curr: Piece, rc': nat)
    returns (next: seq<Piece>)
    requires lc < |n.lhs| && rc <= |n.rhs| && Aligned(n)
    requires Joined(tr, n, n.ls + lc, n.rs + rc, Open(results, curr)) && Ends(tr, curr, n.ls + lc, n.rs + rc)
    requires rc < |n.rhs| ==> !Less(RightKey(n, rc), LeftKey(n, lc))
    requires rc' == if SameKey(n, lc, rc) then rc + 1 else rc
    ensures next == Open(results, if Taken(tr, n, lc, rc) then TakeIn(tr, curr, n.ls + lc, n.rs + rc) else curr)
    ensures Joined(tr, n, n.ls + (lc + 1), n.rs + rc', next)
  {
    StepKeys(tr, n, lc, rc);
    var same, taken;
    same, taken, next := JoinLeft(tr, n, n.ls + lc, n.rs + rc, results, curr);
  }

  /** The cursors compare the keys and bytes at the indices they stand for. */
  lemma StepKeys(tr: Traverser, n: Join, lc: nat, rc: nat)
    requires lc < |n.lhs| && rc <= |n.rhs| && Aligned(n)
    requires rc < |n.rhs| ==> !Less(RightKey(n, rc), LeftKey(n, lc))
    ensures rc < |n.rhs| ==> AtMost(KeyAt(n.kt, n.l, n.ls + lc), KeyAt(n.kt, n.r, n.rs + rc))
    ensures SameKey(n, lc, rc) <==> rc < |n.rhs| && KeyAt(n.kt, n.l, n.ls + lc) == KeyAt(n.kt, n.r, n.rs + rc)
    ensures Taken(tr, n, lc, rc) <==>
            (SameKey(n, lc, rc) && n.l[n.ls + lc].data == n.r[n.rs + rc].data) != tr.Differ?
  {
    Cursors(n, lc, rc);
    if rc < |n.rhs| {
      Trichotomy(LeftKey(n, lc), RightKey(n, rc));
    }
  }

  /** The join reports exactly the selected elements, whichever the traverser. */
  lemma {:induction false} JoinFromExact(tr: Traverser, n: Join, lc: nat, rc: nat, results: seq<Piece>, curr: Piece,
                                         open: seq<Piece>)
    returns (ps: seq<Piece>)
    requires lc <= |n.lhs| && rc <= |n.rhs| && Aligned(n) && open == Open(results, curr)
    requires Joined(tr, n, n.ls + lc, n.rs + rc, open) && Ends(tr, curr, n.ls + lc, n.rs + rc)
    ensures ps == JoinFrom(tr, n, lc, rc, results, curr)
    ensures Within(tr, ps, n.ls, n.LeftEnd()) && Exact(tr, n.kt, n.l, n.r, n.Seen(), ps, n.ls, n.LeftEnd())
    decreases |n.lhs| - lc + |n.rhs| - rc, 2
  {
    if lc == |n.lhs| {
      ps := open;
    } else if rc == |n.rhs| && !tr.Differ? {
      ps := open;
      JoinRest(tr, n, n.ls + lc, ps);
    } else if rc < |n.rhs| && Less(RightKey(n, rc), LeftKey(n, lc)) {
      ps := PassRight(tr, n, lc, rc, results, curr, open);
    } else if Taken(tr, n, lc, rc) {
      ps := TakeLeft(tr, n, lc, rc, results, curr, open);
    } else {
      ps := DropLeft(tr, n, lc, rc, results, curr, open);
    }
  }

  lemma {:induction false} PassRight(tr: Traverser, n: Join, lc: nat, rc: nat, results: seq<Piece>, curr: Piece,
                                         open: seq<Piece>)
    returns (ps: seq<Piece>)
    requires lc <= |n.lhs| && rc <= |n.rhs| && Aligned(n) && open == Open(results, curr)
    requires Joined(tr, n, n.ls + lc, n.rs + rc, open) && Ends(tr, curr, n.ls + lc, n.rs + rc)
    requires lc < |n.lhs| && rc < |n.rhs| && Less(RightKey(n, rc), LeftKey(n, lc))
    ensures ps == JoinFrom(tr, n, lc, rc, results, curr)
    ensures Within(tr, ps, n.ls, n.LeftEnd()) && Exact(tr, n.kt, n.l, n.r, n.Seen(), ps, n.ls, n.LeftEnd())
    decreases |n.lhs| - lc + |n.rhs| - rc, 1
  {
    JoinPass(tr, n, lc, rc, open);
    if tr.Mapper? {
      ps := JoinFromExact(tr, n, lc, rc + 1, open, Emptied(curr), open);
    } else {
      ps := JoinFromExact(tr, n, lc, rc + 1, results, curr, open);
    }
  }

  /** The left element is next. */
  predicate LeftNext(tr: Traverser, n: Join, lc: nat, rc: nat) {
    lc < |n.lhs| && (rc < |n.rhs| || tr.Differ?) && (rc < |n.rhs| ==> !Less(RightKey(n, rc), LeftKey(n, lc)))
  }

  lemma {:induction false} TakeLeft(tr: Traverser, n: Join, lc: nat, rc: nat, results: seq<Piece>, curr: Piece,
                                         open: seq<Piece>)
    returns (ps: seq<Piece>)
    requires lc <= |n.lhs| && rc <= |n.rhs| && Aligned(n) && open == Open(results, curr)
    requires Joined(tr, n, n.ls + lc, n.rs + rc, open) && Ends(tr, curr, n.ls + lc, n.rs + rc)
    requires LeftNext(tr, n, lc, rc) && Taken(tr, n, lc, rc)
    ensures ps == JoinFrom(tr, n, lc, rc, results, curr)
    ensures Within(tr, ps, n.ls, n.LeftEnd()) && Exact(tr, n.kt, n.l, n.r, n.Seen(), ps, n.ls, n.LeftEnd())
    decreases |n.lhs| - lc + |n.rhs| - rc, 1
  {
    var rc' := if SameKey(n, lc, rc) then rc + 1 else rc;
    var next := JoinStep(tr, n, lc, rc, results, curr, rc');
    var taken := TakenEnds(tr, n, lc, rc, results, curr, rc');
    ps := JoinFromExact(tr, n, lc + 1, rc', results, taken, next);
  }

  lemma TakenEnds(tr: Traverser, n: Join, lc: nat, rc: nat, results: seq<Piece>, curr: Piece, rc': nat)
    returns (taken: Piece)
    requires lc <= |n.lhs| && rc <= |n.rhs|
    requires LeftNext(tr, n, lc, rc) && Taken(tr, n, lc, rc) && Ends(tr, curr, n.ls + lc, n.rs + rc)
    requires rc' == if SameKey(n, lc, rc) then rc + 1 else rc
    ensures taken == TakeIn(tr, curr, n.ls + lc, n.rs + rc)
    ensures Ends(tr, taken, n.ls + (lc + 1), n.rs + rc')
    ensures JoinFrom(tr, n, lc, rc, results, curr) == JoinFrom(tr, n, lc + 1, rc', results, taken)
  {
    taken := TakeIn(tr, curr, n.ls + lc, n.rs + rc);
  }

  lemma {:induction false} DropLeft(tr: Traverser, n: Join, lc: nat, rc: nat, results: seq<Piece>, curr: Piece,
                                         open: seq<Piece>)
    returns (ps: seq<Piece>)
    requires lc <= |n.lhs| && rc <= |n.rhs| && Aligned(n) && open == Open(results, curr)
    requires Joined(tr, n, n.ls + lc, n.rs + rc, open) && Ends(tr, curr, n.ls + lc, n.rs + rc)
    requires LeftNext(tr, n, lc, rc) && !Taken(tr, n, lc, rc)
    ensures ps == JoinFrom(tr, n, lc, rc, results, curr)
    ensures Within(tr, ps, n.ls, n.LeftEnd()) && Exact(tr, n.kt, n.l, n.r, n.Seen(), ps, n.ls, n.LeftEnd())
    decreases |n.lhs| - lc + |n.rhs| - rc, 1
  {
    var rc' := if SameKey(n, lc, rc) then rc + 1 else rc;
    var next := JoinStep(tr, n, lc, rc, results, curr, rc');
    ps := JoinFromExact(tr, n, lc + 1, rc', next, Emptied(curr), next);
  }

  /** Once the right side is exhausted no further left element is common. */
  lemma {:induction false} JoinRest(tr: Traverser, n: Join, i: nat, ps: seq<Piece>)
    requires Aligned(n) && Joined(tr, n, i, n.RightEnd(), ps) && !tr.Differ?
    ensures Joined(tr, n, n.LeftEnd(), n.RightEnd(), ps)
    decreases n.LeftEnd() - i
  {
    if i < n.LeftEnd() {
      var _, _, next := JoinLeft(tr, n, i, n.RightEnd(), ps, Range(IndexRange(0, 0)));
      JoinRest(tr, n, i + 1, ps);
    }
  }

  function NoPiece(tr: Traverser): Piece {
    if tr.Mapper? then Map(IndexRange(0, 0), IndexRange(0, 0)) else Range(IndexRange(0, 0))
  }

  /** The join of two nodes reports exactly the selected elements of the left one. */
  lemma JoinExact(tr: Traverser, n: Join)
    requires Aligned(n)
    ensures var ps := JoinFrom(tr, n, 0, 0, [], NoPiece(tr));
      Within(tr, ps, n.ls, n.LeftEnd()) && Exact(tr, n.kt, n.l, n.r, n.Seen(), ps, n.ls, n.LeftEnd())
  {
    var same := JoinFromExact(tr, n, 0, 0, [], NoPiece(tr), []);
  }

  // ----- the three loops

  method IntersectLeaves(n: Join) returns (results: seq<Piece>)
    ensures results == JoinFrom(Intersector, n, 0, 0, [], Range(IndexRange(0, 0)))
  {
    results := [];
    var lc, rc := 0, 0;
    var lhsIdx, rhsIdx := n.ls, n.rs;
    var curr := IndexRange(0, 0);
    while lc < |n.lhs| && rc < |n.rhs|
      invariant lc <= |n.lhs| && rc <= |n.rhs| && lhsIdx == n.ls + lc && rhsIdx == n.rs + rc
      invariant JoinFrom(Intersector, n, 0, 0, [], Range(IndexRange(0, 0)))
             == JoinFrom(Intersector, n, lc, rc, results, Range(curr))
      decreases |n.lhs| - lc + |n.rhs| - rc
    {
      var lhsKey, rhsKey := CursorKey(n.kt, n.lhs, lc, lhsIdx), CursorKey(n.kt, n.rhs, rc, rhsIdx);
      if Less(rhsKey, lhsKey) {
        rc, rhsIdx := rc + 1, rhsIdx + 1;
      } else {
        if lhsKey == rhsKey {
          if n.lhs[lc].data == n.rhs[rc].data {
            if curr.num == 0 {
              curr := IndexRange(lhsIdx, 1);
            } else {
              curr := curr.(num := curr.num + 1);
            }
          } else if curr.num != 0 {
            results := results + [Range(curr)];
            curr := curr.(num := 0);
          }
          lc, rc, lhsIdx, rhsIdx := lc + 1, rc + 1, lhsIdx + 1, rhsIdx + 1;
        } else {
          if curr.num != 0 {
            results := results + [Range(curr)];
            curr := curr.(num := 0);
          }
          lc, lhsIdx := lc + 1, lhsIdx + 1;
        }
      }
    }
    if curr.num != 0 {
      results := results + [Range(curr)];
    }
  }

  method DiffLeaves(n: Join) returns (results: seq<Piece>)
    ensures results == JoinFrom(Differ, n, 0, 0, [], Range(IndexRange(0, 0)))
  {
    results := [];
    var lc, rc := 0, 0;
    var lhsIdx, rhsIdx := n.ls, n.rs;
    var curr := IndexRange(0, 0);
    while lc < |n.lhs| && rc < |n.rhs|
      invariant lc <= |n.lhs| && rc <= |n.rhs| && lhsIdx == n.ls + lc && rhsIdx == n.rs + rc
      invariant JoinFrom(Differ, n, 0, 0, [], Range(IndexRange(0, 0)))
             == JoinFrom(Differ, n, lc, rc, results, Range(curr))
      decreases |n.lhs| - lc + |n.rhs| - rc
    {
      var lhsKey, rhsKey := CursorKey(n.kt, n.lhs, lc, lhsIdx), CursorKey(n.kt, n.rhs, rc, rhsIdx);
      if Less(rhsKey, lhsKey) {
        rc, rhsIdx := rc + 1, rhsIdx + 1;
      } else {
        if lhsKey == rhsKey {
          if n.lhs[lc].data == n.rhs[rc].data {
            if curr.num != 0 {
              results := results + [Range(curr)];
              curr := curr.(num := 0);
            }
          } else if curr.num == 0 {
            curr := IndexRange(lhsIdx, 1);
          } else {
            curr := curr.(num := curr.num + 1);
          }
          lc, rc, lhsIdx, rhsIdx := lc + 1, rc + 1, lhsIdx + 1, rhsIdx + 1;
        } else {
          if curr.num == 0 {
            curr := IndexRange(lhsIdx, 1);
          } else {
            curr := curr.(num := curr.num + 1);
          }
          lc, lhsIdx := lc + 1, lhsIdx + 1;
        }
      }
    }
    if lc < |n.lhs| {
      if curr.num == 0 {
        curr := IndexRange(lhsIdx, 0);
      }
      while lc < |n.lhs|
        invariant lc <= |n.lhs| && lhsIdx == n.ls + lc && (curr.num == 0 ==> curr.start == lhsIdx)
        invariant JoinFrom(Differ, n, 0, 0, [], Range(IndexRange(0, 0)))
             == JoinFrom(Differ, n, lc, rc, results, Range(curr))
      {
        curr := curr.(num := curr.num + 1);
        lc, lhsIdx := lc + 1, lhsIdx + 1;
      }
    }
    if curr.num != 0 {
      results := results + [Range(curr)];
    }
  }

  method MapLeaves(n: Join) returns (results: seq<Piece>)
    ensures results == JoinFrom(Mapper, n, 0, 0, [], Map(IndexRange(0, 0), IndexRange(0, 0)))
  {
    results := [];
    var lc, rc := 0, 0;
    var lhsIdx, rhsIdx := n.ls, n.rs;
    var lhsRange, rhsRange := IndexRange(0, 0), IndexRange(0, 0);
    while lc < |n.lhs| && rc < |n.rhs|
      invariant lc <= |n.lhs| && rc <= |n.rhs| && lhsIdx == n.ls + lc && rhsIdx == n.rs + rc
      invariant JoinFrom(Mapper, n, 0, 0, [], Map(IndexRange(0, 0), IndexRange(0, 0)))
             == JoinFrom(Mapper, n, lc, rc, results, Map(lhsRange, rhsRange))
      decreases |n.lhs| - lc + |n.rhs| - rc
    {
      var lhsKey, rhsKey := CursorKey(n.kt, n.lhs, lc, lhsIdx), CursorKey(n.kt, n.rhs, rc, rhsIdx);
      if Less(rhsKey, lhsKey) {
        if lhsRange.num != 0 {
          results := results + [Map(lhsRange, rhsRange)];
          lhsRange, rhsRange := lhsRange.(num := 0), rhsRange.(num := 0);
        }
        rc, rhsIdx := rc + 1, rhsIdx + 1;
      } else {
        if lhsKey == rhsKey {
          if n.lhs[lc].data == n.rhs[rc].data {
            if lhsRange.num == 0 {
              lhsRange, rhsRange := IndexRange(lhsIdx, 1), IndexRange(rhsIdx, 1);
            } else {
              lhsRange, rhsRange := lhsRange.(num := lhsRange.num + 1), rhsRange.(num := rhsRange.num + 1);
            }
          } else if lhsRange.num != 0 {
            results := results + [Map(lhsRange, rhsRange)];
            lhsRange, rhsRange := lhsRange.(num := 0), rhsRange.(num := 0);
          }
          lc, rc, lhsIdx, rhsIdx := lc + 1, rc + 1, lhsIdx + 1, rhsIdx + 1;
        } else {
          if lhsRange.num != 0 {
            results := results + [Map(lhsRange, rhsRange)];
            lhsRange, rhsRange := lhsRange.(num := 0), rhsRange.(num := 0);
          }
          lc, lhsIdx := lc + 1, lhsIdx + 1;
        }
      }
    }
    if lhsRange.num != 0 {
      results := results + [Map(lhsRange, rhsRange)];
    }
  }
}

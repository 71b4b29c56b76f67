/** Keys of ordered elements and the order the comparator and the iterators use.
    A slice is compared byte by byte over the shorter length, then by length;
    an ordered key is either an integer or such a slice. */
module Keys {

  type Byte = b: int | 0 <= b < 256

  type Slice = seq<Byte>

  /** The sign of the first difference in the first `n` bytes, zero if there is none. */
  function Memcmp(a: Slice, b: Slice, n: nat): int
    requires n <= |a| && n <= |b|
    decreases n
  {
    if n == 0 then 0
    else if a[0] != b[0] then a[0] - b[0]
    else Memcmp(a[1..], b[1..], n - 1)
  }

  function Min(m: nat, n: nat): nat {
    if m <= n then m else n
  }

  predicate SliceLess(a: Slice, b: Slice) {
    var cmp := Memcmp(a, b, Min(|a|, |b|));
    if cmp != 0 then cmp < 0 else |a| < |b|
  }

  /** A comparison of an integer with a slice aborts in the source. No key trait mixes the
      two kinds; here integers come first, so that proofs have a bound below all slices. */
  datatype OrderedKey = Value(value: nat) | Bytes(slice: Slice)

  predicate Less(a: OrderedKey, b: OrderedKey) {
    match (a, b)
    case (Value(m), Value(n)) => m < n
    case (Bytes(s), Bytes(t)) => SliceLess(s, t)
    case (Value(_), Bytes(_)) => true
    case (Bytes(_), Value(_)) => false
  }

  predicate AtMost(a: OrderedKey, b: OrderedKey) {
    Less(a, b) || a == b
  }

  // ----- the order is total

  lemma {:induction false} SliceLessUnfold(a: Slice, b: Slice)
    ensures SliceLess(a, b) <==>
            b != [] && (a == [] || a[0] < b[0] || (a[0] == b[0] && SliceLess(a[1..], b[1..])))
  {
    if a != [] && b != [] {
      assert Min(|a|, |b|) == Min(|a[1..]|, |b[1..]|) + 1;
    }
  }

  lemma {:induction false} SliceTrichotomy(a: Slice, b: Slice)
    ensures SliceLess(a, b) || a == b || SliceLess(b, a)
    ensures !(SliceLess(a, b) && SliceLess(b, a)) && !(a == b && SliceLess(a, b))
    decreases |a|
  {
    SliceLessUnfold(a, b);
    SliceLessUnfold(b, a);
    if a != [] && b != [] && a[0] == b[0] {
      SliceTrichotomy(a[1..], b[1..]);
      assert a == [a[0]] + a[1..] && b == [b[0]] + b[1..];
    }
  }

  lemma {:induction false} SliceTransitive(a: Slice, b: Slice, c: Slice)
    requires SliceLess(a, b) && SliceLess(b, c)
    ensures SliceLess(a, c)
    decreases |a|
  {
    SliceLessUnfold(a, b);
    SliceLessUnfold(b, c);
    SliceLessUnfold(a, c);
    if a != [] && a[0] == b[0] == c[0] {
      SliceTransitive(a[1..], b[1..], c[1..]);
    }
  }

  lemma Trichotomy(a: OrderedKey, b: OrderedKey)
    ensures Less(a, b) || a == b || Less(b, a)
    ensures !(Less(a, b) && Less(b, a)) && !(a == b && Less(a, b))
  {
    if a.Bytes? && b.Bytes? {
      SliceTrichotomy(a.slice, b.slice);
    }
  }

  lemma Transitive(a: OrderedKey, b: OrderedKey, c: OrderedKey)
    requires Less(a, b) && Less(b, c)
    ensures Less(a, c)
  {
    if a.Bytes? && b.Bytes? && c.Bytes? {
      SliceTransitive(a.slice, b.slice, c.slice);
    }
  }
}

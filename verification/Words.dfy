/** Words of 32 bits with the operations of the rolling hash. */
module Words {
  import opened RollingHash

  function Rotate(x: bv32): bv32 {
    (x << 1) | (x >> 31)
  }

  /** The two shifts of a rotation by less than the width; by 0 the right shift clears
      everything. */
  function Shifts(x: bv32, s: bv32): bv32
    requires s < 32
  {
    (x << s) | (x >> (32 - s))
  }

  function ShiftAmount(n: nat): (s: bv32)
    ensures s < 32
  {
    ((n % 32) as bv5) as bv32
  }

  lemma ShiftsNext(x: bv32, s: bv32)
    requires s < 31
    ensures Rotate(Shifts(x, s)) == Shifts(x, s + 1)
  {
  }

  lemma ShiftsWrap(x: bv32)
    ensures Shifts(x, 0) == x == Rotate(Shifts(x, 31))
  {
  }

  lemma AmountNext(j: nat)
    requires j < 31
    ensures (j + 1) as bv5 == (j as bv5) + 1 && j as bv5 != 31
  {
    if j < 8 {
    } else if j < 16 {
    } else if j < 24 {
    }
  }

  lemma WidenNext(s: bv5)
    requires s != 31
    ensures (s + 1) as bv32 == (s as bv32) + 1 && s as bv32 < 31
  {
  }

  lemma RemainderNext(n: nat)
    ensures n % 32 < 31 ==> (n + 1) % 32 == n % 32 + 1
    ensures n % 32 == 31 ==> (n + 1) % 32 == 0
  {
  }

  /** The next amount is one more, or wraps around. */
  lemma AmountStep(n: nat)
    ensures n % 32 < 31 ==> ShiftAmount(n) < 31 && ShiftAmount(n + 1) == ShiftAmount(n) + 1
    ensures n % 32 == 31 ==> ShiftAmount(n) == 31 && ShiftAmount(n + 1) == 0
  {
    RemainderNext(n);
    if n % 32 < 31 {
      AmountNext(n % 32);
      WidenNext((n % 32) as bv5);
    }
  }

  lemma ShiftsStep(x: bv32, n: nat)
    ensures Rotate(Shifts(x, ShiftAmount(n))) == Shifts(x, ShiftAmount(n + 1))
  {
    AmountStep(n);
    if n % 32 < 31 {
      ShiftsNext(x, ShiftAmount(n));
    } else {
      ShiftsWrap(x);
    }
  }

  /** Shifting by n modulo the width rotates n times. */
  lemma {:induction false} RotateByShifts(x: bv32, n: nat)
    ensures RotateBy(Rotate, x, n) == Shifts(x, ShiftAmount(n))
  {
    if n == 0 {
      ShiftsWrap(x);
    } else {
      RotateByShifts(x, n - 1);
      ShiftsStep(x, n - 1);
    }
  }

  /** Words for a window of `n` bytes. */
  function Uint32(n: nat): Ops<bv32> {
    Ops(0, (x: bv32, y: bv32) => x ^ y, Rotate, x => Shifts(x, ShiftAmount(n)))
  }

  /** All bits of the pattern are set. */
  function HasBits(pattern: bv32): bv32 -> bool {
    x => x & pattern == pattern
  }

  lemma XorRegroups(r: bv32, d: bv32, t: bv32)
    ensures Rotate(r) ^ (Rotate(d) ^ t) == Rotate(r ^ d) ^ t
  {
  }

  lemma XorCancels(r: bv32, d: bv32, t: bv32)
    ensures (Rotate(r ^ d) ^ Rotate(r)) ^ t == Rotate(d) ^ t
  {
  }

  lemma NeutralWords(n: nat)
    ensures Neutral(Uint32(n))
  {
  }

  lemma RegroupsWords(n: nat)
    ensures Regroups(Uint32(n))
  {
    var ops := Uint32(n);
    forall r, d, t ensures ops.xor(ops.rot(r), ops.xor(ops.rot(d), t)) == ops.xor(ops.rot(ops.xor(r, d)), t) {
      XorRegroups(r, d, t);
    }
  }

  lemma TurnsWords(n: nat)
    ensures Turns(Uint32(n), n)
  {
    forall x ensures Uint32(n).rotN(x) == RotateBy(Uint32(n).rot, x, n) {
      RotateByShifts(x, n);
    }
  }

  /** The shifts and exclusive ors of the source obey the laws of a rolling hash, for any
      window size. */
  lemma Uint32Lawful(n: nat)
    ensures Lawful(Uint32(n), n)
  {
    var ops := Uint32(n);
    NeutralWords(n);
    RegroupsWords(n);
    forall r, d, t ensures ops.xor(ops.xor(ops.rot(ops.xor(r, d)), ops.rot(r)), t) == ops.xor(ops.rot(d), t) {
      XorCancels(r, d, t);
    }
    TurnsWords(n);
  }
}

/** The streaming SHA-256 hasher against the Secure Hash Standard, FIPS 180-4. */
module Sha256 {
  import Keys
  import opened Sequences

  type Byte = Keys.Byte
  type Word = bv32

  // ----- functions and constants, sections 4.1.2, 4.2.2 and 5.3.3

  function Ch(x: Word, y: Word, z: Word): Word { (x & y) ^ (!x & z) }

  function Maj(x: Word, y: Word, z: Word): Word { (x & y) ^ (x & z) ^ (y & z) }

  function Rotr(x: Word, n: Word): Word
    requires n < 32
  {
    (x >> n) | (x << (32 - n))
  }

  function BigSigma0(x: Word): Word { Rotr(x, 2) ^ Rotr(x, 13) ^ Rotr(x, 22) }

  function BigSigma1(x: Word): Word { Rotr(x, 6) ^ Rotr(x, 11) ^ Rotr(x, 25) }

  function SmallSigma0(x: Word): Word { Rotr(x, 7) ^ Rotr(x, 18) ^ (x >> 3) }

  function SmallSigma1(x: Word): Word { Rotr(x, 17) ^ Rotr(x, 19) ^ (x >> 10) }

  const K: seq<Word> := [
    0x428a2f98, 0x71374491, 0xb5c0fbcf, 0xe9b5dba5, 0x3956c25b, 0x59f111f1, 0x923f82a4, 0xab1c5ed5,
    0xd807aa98, 0x12835b01, 0x243185be, 0x550c7dc3, 0x72be5d74, 0x80deb1fe, 0x9bdc06a7, 0xc19bf174,
    0xe49b69c1, 0xefbe4786, 0x0fc19dc6, 0x240ca1cc, 0x2de92c6f, 0x4a7484aa, 0x5cb0a9dc, 0x76f988da,
    0x983e5152, 0xa831c66d, 0xb00327c8, 0xbf597fc7, 0xc6e00bf3, 0xd5a79147, 0x06ca6351, 0x14292967,
    0x27b70a85, 0x2e1b2138, 0x4d2c6dfc, 0x53380d13, 0x650a7354, 0x766a0abb, 0x81c2c92e, 0x92722c85,
    0xa2bfe8a1, 0xa81a664b, 0xc24b8b70, 0xc76c51a3, 0xd192e819, 0xd6990624, 0xf40e3585, 0x106aa070,
    0x19a4c116, 0x1e376c08, 0x2748774c, 0x34b0bcb5, 0x391c0cb3, 0x4ed8aa4a, 0x5b9cca4f, 0x682e6ff3,
    0x748f82ee, 0x78a5636f, 0x84c87814, 0x8cc70208, 0x90befffa, 0xa4506ceb, 0xbef9a3f7, 0xc67178f2]

  const INITIAL: seq<Word> := [
    0x6a09e667, 0xbb67ae85, 0x3c6ef372, 0xa54ff53a, 0x510e527f, 0x9b05688c, 0x1f83d9ab, 0x5be0cd19]

  // ----- compression, section 6.2.2

  type Block = b: seq<Byte> | |b| == 64 witness seq(64, _ => 0)

  /** The registers a to h. */
  datatype Registers = Registers(a: Word, b: Word, c: Word, d: Word, e: Word, f: Word, g: Word, h: Word)

  function WordAt(block: Block, t: nat): Word
    requires t < 16
  {
    ((block[4 * t] as Word) << 24) | ((block[4 * t + 1] as Word) << 16) |
    ((block[4 * t + 2] as Word) << 8) | (block[4 * t + 3] as Word)
  }

  /** The first `n` words of a block. */
  function WordsOf(block: Block, n: nat): (m: seq<Word>)
    requires n <= 16
    ensures |m| == n
  {
    if n == 0 then [] else WordsOf(block, n - 1) + [WordAt(block, n - 1)]
  }

  /** The next word of the message schedule. */
  function NextWord(w: seq<Word>): Word
    requires 16 <= |w|
  {
    var t := |w|;
    SmallSigma1(w[t - 2]) + w[t - 7] + SmallSigma0(w[t - 15]) + w[t - 16]
  }

  /** The first `t` words of the message schedule for a block of sixteen words. */
  function Schedule(m: seq<Word>, t: nat): (w: seq<Word>)
    requires |m| == 16
    ensures |w| == t
  {
    if t == 0 then []
    else
      var w := Schedule(m, t - 1);
      w + [if t <= 16 then m[t - 1] else NextWord(w)]
  }

  function Round(r: Registers, k: Word, w: Word): Registers {
    var t1 := r.h + BigSigma1(r.e) + Ch(r.e, r.f, r.g) + k + w;
    var t2 := BigSigma0(r.a) + Maj(r.a, r.b, r.c);
    Registers(t1 + t2, r.a, r.b, r.c, r.d + t1, r.e, r.f, r.g)
  }

  /** The registers after `t` rounds. */
  function Rounds(k: seq<Word>, w: seq<Word>, r: Registers, t: nat): Registers
    requires t <= |k| && t <= |w|
  {
    if t == 0 then r else Round(Rounds(k, w, r, t - 1), k[t - 1], w[t - 1])
  }

  type Hash = h: seq<Word> | |h| == 8 witness INITIAL

  function Start(h: Hash): Registers {
    Registers(h[0], h[1], h[2], h[3], h[4], h[5], h[6], h[7])
  }

  function List(r: Registers): Hash {
    [r.a, r.b, r.c, r.d, r.e, r.f, r.g, r.h]
  }

  function Plus(x: Word, y: Word): Word { x + y }

  function Zipped<W>(h: seq<W>, k: seq<W>, add: (W, W) -> W): seq<W>
    requires |h| == |k|
  {
    seq(|h|, i requires 0 <= i < |h| => add(h[i], k[i]))
  }

  function Added(h: Hash, k: Hash): Hash {
    Zipped(h, k, Plus)
  }

  function Compress(h: Hash, block: Block): Hash {
    Added(h, List(Rounds(K, Schedule(WordsOf(block, |block| / 4), |K|), Start(h), |K|)))
  }

  method LoadWords(block: Block) returns (m: seq<Word>)
    ensures m == WordsOf(block, |block| / 4)
  {
    m := [];
    for i := 0 to |block| / 4
      invariant m == WordsOf(block, i)
    {
      m := m + [WordAt(block, i)];
    }
  }

  /** Expands a block into the schedule. */
  method Expand(m: seq<Word>, n: nat) returns (w: array<Word>)
    requires |m| == 16 <= n
    ensures fresh(w) && w[..] == Schedule(m, n)
  {
    w := new Word[n](_ => 0);
    for i := 0 to 16
      invariant w[..i] == Schedule(m, i)
    {
      w[i] := m[i];
    }
    for i := 16 to n
      invariant w[..i] == Schedule(m, i)
    {
      w[i] := NextWord(w[..i]);
    }
    assert w[..n] == w[..];
  }

  method RunRounds(k: seq<Word>, w: seq<Word>, start: Registers) returns (r: Registers)
    requires |k| == |w|
    ensures r == Rounds(k, w, start, |k|)
  {
    r := start;
    for i := 0 to |k|
      invariant r == Rounds(k, w, start, i)
    {
      r := Round(r, k[i], w[i]);
    }
  }

  /** Adds words to others in place. */
  method AddTo<W>(digest: array<W>, k: seq<W>, add: (W, W) -> W)
    requires digest.Length == |k|
    modifies digest
    ensures digest[..] == Zipped(old(digest[..]), k, add)
  {
    for i := 0 to |k|
      invariant forall j :: 0 <= j < i ==> digest[j] == add(old(digest[j]), k[j])
      invariant forall j :: i <= j < |k| ==> digest[j] == old(digest[j])
    {
      digest[i] := add(digest[i], k[i]);
    }
  }

  /** Compresses a block into the digest. */
  method HashBlock(digest: array<Word>, block: Block)
    requires digest.Length == 8
    modifies digest
    ensures digest[..] == Compress(old(digest[..]), block)
  {
    var m := LoadWords(block);
    var w := Expand(m, |K|);
    var regs := RunRounds(K, w[..], Start(digest[..]));
    AddTo(digest, List(regs), Plus);
  }

  // ----- hashing whole messages, sections 5.1.1, 5.2.1 and 6.2

  type Compression = (Hash, Block) -> Hash

  /** The digest after all whole blocks of `m`. */
  function CompressAll(compress: Compression, h: Hash, m: seq<Byte>): Hash
    decreases |m|
  {
    if |m| < 64 then h else CompressAll(compress, compress(h, m[..64]), m[64..])
  }

  lemma {:induction false} CompressConcat(compress: Compression, h: Hash, m: seq<Byte>, n: seq<Byte>)
    requires |m| % 64 == 0
    ensures CompressAll(compress, h, m + n) == CompressAll(compress, CompressAll(compress, h, m), n)
    decreases |m|
  {
    if |m| == 0 {
      assert m + n == n;
    } else {
      assert (m + n)[..64] == m[..64] && (m + n)[64..] == m[64..] + n;
      CompressConcat(compress, compress(h, m[..64]), m[64..], n);
    }
  }

  /** The whole blocks of a message. */
  function Whole(m: seq<Byte>): seq<Byte> { m[..|m| - |m| % 64] }

  /** What is left of a message after its whole blocks. */
  function Left(m: seq<Byte>): seq<Byte> { m[|m| - |m| % 64..] }

  lemma WholeAppend(m: seq<Byte>, n: seq<Byte>)
    ensures Whole(m + n) == Whole(m) + Whole(Left(m) + n) && Left(m + n) == Left(Left(m) + n)
  {
    var k := |Whole(m)|;
    assert m == Whole(m) + Left(m) && k % 64 == 0;
    assert m + n == Whole(m) + (Left(m) + n);
    assert |m + n| % 64 == |Left(m) + n| % 64;
  }

  const TWO16 := 0x1_0000
  const TWO32 := 0x1_0000_0000
  const TWO64 := 0x1_0000_0000_0000_0000

  /** The byte of a number that counts multiples of `unit`. */
  function ByteOf(v: nat, unit: nat): Byte
    requires 0 < unit
  {
    v / unit % 256
  }

  /** A number in 64 bits, most significant byte first. */
  function BigEndian(v: nat): seq<Byte> {
    [ByteOf(v, 0x100_0000_0000_0000), ByteOf(v, 0x1_0000_0000_0000), ByteOf(v, 0x100_0000_0000),
     ByteOf(v, 0x1_0000_0000), ByteOf(v, 0x100_0000), ByteOf(v, 0x1_0000), ByteOf(v, 0x100), ByteOf(v, 1)]
  }

  function Zeros(n: nat): seq<Byte> { seq(n, _ => 0) }

  /** The padding of section 5.1.1 for a message of `n` bytes, with `bits` as its length
      field: a one bit, the fewest zero bits that make whole blocks, and the length. */
  function Padding(n: nat, bits: nat): seq<Byte> { Fill(n, BigEndian(bits)) }

  function Fill(n: nat, field: seq<Byte>): seq<Byte> {
    [0x80] + Zeros((55 - n) % 64) + field
  }

  lemma PaddingFills(n: nat, bits: nat)
    ensures (n + |Padding(n, bits)|) % 64 == 0 && 9 <= |Padding(n, bits)| <= 72
  {
  }

  /** The hash of section 6.2. */
  function Sha(m: seq<Byte>): Hash {
    CompressAll(Compress, INITIAL, m + Padding(|m|, 8 * |m| % TWO64))
  }

  // ----- the length in four digits of 16 bits

  type Digits = d: seq<nat> | |d| == 4 && forall i :: 0 <= i < 4 ==> d[i] < TWO16 witness [0, 0, 0, 0]

  function Place(i: nat): nat
    requires i <= 4
  {
    if i == 0 then 1 else if i == 1 then TWO16 else if i == 2 then TWO32 else if i == 3 then 0x1_0000_0000_0000
    else TWO64
  }

  function Value(d: seq<nat>): nat
    requires |d| == 4
  {
    d[0] + d[1] * Place(1) + d[2] * Place(2) + d[3] * Place(3)
  }

  lemma ValueUpdate(d: seq<nat>, i: nat, x: nat)
    requires |d| == 4 && i < 4
    ensures Value(d[i := x]) == Value(d) - d[i] * Place(i) + x * Place(i)
  {
  }

  lemma ValueBound(d: Digits)
    ensures Value(d) < TWO64
  {
  }

  lemma CarryOn(x: nat, i: nat)
    requires i < 4
    ensures x * Place(i) == x % TWO16 * Place(i) + x / TWO16 * Place(i + 1)
  {
  }

  /** What adding a length `n` to the lowest digit of 32 bits really adds. */
  function Added32(digit: nat, n: nat): int {
    (digit + n % TWO32) % TWO32 - digit
  }

  /** Carries on from the i-th digit. */
  function Carried(d: seq<nat>, carry: nat, i: nat): (r: seq<nat>)
    requires |d| == 4 && i <= 4
    ensures |r| == 4
    decreases 4 - i
  {
    if i == 4 then d
    else if d[i] + carry < TWO16 then d[i := d[i] + carry]
    else Carried(d[i := (d[i] + carry) % TWO16], (d[i] + carry) / TWO16, i + 1)
  }

  lemma {:induction false} CarriedDigits(d: seq<nat>, carry: nat, i: nat)
    requires |d| == 4 && i <= 4 && forall j :: 0 <= j < 4 && j != i ==> d[j] < TWO16
    ensures forall j :: 0 <= j < 4 ==> Carried(d, carry, i)[j] < TWO16
    decreases 4 - i
  {
    if i < 4 && d[i] + carry >= TWO16 {
      CarriedDigits(d[i := (d[i] + carry) % TWO16], (d[i] + carry) / TWO16, i + 1);
    }
  }

  lemma {:induction false} CarriedValue(d: seq<nat>, carry: nat, i: nat)
    requires |d| == 4 && i <= 4 && forall j :: 0 <= j < 4 && j != i ==> d[j] < TWO16
    ensures Value(Carried(d, carry, i)) % TWO64 == (Value(d) + carry * Place(i)) % TWO64
    decreases 4 - i
  {
    if i == 4 {
      Shifted(Value(d) + carry * TWO64, carry);
    } else {
      CarryStep(d, carry, i);
      if d[i] + carry >= TWO16 {
        var next, over := d[i := (d[i] + carry) % TWO16], (d[i] + carry) / TWO16;
        CarriedValue(next, over, i + 1);
        assert Value(next) + over * Place(i + 1) == Value(d) + carry * Place(i);
      }
    }
  }

  /** Carries from the lowest digit up, as far as need be. */
  method CarryUp(start: seq<nat>) returns (d: seq<nat>)
    requires |start| == 4
    ensures d == Carried(start, 0, 0)
  {
    d := start;
    var carry: nat := 0;
    for i := 0 to 4
      invariant |d| == 4 && Carried(start, 0, 0) == Carried(d, carry, i)
    {
      ghost var before := d;
      d := d[i := d[i] + carry];
      if d[i] >= TWO16 {
        carry := d[i] / TWO16;
        d := d[i := d[i] % TWO16];
        assert d == before[i := d[i]];
      } else {
        return;
      }
    }
  }

  /** The lowest digit takes a length, in 32 bits. */
  function Raised(digits: Digits, n: nat): seq<nat> {
    digits[0 := (digits[0] + n % TWO32) % TWO32]
  }

  method AddToDataLength(digits: Digits, n: nat) returns (r: Digits)
    ensures Value(r) == (Value(digits) + Added32(digits[0], n)) % TWO64
  {
    RaisedCarried(digits, n);
    r := CarryUp(Raised(digits, n));
  }

  lemma RaisedCarried(digits: Digits, n: nat)
    ensures var r := Carried(Raised(digits, n), 0, 0);
      && (forall i :: 0 <= i < 4 ==> r[i] < TWO16)
      && Value(r) == (Value(digits) + Added32(digits[0], n)) % TWO64
  {
    var start := Raised(digits, n);
    CarriedDigits(start, 0, 0);
    CarriedValue(start, 0, 0);
    RaisedValue(digits, n);
    ValueBound(Carried(start, 0, 0));
    Reduced(Value(Carried(start, 0, 0)), Value(digits) + Added32(digits[0], n));
  }

  lemma RaisedValue(digits: Digits, n: nat)
    ensures Value(Raised(digits, n)) == Value(digits) + Added32(digits[0], n)
  {
    ValueUpdate(digits, 0, Raised(digits, n)[0]);
  }

  lemma Reduced(v: nat, x: int)
    requires v < TWO64 && v % TWO64 == x % TWO64
    ensures v == x % TWO64
  {
  }

  lemma CarryStep(d: seq<nat>, carry: nat, i: nat)
    requires |d| == 4 && i < 4
    ensures var x := d[i] + carry;
      && Value(d[i := x]) == Value(d) + carry * Place(i)
      && Value(d[i := x % TWO16]) + x / TWO16 * Place(i + 1) == Value(d) + carry * Place(i)
  {
    var x := d[i] + carry;
    ValueUpdate(d, i, x);
    ValueUpdate(d, i, x % TWO16);
    CarryOn(x, i);
  }

  /** The digits count a piece right exactly if the lowest digit does not overflow 32
      bits; a piece has fewer than 2^63 bytes. */
  lemma LengthExact(digits: Digits, n: nat)
    requires n < TWO64 / 2
    ensures (Value(digits) + Added32(digits[0], n)) % TWO64 == (Value(digits) + n) % TWO64 <==>
            digits[0] + n < TWO32
  {
    var q := Overflows(digits[0], n);
    MultiplesCount(Value(digits) + n, q);
  }

  lemma Overflows(digit: nat, n: nat) returns (q: nat)
    requires digit < TWO16
    ensures q == (digit + n) / TWO32 && Added32(digit, n) == n - q * TWO32 && (q == 0 <==> digit + n < TWO32)
  {
    q := (digit + n) / TWO32;
    assert (digit + n % TWO32) % TWO32 == digit + n - q * TWO32;
  }

  /** Such a piece: 2^32 bytes count for none. */
  lemma LengthLost()
    ensures Value([0, 0, 0, 0]) == 0 && (0 + Added32(0, TWO32)) % TWO64 == 0
  {
  }

  /** Taking away few multiples of 2^32 changes a number modulo 2^64. */
  lemma MultiplesCount(x: int, q: nat)
    requires q < TWO32
    ensures (x - q * TWO32) % TWO64 == x % TWO64 <==> q == 0
  {
  }

  /** Each digit eightfold, with the three bits that the one below gives up. */
  function Eightfold(d: Digits): (e: Digits) {
    [8 * d[0] % TWO16, (8 * d[1] + d[0] / 8192) % TWO16, (8 * d[2] + d[1] / 8192) % TWO16,
     (8 * d[3] + d[2] / 8192) % TWO16]
  }

  lemma GivesUp(v: nat, c: nat)
    requires c < 8
    ensures 8 * v + c == (8 * v + c) % TWO16 + v / 8192 * TWO16
  {
  }

  lemma EightfoldSum(d: Digits)
    ensures 8 * Value(d) == Value(Eightfold(d)) + d[3] / 8192 * TWO64
  {
    var c0, c1, c2 := d[0] / 8192, d[1] / 8192, d[2] / 8192;
    GivesUp(d[0], 0);
    GivesUp(d[1], c0);
    GivesUp(d[2], c1);
    GivesUp(d[3], c2);
  }

  lemma EightfoldValue(d: Digits)
    ensures Value(Eightfold(d)) == 8 * Value(d) % TWO64
  {
    EightfoldSum(d);
    ValueBound(Eightfold(d));
    Remainder(8 * Value(d), Value(Eightfold(d)), d[3] / 8192);
  }

  lemma Remainder(x: nat, y: nat, k: nat)
    requires x == y + k * TWO64 && y < TWO64
    ensures x % TWO64 == y
  {
  }

  /** From bytes to bits: every digit is shifted left by three bits. */
  method BitLength(digits: Digits) returns (e: Digits)
    ensures e == Eightfold(digits)
  {
    e := digits;
    var carry: nat := 0;
    for i := 0 to 4
      invariant carry == if i == 0 then 0 else digits[i - 1] / 8192
      invariant forall j :: 0 <= j < i ==> e[j] == Eightfold(digits)[j]
      invariant forall j :: i <= j < 4 ==> e[j] == digits[j]
    {
      var before := e[i];
      e := e[i := (8 * e[i] + carry) % TWO16];
      carry := before / 8192;
    }
  }

  /** The digits as bytes, most significant first. */
  function DigitBytes(d: Digits): seq<Byte> {
    [(d[3] / 256), (d[3] % 256), (d[2] / 256), (d[2] % 256),
     (d[1] / 256), (d[1] % 256), (d[0] / 256), (d[0] % 256)]
  }

  lemma Monotone(a: int, b: int, m: nat)
    requires a <= b
    ensures a * m <= b * m
  {
  }

  lemma Quotient(v: nat, q: nat, r: nat, m: nat)
    requires v == q * m + r && r < m
    ensures v / m == q
  {
    var k := v / m;
    assert v == k * m + v % m;
    if k < q {
      Monotone(k + 1, q, m);
    } else if q < k {
      Monotone(q + 1, k, m);
    }
  }

  lemma Quotients(w: nat, lower: nat, unit: nat)
    requires lower < unit
    ensures var v := w * unit + lower; v / unit == w && v / (unit * 256) == w / 256
  {
    var v, q, r := w * unit + lower, w / 256, w % 256;
    Quotient(v, w, lower, unit);
    Monotone(r + 1, 256, unit);
    assert w == 256 * q + r;
    assert v == q * (unit * 256) + (r * unit + lower);
    Quotient(v, q, r * unit + lower, unit * 256);
  }

  lemma Halves(upper: nat, digit: nat)
    requires digit < TWO16
    ensures var w := upper * TWO16 + digit; w / 256 % 256 == digit / 256 && w % 256 == digit % 256
  {
  }

  /** The two bytes of the digit that stands at `unit`. */
  lemma DigitAt(upper: nat, digit: nat, lower: nat, unit: nat)
    requires digit < TWO16 && lower < unit
    ensures var v := (upper * TWO16 + digit) * unit + lower;
      v / (unit * 256) % 256 == digit / 256 && v / unit % 256 == digit % 256
  {
    Quotients(upper * TWO16 + digit, lower, unit);
    Halves(upper, digit);
  }

  lemma DigitOf(d: Digits, k: nat)
    requires k < 4
    ensures ByteOf(Value(d), Place(k) * 256) == d[k] / 256
    ensures ByteOf(Value(d), Place(k)) == d[k] % 256
  {
    if k == 0 {
      DigitAt(d[1] + d[2] * TWO16 + d[3] * TWO32, d[0], 0, 1);
    } else if k == 1 {
      DigitAt(d[2] + d[3] * TWO16, d[1], d[0], TWO16);
    } else if k == 2 {
      DigitAt(d[3], d[2], d[0] + d[1] * TWO16, TWO32);
    } else {
      DigitAt(0, d[3], d[0] + d[1] * TWO16 + d[2] * TWO32, Place(3));
    }
  }

  lemma DigitsBigEndian(d: Digits)
    ensures DigitBytes(d) == BigEndian(Value(d))
  {
    DigitOf(d, 0);
    DigitOf(d, 1);
    DigitOf(d, 2);
    DigitOf(d, 3);
  }

  /** Writes the length in bits, most significant byte first. */
  method WriteDataBitLength(digits: Digits) returns (bytes: seq<Byte>)
    ensures bytes == BigEndian(8 * Value(digits) % TWO64)
  {
    var e := BitLength(digits);
    EightfoldValue(digits);
    DigitsBigEndian(e);
    bytes := WriteDigits(e);
  }

  method WriteDigits(d: Digits) returns (bytes: seq<Byte>)
    ensures bytes == DigitBytes(d)
  {
    bytes := [];
    for i := 4 downto 0
      invariant bytes == DigitBytes(d)[..8 - 2 * i]
    {
      bytes := bytes + [(d[i] / 256), (d[i] % 256)];
    }
  }

  // ----- the hasher

  /** Takes a message in pieces; the state depends on the message alone, however it is
      split. Blocks are compressed by `compress`, which for SHA-256 is `Compress`. */
  class Hasher {
    const compress: Compression
    var buffer: seq<Byte>
    var digits: Digits
    var h: Hash
    ghost var message: seq<Byte>
    ghost var lost: nat

    /** The digits hold the length of the message, but for `lost` times 2^32. */
    ghost predicate Valid()
      reads this
    {
      && buffer == Left(message) && h == CompressAll(compress, INITIAL, Whole(message))
      && Value(digits) == (|message| - lost * TWO32) % TWO64
    }

    constructor (compress: Compression)
      ensures Valid() && lost == 0 && message == [] && this.compress == compress
    {
      this.compress := compress;
      buffer, digits, h, message, lost := [], [0, 0, 0, 0], INITIAL, [], 0;
      new;
      EmptyMessage(compress, h);
    }

    method Init()
      modifies this
      ensures Valid() && lost == 0 && message == []
    {
      buffer, digits, h, message, lost := [], [0, 0, 0, 0], INITIAL, [], 0;
      EmptyMessage(compress, h);
      assert |message| - lost * TWO32 == 0 - 0 * TWO32;
    }

    /** Compresses the whole blocks of the buffer and keeps the rest. */
    method CompressBuffer()
      modifies this`buffer, this`h
      ensures buffer == Left(old(buffer)) && h == CompressAll(compress, old(h), Whole(old(buffer)))
    {
      var i := 0;
      while i + 64 <= |buffer|
        invariant i <= |buffer| && i % 64 == 0 && buffer == old(buffer)
        invariant h == CompressAll(compress, old(h), buffer[..i])
      {
        NextBlock(compress, old(h), buffer, i);
        h := compress(h, buffer[i..i + 64]);
        i := i + 64;
      }
      assert |buffer| - |buffer| % 64 == i;
      buffer := buffer[i..];
    }

    method Process(data: seq<Byte>)
      requires Valid()
      modifies this
      ensures Valid() && message == old(message) + data
      ensures lost == old(lost) + (|old(message)| % TWO16 + |data|) / TWO32
    {
      CountOn(digits, |message|, lost, |data|);
      WholeCompressed(compress, INITIAL, message, data);
      digits := AddToDataLength(digits, |data|);
      buffer := buffer + data;
      CompressBuffer();
      lost := lost + (|message| % TWO16 + |data|) / TWO32;
      message := message + data;
    }

    /** Compresses the rest of the message and its padding, in one block or two. */
    method Finish()
      requires Valid()
      modifies this`h
      ensures h == CompressAll(compress, INITIAL, message + Padding(|message|, 8 * (|message| - lost * TWO32) % TWO64))
    {
      LengthField(Value(digits), |message| - lost * TWO32);
      var bits := WriteDataBitLength(digits);
      h := CompressPadded(compress, h, buffer, bits, INITIAL, message);
    }
  }

  /** Compresses the rest of a message, the byte 0x80, zeros and the length field. */
  method CompressPadded(compress: Compression, h0: Hash, buffer: seq<Byte>, field: seq<Byte>,
                        ghost start: Hash, ghost m: seq<Byte>)
    returns (h: Hash)
    requires buffer == Left(m) && h0 == CompressAll(compress, start, Whole(m)) && |field| == 8
    ensures h == CompressAll(compress, start, m + Fill(|m|, field))
  {
    PaddedBlocks(compress, start, m, h0, buffer, field);
    h := h0;
    var temp := buffer + [0x80];
    if |buffer| > 55 {
      temp := temp + Zeros(63 - |buffer|);
      TwoBlocks(compress, h, temp, Zeros(56) + field);
      h := compress(h, temp);
      temp := Zeros(56);
    } else {
      temp := temp + Zeros(55 - |buffer|);
      OneBlock(compress, h, temp + field);
    }
    h := compress(h, temp + field);
  }

  /** The rest of a message with its padding makes one block, or two. */
  lemma PaddingSplits(buffer: seq<Byte>, n: nat, field: seq<Byte>)
    requires |buffer| == n % 64
    ensures buffer + Fill(n, field) ==
      if |buffer| > 55 then (buffer + [0x80] + Zeros(63 - |buffer|)) + (Zeros(56) + field)
      else (buffer + [0x80] + Zeros(55 - |buffer|)) + field
  {
    if |buffer| > 55 {
      assert (55 - n) % 64 == 119 - |buffer|;
      assert Zeros(119 - |buffer|) == Zeros(63 - |buffer|) + Zeros(56);
    } else {
      assert (55 - n) % 64 == 55 - |buffer|;
    }
  }

  lemma OneBlock(f: Compression, h: Hash, a: Block)
    ensures CompressAll(f, h, a) == f(h, a)
  {
    assert a[..64] == a && a[64..] == [];
  }

  lemma TwoBlocks(f: Compression, h: Hash, a: Block, b: Block)
    ensures CompressAll(f, h, a + b) == f(f(h, a), b)
  {
    CompressConcat(f, h, a, b);
    OneBlock(f, h, a);
    OneBlock(f, f(h, a), b);
  }

  /** The digest of a padded message is that of its whole blocks, then of the rest with
      the padding. */
  lemma PaddedCompressed(f: Compression, h: Hash, m: seq<Byte>, padding: seq<Byte>)
    ensures CompressAll(f, h, m + padding) == CompressAll(f, CompressAll(f, h, Whole(m)), Left(m) + padding)
  {
    assert m + padding == Whole(m) + (Left(m) + padding);
    CompressConcat(f, h, Whole(m), Left(m) + padding);
  }

  lemma PaddedBlocks(f: Compression, start: Hash, m: seq<Byte>, h: Hash, buffer: seq<Byte>, field: seq<Byte>)
    requires h == CompressAll(f, start, Whole(m)) && buffer == Left(m)
    ensures CompressAll(f, start, m + Fill(|m|, field)) == CompressAll(f, h,
              if |buffer| > 55 then (buffer + [0x80] + Zeros(63 - |buffer|)) + (Zeros(56) + field)
              else (buffer + [0x80] + Zeros(55 - |buffer|)) + field)
  {
    PaddedCompressed(f, start, m, Fill(|m|, field));
    PaddingSplits(buffer, |m|, field);
  }

  /** Compressing what a piece completes extends the digest of the message. */
  lemma WholeCompressed(f: Compression, start: Hash, m: seq<Byte>, n: seq<Byte>)
    ensures Left(m + n) == Left(Left(m) + n)
    ensures CompressAll(f, start, Whole(m + n)) ==
            CompressAll(f, CompressAll(f, start, Whole(m)), Whole(Left(m) + n))
  {
    WholeAppend(m, n);
    CompressConcat(f, start, Whole(m), Whole(Left(m) + n));
  }

  lemma LowestDigit(d: Digits)
    ensures Value(d) % TWO16 == d[0]
  {
    LowPart(d[0], d[1] + d[2] * TWO16 + d[3] * TWO32);
  }

  lemma LowPart(x: nat, k: nat)
    requires x < TWO16
    ensures (x + k * TWO16) % TWO16 == x
  {
  }

  lemma SameLowDigit(v: nat, length: nat, lost: nat)
    requires v == (length - lost * TWO32) % TWO64
    ensures v % TWO16 == length % TWO16
  {
    var x := length - lost * TWO32;
    var q := x / TWO64;
    assert v == length - (lost * TWO16 + q * 0x1_0000_0000_0000) * TWO16;
  }

  /** What a piece adds to the digits: its length, but for the multiples of 2^32 that the
      lowest digit of the length and the piece make up. */
  lemma CountOn(digits: Digits, length: nat, lost: nat, n: nat)
    requires Value(digits) == (length - lost * TWO32) % TWO64
    ensures (Value(digits) + Added32(digits[0], n)) % TWO64 ==
            (length + n - (lost + (length % TWO16 + n) / TWO32) * TWO32) % TWO64
  {
    LowestDigit(digits);
    SameLowDigit(Value(digits), length, lost);
    var q := Overflows(digits[0], n);
    SumModulo(length - lost * TWO32, n - q * TWO32);
  }

  lemma SumModulo(x: int, y: int)
    ensures (x % TWO64 + y) % TWO64 == (x + y) % TWO64
  {
    var q := x / TWO64;
    assert x % TWO64 + y == x + y - q * TWO64;
    Shifted(x + y, q);
  }

  lemma Shifted(x: int, q: int)
    ensures (x - q * TWO64) % TWO64 == x % TWO64
  {
  }

  lemma EmptyMessage(f: Compression, h: Hash)
    ensures Left([]) == [] && CompressAll(f, h, Whole([])) == h
    ensures Value([0, 0, 0, 0]) == (0 - 0 * TWO32) % TWO64
  {
  }

  lemma NextBlock(f: Compression, h: Hash, m: seq<Byte>, i: nat)
    requires i % 64 == 0 && i + 64 <= |m|
    ensures CompressAll(f, h, m[..i + 64]) == f(CompressAll(f, h, m[..i]), m[i..i + 64])
  {
    assert m[..i + 64] == m[..i] + m[i..i + 64];
    CompressConcat(f, h, m[..i], m[i..i + 64]);
    var b := m[i..i + 64];
    assert b[..64] == b && b[64..] == [];
  }

  lemma LengthField(v: nat, x: int)
    requires v == x % TWO64
    ensures 8 * v % TWO64 == 8 * x % TWO64
  {
    var q := x / TWO64;
    assert 8 * v == 8 * x - 8 * q * TWO64;
    Shifted(8 * x, 8 * q);
  }

  // ----- a message in pieces

  /** How many times 2^32 the digits fall short of the length of a message in pieces. */
  function Lost(pieces: seq<seq<Byte>>): nat {
    if pieces == [] then 0
    else
      var init, last := pieces[..|pieces| - 1], pieces[|pieces| - 1];
      Lost(init) + (|Concat(init)| % TWO16 + |last|) / TWO32
  }

  /** No piece, added to the lowest digit of the length before it, comes to 2^32. */
  ghost predicate Fits(pieces: seq<seq<Byte>>) {
    forall i :: 0 <= i < |pieces| ==> |Concat(pieces[..i])| % TWO16 + |pieces[i]| < TWO32
  }

  /** Nothing is lost exactly if every piece fits. */
  lemma {:induction false} LostNone(pieces: seq<seq<Byte>>)
    ensures Lost(pieces) == 0 <==> Fits(pieces)
    decreases |pieces|
  {
    if pieces != [] {
      var n := |pieces| - 1;
      var init := pieces[..n];
      LostNone(init);
      assert forall i :: 0 <= i < n ==> init[i] == pieces[i] && init[..i] == pieces[..i];
      if Fits(init) && |Concat(init)| % TWO16 + |pieces[n]| < TWO32 {
        forall i | 0 <= i < |pieces| ensures |Concat(pieces[..i])| % TWO16 + |pieces[i]| < TWO32 {
          assert i < n ==> init[i] == pieces[i] && init[..i] == pieces[..i];
        }
      }
      if Fits(pieces) {
        forall i | 0 <= i < n ensures |Concat(init[..i])| % TWO16 + |init[i]| < TWO32 {
          assert init[i] == pieces[i] && init[..i] == pieces[..i];
        }
        assert |Concat(pieces[..n])| % TWO16 + |pieces[n]| < TWO32;
      }
    }
  }

  /** No more is lost than there was. */
  lemma {:induction false} LostBound(pieces: seq<seq<Byte>>)
    ensures Lost(pieces) * TWO32 + |Concat(pieces)| % TWO16 <= |Concat(pieces)|
    decreases |pieces|
  {
    if pieces != [] {
      var n := |pieces| - 1;
      LostBound(pieces[..n]);
      PiecesSnoc(pieces, n);
      assert pieces[..n + 1] == pieces;
      LostStep(|Concat(pieces[..n])|, |pieces[n]|);
    }
  }

  lemma LostStep(length: nat, n: nat)
    ensures (length % TWO16 + n) / TWO32 * TWO32 + (length + n) % TWO16 <= length % TWO16 + n
  {
    var sum := length % TWO16 + n;
    assert (length + n) % TWO16 == sum % TWO16;
    assert sum % TWO16 <= sum % TWO32;
  }

  /** The length in bits that the digest takes in. */
  function BitsOf(pieces: seq<seq<Byte>>): nat {
    8 * (|Concat(pieces)| - Lost(pieces) * TWO32) % TWO64
  }

  /** Within the lengths SHA-256 allows, below 2^64 bits, it is right exactly if every piece
      fits. */
  lemma BitsExact(pieces: seq<seq<Byte>>)
    requires 8 * |Concat(pieces)| < TWO64
    ensures BitsOf(pieces) == 8 * |Concat(pieces)| <==> Fits(pieces)
  {
    LostNone(pieces);
    LostBound(pieces);
    BitsMissing(|Concat(pieces)|, Lost(pieces));
  }

  lemma BitsMissing(n: nat, lost: nat)
    requires 8 * n < TWO64 && lost * TWO32 <= n
    ensures 8 * (n - lost * TWO32) % TWO64 == 8 * n <==> lost == 0
  {
  }

  lemma FittingBits(pieces: seq<seq<Byte>>)
    requires Fits(pieces)
    ensures BitsOf(pieces) == 8 * |Concat(pieces)| % TWO64
  {
    LostNone(pieces);
  }

  /** A piece of 2^32 bytes: its length is taken for zero. */
  lemma LongPiece(piece: seq<Byte>)
    requires |piece| == TWO32
    ensures !Fits([piece]) && BitsOf([piece]) == 0
  {
    ConcatOne(piece);
    assert [piece][..0] == [];
    assert |Concat([piece][..0])| % TWO16 + |[piece][0]| == TWO32;
    assert Lost([piece]) == Lost([]) + 1;
  }

  method DigestPieces(compress: Compression, pieces: seq<seq<Byte>>) returns (digest: Hash)
    ensures digest == CompressAll(compress, INITIAL, Concat(pieces) + Padding(|Concat(pieces)|, BitsOf(pieces)))
  {
    var hasher := new Hasher(compress);
    for i := 0 to |pieces|
      invariant hasher.Valid() && hasher.message == Concat(pieces[..i]) && fresh(hasher)
      invariant hasher.compress == compress && hasher.lost == Lost(pieces[..i])
    {
      PiecesSnoc(pieces, i);
      LostSnoc(pieces, i);
      hasher.Process(pieces[i]);
    }
    assert pieces[..|pieces|] == pieces;
    hasher.Finish();
    digest := hasher.h;
  }

  lemma LostSnoc(pieces: seq<seq<Byte>>, i: nat)
    requires i < |pieces|
    ensures Lost(pieces[..i + 1]) == Lost(pieces[..i]) + (|Concat(pieces[..i])| % TWO16 + |pieces[i]|) / TWO32
  {
    assert pieces[..i + 1][..i] == pieces[..i];
  }

  /** Hashes a message given in pieces. The digest is that of the whole message if every
      piece fits; otherwise that of the message with another length in its padding. */
  method HashPieces(pieces: seq<seq<Byte>>) returns (bytes: seq<Byte>)
    ensures var m := Concat(pieces);
      bytes == HashBytes(CompressAll(Compress, INITIAL, m + Padding(|m|, BitsOf(pieces))))
    ensures Fits(pieces) ==> bytes == HashBytes(Sha(Concat(pieces)))
  {
    if Fits(pieces) {
      FittingBits(pieces);
    }
    var digest := DigestPieces(Compress, pieces);
    bytes := GetHashBytes(digest);
  }

  lemma PiecesSnoc(pieces: seq<seq<Byte>>, i: nat)
    requires i < |pieces|
    ensures Concat(pieces[..i + 1]) == Concat(pieces[..i]) + pieces[i]
  {
    assert pieces[..i + 1] == pieces[..i] + [pieces[i]];
    ConcatSnoc(pieces[..i], pieces[i]);
  }

  // ----- the digest as bytes

  function LowByte(w: Word): Byte { (w & 0xff) as int }

  /** A byte of a word, counted from the most significant one. */
  function ByteAt(w: Word, i: nat): Byte
    requires i < 4
  {
    LowByte(w >> (24 - 8 * i))
  }

  /** The words of a digest as bytes, most significant first. */
  function HashBytes(h: Hash): seq<Byte> {
    seq(32, k requires 0 <= k < 32 => ByteAt(h[k / 4], k % 4))
  }

  /** Writes out the digest, word by word. */
  method GetHashBytes(h: Hash) returns (bytes: seq<Byte>)
    ensures bytes == HashBytes(h)
  {
    bytes := [];
    for t := 0 to 8
      invariant |bytes| == 4 * t && bytes == HashBytes(h)[..4 * t]
    {
      for i := 0 to 4
        invariant |bytes| == 4 * t + i && bytes == HashBytes(h)[..4 * t + i]
      {
        assert (4 * t + i) / 4 == t && (4 * t + i) % 4 == i;
        bytes := bytes + [ByteAt(h[t], i)];
      }
    }
  }
}

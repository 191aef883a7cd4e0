/** 32-bit machine words.

    A word is kept as the unsigned integer its bit pattern denotes, in
    [0, 2^32). The simulator stores registers as `int32_t`, memory as
    `int32_t` and the program counter as `uint32_t`; all three are the same
    32-bit pattern here, and `Signed` gives the two's-complement reading.
    Wrap-around is explicit (`Wrap`), and the bitwise operators are defined
    bit by bit, least significant bit first.
 */
module Words {

  const Modulus: int := 0x1_0000_0000
  const MaxWord: int := 0xFFFF_FFFF
  /** The number of bits in a word. */
  const WordBits: nat := 32

  type Word = x: int | 0 <= x < 0x1_0000_0000

  function Pow2(n: nat): (r: nat)
    ensures r >= 1
  {
    if n == 0 then 1 else 2 * Pow2(n - 1)
  }

  lemma {:induction false} Pow2Add(m: nat, n: nat)
    ensures Pow2(m + n) == Pow2(m) * Pow2(n)
    decreases m
  {
    if m > 0 {
      Pow2Add(m - 1, n);
      assert Pow2(m + n) == 2 * Pow2(m - 1 + n);
    }
  }

  lemma Pow2Split(k: nat)
    requires k <= WordBits
    ensures Pow2(k) * Pow2(WordBits - k) == Modulus
  {
    Pow2Add(k, WordBits - k);
    Pow2Word();
  }

  lemma Pow2Word()
    ensures Pow2(16) == 0x10000
    ensures Pow2(5) == 32
    ensures Pow2(WordBits) == Modulus
  {
    assert Pow2(5) == 32;
    assert Pow2(16) == 0x10000;
    Pow2Add(16, 16);
  }

  /** The word an unbounded integer wraps around to: the result is the unique
      word congruent to `x` modulo 2^32. */
  function Wrap(x: int): (w: Word)
    ensures (x - w) % Modulus == 0
    ensures 0 <= x < Modulus ==> w == x
  {
    x % Modulus
  }

  /** The two's-complement value of a word (what `int32_t` holds). */
  function Signed(w: Word): (i: int)
    ensures -0x8000_0000 <= i < 0x8000_0000
    ensures i < 0 <==> w >= 0x8000_0000
  {
    if w < 0x8000_0000 then w else w - Modulus
  }

  /** 32-bit addition: the sum wraps modulo 2^32 and agrees with signed
      addition whenever the signed sum fits in 32 bits. */
  function AddWrap(a: Word, b: Word): (r: Word)
    ensures (r - (a + b)) % Modulus == 0
    ensures -0x8000_0000 <= Signed(a) + Signed(b) < 0x8000_0000 ==>
              Signed(r) == Signed(a) + Signed(b)
  {
    Wrap(a + b)
  }

  /** 32-bit subtraction, with the same two readings as `AddWrap`. */
  function SubWrap(a: Word, b: Word): (r: Word)
    ensures (r - (a - b)) % Modulus == 0
    ensures -0x8000_0000 <= Signed(a) - Signed(b) < 0x8000_0000 ==>
              Signed(r) == Signed(a) - Signed(b)
  {
    Wrap(a - b)
  }

  /** Bitwise AND of the low `n` bits of `a` and `b`. */
  function AndBits(a: nat, b: nat, n: nat): (r: nat)
    ensures r <= a && r <= b
    decreases n
  {
    if n == 0 then 0
    else 2 * AndBits(a / 2, b / 2, n - 1) + (if a % 2 == 1 && b % 2 == 1 then 1 else 0)
  }

  /** Division and remainder by an even modulus, one bit at a time. */
  lemma ModDouble(a: nat, p: nat)
    requires p >= 1
    ensures a % (2 * p) == 2 * ((a / 2) % p) + a % 2
  {
    var q := a / 2;
    assert a == 2 * q + a % 2;
    assert q == p * (q / p) + q % p;
    assert a == (2 * p) * (q / p) + (2 * (q % p) + a % 2);
    ModUnique(a, 2 * p, q / p, 2 * (q % p) + a % 2);
  }

  /** Quotient and remainder are unique. */
  lemma ModUnique(a: int, d: int, k: int, r: int)
    requires d > 0 && 0 <= r < d && a == d * k + r
    ensures a % d == r && a / d == k
  {
    var q := a / d;
    assert d * q + a % d == d * k + r;
    assert d * (q - k) == r - a % d;
    if q > k {
      MulAtLeast(d, q - k);
      assert false;
    } else if q < k {
      MulAtLeast(d, k - q);
      assert false;
    }
  }

  lemma MulAtLeast(d: int, x: int)
    requires d > 0 && x >= 1
    ensures d * x >= d
  {
  }

  /** AND with a mask of `k` low ones keeps exactly the low `k` bits. */
  lemma {:induction false} AndLowMask(a: nat, k: nat, n: nat)
    requires k <= n
    ensures AndBits(a, Pow2(k) - 1, n) == a % Pow2(k)
    decreases n
  {
    if k == 0 {
      assert Pow2(k) - 1 == 0;
      assert AndBits(a, 0, n) <= 0;
      ModUnique(a, 1, a, 0);
    } else {
      var p := Pow2(k - 1);
      var pk := Pow2(k);
      assert pk == 2 * p;
      var m := pk - 1;
      assert m / 2 == p - 1 && m % 2 == 1;
      AndLowMask(a / 2, k - 1, n - 1);
      var low := (a / 2) % p;
      assert AndBits(a / 2, p - 1, n - 1) == low;
      assert AndBits(a, m, n) == 2 * low + a % 2;
      ModDouble(a, p);
      assert a % pk == 2 * low + a % 2;
    }
  }

  function BitAnd(a: Word, b: Word): (r: Word)
    ensures r <= a && r <= b
  {
    AndBits(a, b, WordBits)
  }

  /** The complement of a 32-bit pattern. */
  function BitNot(a: Word): (r: Word)
    ensures a + r == MaxWord
  {
    MaxWord - a
  }

  /** Bitwise NOR: a bit is set iff it is clear in both operands, i.e. the
      AND of the complements. */
  function BitNor(a: Word, b: Word): (r: Word)
    ensures r + a <= MaxWord && r + b <= MaxWord
  {
    AndBits(BitNot(a), BitNot(b), WordBits)
  }

  /** Bitwise OR, the complement of NOR. */
  function BitOr(a: Word, b: Word): (r: Word)
    ensures a <= r && b <= r
  {
    BitNot(BitNor(a, b))
  }

  lemma AndAllOnes(a: Word)
    ensures AndBits(a, MaxWord, WordBits) == a
  {
    var m := Pow2(WordBits);
    Pow2Word();
    assert m - 1 == MaxWord;
    AndLowMask(a, WordBits, WordBits);
    assert AndBits(a, m - 1, WordBits) == a % m;
    ModUnique(a, m, 0, a);
  }

  /** OR with zero is the identity. */
  lemma OrZero(a: Word)
    ensures BitOr(a, 0) == a
  {
    var n := BitNot(a);
    AndAllOnes(n);
    assert BitNor(a, 0) == n;
  }

  /** Bit `i` of `x`, counting from the least significant bit. */
  predicate Bit(x: nat, i: nat) {
    (x / Pow2(i)) % 2 == 1
  }

  /** Dropping bit 0 moves every other bit down by one place. */
  lemma DivPow2Step(x: nat, i: nat)
    ensures x / Pow2(i + 1) == (x / 2) / Pow2(i)
  {
    var p := Pow2(i);
    assert Pow2(i + 1) == 2 * p;
    var h := x / 2;
    var q := h / p;
    var r := h % p;
    assert h == p * q + r;
    assert x == 2 * h + x % 2;
    assert x == (2 * p) * q + (2 * r + x % 2);
    ModUnique(x, 2 * p, q, 2 * r + x % 2);
  }

  /** Bit 0 is the remainder modulo 2, and bit `i + 1` of `x` is bit `i`
      of `x / 2`. */
  lemma BitShift(x: nat, i: nat)
    ensures Bit(x, 0) <==> x % 2 == 1
    ensures Bit(x, i + 1) <==> Bit(x / 2, i)
  {
    assert Pow2(0) == 1;
    DivPow2Step(x, i);
  }

  /** `AndBits` sets bit `i` exactly where both operands have it set. */
  lemma {:induction false} AndBitsBit(a: nat, b: nat, n: nat, i: nat)
    requires i < n
    ensures Bit(AndBits(a, b, n), i) <==> Bit(a, i) && Bit(b, i)
    decreases n
  {
    var r := AndBits(a / 2, b / 2, n - 1);
    var low := if a % 2 == 1 && b % 2 == 1 then 1 else 0;
    var x := 2 * r + low;
    assert AndBits(a, b, n) == x;
    ModUnique(x, 2, r, low);
    if i == 0 {
      BitShift(x, 0);
      BitShift(a, 0);
      BitShift(b, 0);
    } else {
      AndBitsBit(a / 2, b / 2, n - 1, i - 1);
      BitShift(x, i - 1);
      BitShift(a, i - 1);
      BitShift(b, i - 1);
    }
  }

  /** Two `n`-bit values that add up to `n` ones are bitwise complements. */
  lemma {:induction false} ComplementBits(a: nat, c: nat, n: nat, i: nat)
    requires a + c == Pow2(n) - 1 && i < n
    ensures Bit(c, i) <==> !Bit(a, i)
    decreases n
  {
    var p := Pow2(n - 1);
    assert Pow2(n) == 2 * p;
    assert a == 2 * (a / 2) + a % 2;
    assert c == 2 * (c / 2) + c % 2;
    assert a % 2 + c % 2 == 1;
    assert a / 2 + c / 2 == p - 1;
    if i == 0 {
      BitShift(a, 0);
      BitShift(c, 0);
    } else {
      ComplementBits(a / 2, c / 2, n - 1, i - 1);
      BitShift(a, i - 1);
      BitShift(c, i - 1);
    }
  }

  /** Two values below 2^n with the same low `n` bits are equal. */
  lemma {:induction false} BitsDetermine(x: nat, y: nat, n: nat)
    requires x < Pow2(n) && y < Pow2(n)
    requires forall i :: 0 <= i < n ==> (Bit(x, i) <==> Bit(y, i))
    ensures x == y
    decreases n
  {
    if n > 0 {
      var p := Pow2(n - 1);
      assert Pow2(n) == 2 * p;
      BitShift(x, 0);
      BitShift(y, 0);
      assert Bit(x, 0) <==> Bit(y, 0);
      forall i | 0 <= i < n - 1
        ensures Bit(x / 2, i) <==> Bit(y / 2, i)
      {
        BitShift(x, i);
        BitShift(y, i);
        assert Bit(x, i + 1) <==> Bit(y, i + 1);
      }
      BitsDetermine(x / 2, y / 2, n - 1);
      assert x == 2 * (x / 2) + x % 2;
      assert y == 2 * (y / 2) + y % 2;
    }
  }

  /** `BitNot` flips every one of the 32 bits. */
  lemma NotBit(a: Word, i: nat)
    requires i < WordBits
    ensures Bit(BitNot(a), i) <==> !Bit(a, i)
  {
    Pow2Word();
    ComplementBits(a, BitNot(a), WordBits, i);
  }

  /** Bit by bit, `BitAnd` is AND, `BitOr` is OR and `BitNor` is NOR. */
  lemma BitwiseBit(a: Word, b: Word, i: nat)
    requires i < WordBits
    ensures Bit(BitAnd(a, b), i) <==> Bit(a, i) && Bit(b, i)
    ensures Bit(BitOr(a, b), i) <==> Bit(a, i) || Bit(b, i)
    ensures Bit(BitNor(a, b), i) <==> !(Bit(a, i) || Bit(b, i))
  {
    AndBitsBit(a, b, WordBits, i);
    var na := BitNot(a);
    var nb := BitNot(b);
    NotBit(a, i);
    NotBit(b, i);
    AndBitsBit(na, nb, WordBits, i);
    assert BitNor(a, b) == AndBits(na, nb, WordBits);
    NotBit(BitNor(a, b), i);
  }

  /** A word is determined by its 32 bits, so the bit-by-bit facts of
      `BitwiseBit` pin each result down completely. */
  lemma WordsByBits(x: Word, y: Word)
    requires forall i :: 0 <= i < WordBits ==> (Bit(x, i) <==> Bit(y, i))
    ensures x == y
  {
    Pow2Word();
    BitsDetermine(x, y, WordBits);
  }

  /** The shift amount of a shift operand: its low five bits, so a shift
      amount is taken modulo 32. */
  function ShiftAmount(b: Word): (k: nat)
    ensures k < WordBits
  {
    b % 32
  }

  /** The simulator masks the operand (`b & 31`); that is the same low five
      bits. */
  lemma ShiftAmountIsMask(b: Word)
    ensures ShiftAmount(b) == BitAnd(b, 31)
  {
    Pow2Word();
    AndLowMask(b, 5, WordBits);
  }

  /** Logical left shift of a 32-bit pattern by `k`: the bits shifted past
      bit 31 are lost. */
  function ShiftLeft(a: Word, k: nat): (r: Word)
    requires k < WordBits
    ensures (r - a * Pow2(k)) % Modulus == 0
    ensures k == 0 ==> r == a
  {
    Wrap(a * Pow2(k))
  }

  /** Logical right shift by `k`: zeros enter from bit 31, so the result is
      the floor of `a / 2^k` and never grows. */
  function ShiftRight(a: Word, k: nat): (r: Word)
    requires k < WordBits
    ensures r * Pow2(k) <= a < (r + 1) * Pow2(k)
    ensures r <= a
    ensures k == 0 ==> r == a
  {
    var p := Pow2(k);
    DivAtMost(a, p);
    assert a == p * (a / p) + a % p;
    a / p
  }

  lemma DivAtMost(a: nat, p: nat)
    requires p >= 1
    ensures 0 <= a / p <= a
    ensures p == 1 ==> a / p == a
  {
    var q := a / p;
    assert a == p * q + a % p;
    if q > 0 {
      MulAtLeast(p, q);
    }
    if p == 1 {
      ModUnique(a, 1, a, 0);
    }
  }

  lemma MulBelow(a: nat, q: nat, p: nat)
    requires a < q && p >= 1
    ensures a * p < q * p
  {
  }

  /** Shifting left by `k` and back right by `k` recovers every value that
      fits in the low `32 - k` bits. */
  lemma ShiftRoundTrip(a: Word, k: nat)
    requires k < WordBits && a < Pow2(WordBits - k)
    ensures ShiftRight(ShiftLeft(a, k), k) == a
  {
    var p := Pow2(k);
    var q := Pow2(WordBits - k);
    var x := a * p;
    Pow2Split(k);
    MulBelow(a, q, p);
    assert x < Modulus;
    assert ShiftLeft(a, k) == x;
    ModUnique(x, p, a, 0);
    assert ShiftRight(x, k) == x / p == a;
  }

  /** Zero extension of the low 16 bits (`(uint16_t)(x & 0xffff)` widened):
      the result keeps the low half and has a clear upper half. */
  function ZeroExtend16(x: Word): (r: Word)
    ensures 0 <= r <= 0xFFFF
    ensures r % 0x10000 == x % 0x10000
  {
    x % 0x10000
  }

  /** The masking the simulator performs (`x & 0xffff`) is exactly the zero
      extension. */
  lemma ZeroExtendIsMask(x: Word)
    ensures ZeroExtend16(x) == BitAnd(x, 0xFFFF)
  {
    Pow2Word();
    AndLowMask(x, 16, WordBits);
  }

  /** Sign extension of the low 16 bits (`(int16_t)(x & 0xffff)` widened):
      the result is the word in the signed 16-bit range with the same low
      half. */
  function SignExtend16(x: Word): (r: Word)
    ensures -0x8000 <= Signed(r) <= 0x7FFF
    ensures r % 0x10000 == x % 0x10000
  {
    var low := ZeroExtend16(x);
    if low < 0x8000 then low else low + 0xFFFF_0000
  }

  /** Both extensions are fixed by a second application. */
  lemma ExtendIdempotent(x: Word)
    ensures ZeroExtend16(ZeroExtend16(x)) == ZeroExtend16(x)
    ensures SignExtend16(SignExtend16(x)) == SignExtend16(x)
  {
    var z := ZeroExtend16(x);
    assert z % 0x10000 == z;
    var s := SignExtend16(x);
    assert ZeroExtend16(s) == z;
  }
}

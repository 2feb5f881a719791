/** Machine words of the generated codec: bytes, Go's `uint64`, `int` and `int32`, and the
  * bit operations the codec applies to them.
  *
  * Every value is an unbounded integer confined by a subset type, so each conversion that
  * drops bits is written out. The bitwise operators are defined one bit at a time; the
  * lemmas say what the codec's particular masks and shifts amount to in arithmetic.
  */
module Words {

  const TWO_32: int := 0x1_0000_0000
  const TWO_63: int := 0x8000_0000_0000_0000
  const TWO_64: int := 0x1_0000_0000_0000_0000

  type Byte = x: int | 0 <= x < 0x100
  type Word = x: int | 0 <= x < TWO_64
  type Int64 = x: int | -TWO_63 <= x < TWO_63
  type Int32 = x: int | -0x8000_0000 <= x < 0x8000_0000

  /** A Go byte slice: its length is an `int`. */
  type Buffer = s: seq<Byte> | |s| < TWO_63

  // ----- conversions that drop bits -----

  function ToWord(x: int): Word {
    x % TWO_64
  }

  /** Two's complement: the 64 low bits of `x`, read as signed. */
  function ToInt64(x: int): Int64 {
    var w := x % TWO_64;
    if w < TWO_63 then w else w - TWO_64
  }

  function ToInt32(x: int): Int32 {
    var w := x % TWO_32;
    if w < 0x8000_0000 then w else w - TWO_32
  }

  // ----- bit operations -----

  function Pow2(k: nat): (p: nat)
    ensures p >= 1
  {
    if k == 0 then 1 else 2 * Pow2(k - 1)
  }

  function Or(x: nat, y: nat): nat
    decreases x + y
  {
    if x == 0 && y == 0 then 0
    else 2 * Or(x / 2, y / 2) + (if x % 2 == 1 || y % 2 == 1 then 1 else 0)
  }

  function And(x: nat, y: nat): (z: nat)
    ensures z <= x && z <= y
    decreases x + y
  {
    if x == 0 && y == 0 then 0
    else 2 * And(x / 2, y / 2) + (if x % 2 == 1 && y % 2 == 1 then 1 else 0)
  }

  function Xor(x: nat, y: nat): nat
    decreases x + y
  {
    if x == 0 && y == 0 then 0
    else 2 * Xor(x / 2, y / 2) + (if x % 2 != y % 2 then 1 else 0)
  }

  function Shl(x: Word, s: nat): Word {
    ToWord(x * Pow2(s))
  }

  function Shr(x: Word, s: nat): Word {
    DivisionShrinks(x, Pow2(s));
    x / Pow2(s)
  }

  // ----- the same operations on Go's signed `int` -----

  function OrInt64(x: Int64, y: Int64): Int64 {
    ToInt64(Or(ToWord(x), ToWord(y)))
  }

  function ShlInt64(x: Int64, s: nat): Int64 {
    ToInt64(x * Pow2(s))
  }

  // ----- what masks and shifts amount to -----

  lemma {:induction false} Pow2Add(a: nat, b: nat)
    ensures Pow2(a + b) == Pow2(a) * Pow2(b)
  {
    SmallPowers();
    hide Pow2;
    if a == 0 {
    } else {
      Pow2Add(a - 1, b);
      Doubling(a - 1);
      Doubling(a - 1 + b);
      MulRegroup(2, Pow2(a - 1), Pow2(b));
    }
  }

  lemma {:induction false} Pow2Monotone(a: nat, b: nat)
    requires a <= b
    ensures Pow2(a) <= Pow2(b)
    decreases b
  {
    if a < b {
      Pow2Monotone(a, b - 1);
    }
  }

  lemma OrZero(y: nat)
    ensures Or(0, y) == y
  {
  }

  /** Or-ing bits into positions that are still clear is addition. */
  lemma {:induction false} OrDisjoint(x: nat, y: nat, k: nat)
    requires x < Pow2(k)
    ensures Or(x, y * Pow2(k)) == x + y * Pow2(k)
  {
    if k == 0 {
      OrZero(y);
    } else {
      var half := y * Pow2(k - 1);
      assert y * Pow2(k) == 2 * half;
      OrDisjoint(x / 2, y, k - 1);
    }
  }

  lemma AndZero(x: nat)
    ensures And(x, 0) == 0
  {
  }

  lemma XorZero(x: nat)
    ensures Xor(x, 0) == x
  {
  }

  /** Xor with all ones complements the word. */
  lemma {:induction false} XorOnes(x: nat, k: nat)
    requires x < Pow2(k)
    ensures Xor(x, Pow2(k) - 1) == Pow2(k) - 1 - x
  {
    if k == 0 {
    } else {
      XorOnes(x / 2, k - 1);
      assert (Pow2(k) - 1) / 2 == Pow2(k - 1) - 1;
    }
  }

  lemma OrOne(x: nat)
    ensures Or(x, 1) == 2 * (x / 2) + 1
  {
    assert Or(x, 1) == 2 * Or(x / 2, 0) + 1;
    OrZeroRight(x / 2);
  }

  lemma OrZeroRight(x: nat)
    ensures Or(x, 0) == x
  {
  }

  // ----- division by a variable -----

  lemma MulAtLeast(a: int, m: int)
    requires a >= 1 && m > 0
    ensures a * m >= m
  {
    assert (a - 1) * m >= 0;
  }

  lemma MulRegroup(x: int, y: int, z: int)
    ensures x * (y * z) == (x * y) * z
  {
  }

  lemma QuotientUnique(m: int, q: int, r: int, q2: int, r2: int)
    requires 0 <= r < m && 0 <= r2 < m && q * m + r == q2 * m + r2
    ensures q == q2 && r == r2
  {
    assert (q - q2) * m == q * m - q2 * m == -((q2 - q) * m);
    if q > q2 {
      MulAtLeast(q - q2, m);
    } else if q < q2 {
      MulAtLeast(q2 - q, m);
    }
  }

  lemma DivisionLaw(x: int, m: int)
    requires m > 0
    ensures x == (x / m) * m + x % m && 0 <= x % m < m
  {
  }

  lemma DivisionShrinks(x: nat, m: nat)
    requires m >= 1
    ensures 0 <= x / m <= x
  {
    var q := x / m;
    DivisionLaw(x, m);
    assert q * m >= q || q < 0;
  }

  lemma DivModUnique(x: int, m: int, q: int, r: int)
    requires 0 <= r < m && x == q * m + r
    ensures x / m == q && x % m == r
  {
    DivisionLaw(x, m);
    QuotientUnique(m, q, r, x / m, x % m);
  }

  lemma HalveMod(x: nat, p: nat)
    requires p > 0
    ensures x % (2 * p) == 2 * (x / 2 % p) + x % 2
  {
    var q, r := (x / 2) / p, (x / 2) % p;
    DivisionLaw(x / 2, p);
    assert q * (2 * p) == 2 * (q * p);
    DivModUnique(x, 2 * p, q, 2 * r + x % 2);
  }

  /** One more low bit in the mask keeps one more low bit of the value. */
  lemma MaskStep(x: nat, m: nat)
    ensures And(x, 2 * m + 1) == 2 * And(x / 2, m) + x % 2
  {
  }

  /** Masking with 2^k - 1 keeps the low k bits. */
  lemma {:induction false} AndMask(x: nat, k: nat)
    ensures And(x, Pow2(k) - 1) == x % Pow2(k)
  {
    SmallPowers();
    AndZero(x);
    hide And, Pow2;
    if k == 0 {
    } else {
      var p := Pow2(k - 1);
      Doubling(k - 1);
      AndMask(x / 2, k - 1);
      MaskStep(x, p - 1);
      HalveMod(x, p);
      assert 2 * (p - 1) + 1 == Pow2(k) - 1;
    }
  }

  /** `b & 0x7F` and `wire & 0x7`. */
  lemma CodecMasks(x: nat)
    ensures And(x, 0x7F) == x % 0x80
    ensures And(x, 0x7) == x % 8
  {
    AndMask(x, 7);
    AndMask(x, 3);
    SmallPowers();
  }

  lemma SmallPowers()
    ensures Pow2(0) == 1 && Pow2(1) == 2 && Pow2(3) == 0x8 && Pow2(7) == 0x80
  {
  }

  lemma Doubling(k: nat)
    ensures Pow2(k + 1) == 2 * Pow2(k)
  {
  }

  lemma EightMore(k: nat)
    ensures Pow2(k + 8) == 0x100 * Pow2(k)
  {
    hide Pow2;
    Doubling(k);
    Doubling(k + 1);
    Doubling(k + 2);
    Doubling(k + 3);
    Doubling(k + 4);
    Doubling(k + 5);
    Doubling(k + 6);
    Doubling(k + 7);
  }

  lemma WordPowers()
    ensures Pow2(1) == 2 && Pow2(63) == TWO_63 && Pow2(64) == TWO_64 && Pow2(72) == 0x100 * TWO_64
  {
    SmallPowers();
    hide Pow2;
    EightMore(0);
    EightMore(8);
    EightMore(16);
    EightMore(24);
    EightMore(32);
    EightMore(40);
    EightMore(48);
    EightMore(56);
    EightMore(64);
    Doubling(63);
  }
}

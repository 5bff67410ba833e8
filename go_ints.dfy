/// Go's fixed-width unsigned integers and the bit operators the Go sources use,
/// written out on unbounded integers.
///
/// Go defines `x >> n` and `x << n` for EVERY unsigned shift count `n`: a right shift
/// divides by 2^n rounding down, a left shift of a uint64 drops the bits that leave the
/// 64-bit word, and both give 0 once `n` reaches the width.  `Shr`, `Shl64` and `Shl8`
/// below say exactly that.  `Or` and `And` are the bitwise operators on naturals, one
/// bit at a time.  Every lemma here is about these definitions only.
module GoInts {

  const TwoTo8: nat := 0x100
  const TwoTo32: nat := 0x1_0000_0000
  const TwoTo62: nat := 0x4000_0000_0000_0000
  const TwoTo64: nat := 0x1_0000_0000_0000_0000

  /** Go's byte, uint32 and uint64 as integers with their ranges. */
  type u8 = x: int | 0 <= x < 0x100
  type u32 = x: int | 0 <= x < 0x1_0000_0000
  type u64 = x: int | 0 <= x < 0x1_0000_0000_0000_0000

  datatype Option<+T> = None | Some(value: T)

  /** Go's uint32 subtraction: the exact difference reduced modulo 2^32. */
  function SubU32(a: u32, b: u32): (r: u32)
    ensures a >= b ==> r == a - b
    ensures a < b ==> r == a - b + TwoTo32
  {
    (a - b + TwoTo32) % TwoTo32
  }

  /** Go's uint32 product `a * 2`, reduced modulo 2^32. */
  function DoubleU32(a: u32): (r: u32)
    ensures a < TwoTo32 / 2 ==> r == 2 * a
    ensures a >= TwoTo32 / 2 ==> r == 2 * a - TwoTo32
  {
    (2 * a) % TwoTo32
  }

  /** Go's uint64 subtraction, reduced modulo 2^64. */
  function SubU64(a: u64, b: u64): (r: u64)
    ensures a >= b ==> r == a - b
    ensures a < b ==> r == a - b + TwoTo64
  {
    (a - b + TwoTo64) % TwoTo64
  }

  function Pow2(n: nat): (r: nat)
    ensures r >= 1
  {
    if n == 0 then 1 else 2 * Pow2(n - 1)
  }

  function Pow4(n: nat): (r: nat)
    ensures r >= 1
  {
    if n == 0 then 1 else 4 * Pow4(n - 1)
  }

  /** Go's `x >> n` on an unsigned integer: halve `n` times, rounding down. */
  function Shr(x: nat, n: nat): (r: nat)
    ensures r <= x
  {
    if n == 0 then x else Shr(x / 2, n - 1)
  }

  /** Go's `x << n` on a uint64: bits leaving the word are dropped, and 0 once `n >= 64`. */
  function Shl64(x: u64, n: nat): u64
  {
    if n >= 64 then 0 else (x * Pow2(n)) % TwoTo64
  }

  /** Go's `x << n` on a byte. */
  function Shl8(x: u8, n: nat): u8
  {
    if n >= 8 then 0 else (x * Pow2(n)) % TwoTo8
  }

  /** Bitwise OR. */
  function Or(a: nat, b: nat): nat
    decreases a + b
  {
    if a == 0 then b
    else if b == 0 then a
    else 2 * Or(a / 2, b / 2) + (if a % 2 == 1 || b % 2 == 1 then 1 else 0)
  }

  /** Bitwise AND. */
  function And(a: nat, b: nat): nat
    decreases a + b
  {
    if a == 0 || b == 0 then 0
    else 2 * And(a / 2, b / 2) + (if a % 2 == 1 && b % 2 == 1 then 1 else 0)
  }

  /** Bit `n` of `x`: Go's `x >> n % 2`. */
  function Bit(x: nat, n: nat): (r: nat)
    ensures r < 2
  {
    Shr(x, n) % 2
  }

  /** The two-bit field number `j` of a word, bits 2j and 2j+1: Go's `x >> (2*j) & 3`. */
  function Field(w: nat, j: nat): (r: nat)
    ensures r < 4
  {
    Shr(w, 2 * j) % 4
  }

  // ---------------------------------------------------------------------------
  // Powers

  lemma {:induction false} Pow4Add(a: nat, b: nat)
    ensures Pow4(a + b) == Pow4(a) * Pow4(b)
  {
    if a > 0 {
      Pow4Add(a - 1, b);
      assert Pow4(a + b) == 4 * Pow4(a - 1 + b);
    }
  }

  lemma {:induction false} Pow2Twice(n: nat)
    ensures Pow2(2 * n) == Pow4(n)
  {
    if n > 0 {
      Pow2Twice(n - 1);
      assert Pow2(2 * n) == 4 * Pow2(2 * n - 2);
    }
  }

  lemma {:induction false} Pow4Monotone(m: nat, n: nat)
    requires m <= n
    ensures Pow4(m) <= Pow4(n)
  {
    if m < n {
      Pow4Monotone(m, n - 1);
    }
  }

  /** The word-size powers, computed from Pow4(8) = 2^16. */
  lemma Pow4Constants()
    ensures Pow4(31) == TwoTo62
    ensures Pow4(32) == TwoTo64
    ensures Pow2(64) == TwoTo64
  {
    assert Pow4(8) == 0x1_0000;
    assert Pow4(7) == 0x4000;
    Pow4Add(8, 8);
    Pow4Add(16, 8);
    Pow4Add(24, 7);
    Pow4Add(24, 8);
    Pow2Twice(32);
  }

  lemma Pow4Below(m: nat)
    requires m < 32
    ensures Pow4(m) <= TwoTo62
  {
    Pow4Monotone(m, 31);
    Pow4Constants();
  }

  // ---------------------------------------------------------------------------
  // Division and remainder by a product

  lemma MulSign(p: int, z: int)
    requires p > 0
    ensures z >= 1 ==> p * z >= p
    ensures z <= -1 ==> p * z <= -p
  {
    if z >= 1 {
      assert p * z == p * (z - 1) + p;
      assert p * (z - 1) >= 0;
    } else if z <= -1 {
      assert p * z == p * (z + 1) - p;
      assert p * (z + 1) <= 0;
    }
  }

  lemma MulSmall(p: int, z: int)
    requires p > 0 && -p < p * z < p
    ensures z == 0
  {
    MulSign(p, z);
  }

  lemma DivModUnique(y: int, p: int, q: int, a: int)
    requires p > 0 && 0 <= a < p && y == p * q + a
    ensures y % p == a && y / p == q
  {
    var q', a' := y / p, y % p;
    assert y == p * q' + a';
    assert p * (q' - q) == a - a';
    MulSmall(p, q' - q);
  }

  lemma ModQuarter(w: nat, p: nat)
    requires p > 0
    ensures (w % (4 * p)) / 4 == (w / 4) % p
    ensures (w % (4 * p)) % 4 == w % 4
  {
    var q := w / (4 * p);
    var r := w % (4 * p);
    var t := p * q;
    assert w == 4 * t + r by {
      assert w == (4 * p) * q + r;
    }
    DivModUnique(w / 4, p, q, r / 4);
  }

  // ---------------------------------------------------------------------------
  // Shifts

  lemma {:induction false} ShrOfZero(n: nat)
    ensures Shr(0, n) == 0
  {
    if n > 0 {
      ShrOfZero(n - 1);
    }
  }

  lemma {:induction false} ShrAdd(x: nat, a: nat, b: nat)
    ensures Shr(Shr(x, a), b) == Shr(x, a + b)
  {
    if a > 0 {
      ShrAdd(x / 2, a - 1, b);
    }
  }

  lemma ShrTwo(x: nat)
    ensures Shr(x, 2) == x / 4
  {
    assert Shr(x, 2) == Shr(x / 2, 1) == Shr(x / 2 / 2, 0);
  }

  /** Shifting out every bit of a number leaves 0. */
  lemma {:induction false} ShrBelow(x: nat, n: nat)
    requires x < Pow2(n)
    ensures Shr(x, n) == 0
  {
    if n > 0 {
      ShrBelow(x / 2, n - 1);
    }
  }

  /** Shifting right by two bits `n` times is shifting by `2n`. */
  lemma {:induction false} ShrQuarter(x: nat, n: nat)
    ensures Shr(x / 4, 2 * n) == Shr(x, 2 * n + 2)
  {
    ShrTwo(x);
    ShrAdd(x, 2, 2 * n);
  }

  lemma PlacedStep(c: nat, m: nat)
    requires m > 0
    ensures c * Pow4(m) == 4 * (c * Pow4(m - 1))
  {
    var p := Pow4(m - 1);
    assert c * (4 * p) == 4 * (c * p);
  }

  lemma {:induction false} ShrPlaced(c: nat, m: nat)
    ensures Shr(c * Pow4(m), 2 * m) == c
  {
    if m > 0 {
      PlacedStep(c, m);
      ShrQuarter(c * Pow4(m), m - 1);
      ShrPlaced(c, m - 1);
    }
  }

  /** A uint64 shift of a two-bit value to field `m` does not wrap. */
  lemma ShlPlaced(c: u64, m: nat)
    requires c < 4 && m < 32
    ensures Shl64(c, 2 * m) == c * Pow4(m)
  {
    Pow2Twice(m);
    Pow4Below(m);
    assert c * Pow4(m) <= 3 * TwoTo62;
  }

  /** A uint64 shift left by two bits keeps the low 62 bits, moved up. */
  lemma ShlTwo(x: u64)
    ensures Shl64(x, 2) == (4 * x) % TwoTo64
  {
    assert Pow2(2) == 4;
  }

  // ---------------------------------------------------------------------------
  // Two-bit fields

  lemma FieldQuarter(w: nat, j: nat)
    ensures Field(w, j + 1) == Field(w / 4, j)
  {
    ShrQuarter(w, j);
  }

  /** The fields of `4t + c` are `c` followed by the fields of `t`. */
  lemma FieldOfPush(t: nat, c: nat, j: nat)
    requires c < 4
    ensures Field(4 * t + c, j) == if j == 0 then c else Field(t, j - 1)
  {
    if j > 0 {
      FieldQuarter(4 * t + c, j - 1);
      assert (4 * t + c) / 4 == t;
    }
  }

  lemma FieldOfZero(j: nat)
    ensures Field(0, j) == 0
  {
    ShrOfZero(2 * j);
  }

  /** A number below 4^n has no field from `n` on. */
  lemma {:induction false} FieldAbove(x: nat, n: nat, j: nat)
    requires x < Pow4(n) && n <= j
    ensures Field(x, j) == 0
  {
    if n == 0 {
      FieldOfZero(j);
    } else {
      FieldQuarter(x, j - 1);
      FieldAbove(x / 4, n - 1, j - 1);
    }
  }

  /** A value below 4 placed at field `m`. */
  lemma {:induction false} FieldOfPlaced(c: nat, m: nat, j: nat)
    requires c < 4
    ensures Field(c * Pow4(m), j) == if j == m then c else 0
  {
    if m == 0 {
      FieldOfPush(0, c, j);
      if j > 0 {
        FieldOfZero(j - 1);
      }
    } else {
      PlacedStep(c, m);
      FieldOfPush(c * Pow4(m - 1), 0, j);
      if j > 0 {
        FieldOfPlaced(c, m - 1, j - 1);
      }
    }
  }

  /** Two numbers with the same fields are equal. */
  lemma {:induction false} FieldsDetermine(x: nat, y: nat)
    requires forall j: nat :: Field(x, j) == Field(y, j)
    ensures x == y
    decreases x + y
  {
    if x != 0 || y != 0 {
      assert x % 4 == Field(x, 0) == Field(y, 0) == y % 4;
      forall j: nat
        ensures Field(x / 4, j) == Field(y / 4, j)
      {
        FieldQuarter(x, j);
        FieldQuarter(y, j);
      }
      FieldsDetermine(x / 4, y / 4);
    }
  }

  /** Reducing modulo 4^n keeps exactly the fields below `n`. */
  lemma {:induction false} FieldOfMod(w: nat, n: nat, j: nat)
    ensures Field(w % Pow4(n), j) == if j < n then Field(w, j) else 0
  {
    if n == 0 {
      FieldOfZero(j);
    } else {
      var p := Pow4(n - 1);
      ModQuarter(w, p);
      if j == 0 {
      } else {
        FieldQuarter(w % Pow4(n), j - 1);
        FieldQuarter(w, j - 1);
        FieldOfMod(w / 4, n - 1, j - 1);
      }
    }
  }

  /** The fields of a uint64 shifted left by two bits. */
  lemma FieldOfShlTwo(x: u64, j: nat)
    ensures Field(Shl64(x, 2), j) == if j == 0 || j >= 32 then 0 else Field(x, j - 1)
  {
    ShlTwo(x);
    Pow4Constants();
    FieldOfMod(4 * x, 32, j);
    FieldOfPush(x, 0, j);
  }

  /** Fields of a uint64 from number 32 on are zero. */
  lemma FieldOfWordAbove(x: u64, j: nat)
    requires j >= 32
    ensures Field(x, j) == 0
  {
    Pow4Constants();
    FieldAbove(x, 32, j);
  }

  // ---------------------------------------------------------------------------
  // OR

  lemma OrStep(a: nat, b: nat)
    ensures Or(a, b) % 2 == (if a % 2 == 1 || b % 2 == 1 then 1 else 0)
    ensures Or(a, b) / 2 == Or(a / 2, b / 2)
  {
  }

  /** A field is its two bits. */
  lemma FieldBits(x: nat, j: nat)
    ensures Field(x, j) == 2 * Bit(x, 2 * j + 1) + Bit(x, 2 * j)
    ensures Bit(Field(x, j), 0) == Bit(x, 2 * j)
    ensures Bit(Field(x, j), 1) == Bit(x, 2 * j + 1)
  {
    var s := Shr(x, 2 * j);
    ShrAdd(x, 2 * j, 1);
    assert Shr(s, 1) == s / 2;
    assert Shr(s % 4, 1) == (s % 4) / 2;
  }

  /** OR works bit by bit. */
  lemma {:induction false} BitOfOr(a: nat, b: nat, n: nat)
    ensures Bit(Or(a, b), n) == if Bit(a, n) == 1 || Bit(b, n) == 1 then 1 else 0
  {
    OrStep(a, b);
    if n > 0 {
      BitOfOr(a / 2, b / 2, n - 1);
    }
  }

  /** OR works field by field. */
  lemma FieldOfOr(a: nat, b: nat, j: nat)
    ensures Field(Or(a, b), j) == Or(Field(a, j), Field(b, j))
  {
    var fa, fb := Field(a, j), Field(b, j);
    FieldBits(a, j);
    FieldBits(b, j);
    FieldBits(Or(a, b), j);
    BitOfOr(a, b, 2 * j);
    BitOfOr(a, b, 2 * j + 1);
    BitOfOr(fa, fb, 0);
    BitOfOr(fa, fb, 1);
    assert Pow2(2) == 4;
    OrBound(fa, fb, 2);
    FieldBits(Or(fa, fb), 0);
    assert Field(Or(fa, fb), 0) == Or(fa, fb);
  }

  lemma {:induction false} OrBound(a: nat, b: nat, n: nat)
    requires a < Pow2(n) && b < Pow2(n)
    ensures Or(a, b) < Pow2(n)
  {
    if n > 0 {
      OrStep(a, b);
      OrBound(a / 2, b / 2, n - 1);
    }
  }

  /** OR of two uint64 values is a uint64. */
  lemma OrWord(a: u64, b: u64)
    ensures Or(a, b) < TwoTo64
  {
    Pow4Constants();
    OrBound(a, b, 64);
  }

  lemma OrByte(a: u8, b: u8)
    ensures Or(a, b) < TwoTo8
  {
    assert Pow2(8) == TwoTo8;
    OrBound(a, b, 8);
  }

  // ---------------------------------------------------------------------------
  // AND

  lemma AndStep(a: nat, b: nat)
    ensures And(a, b) % 2 == (if a % 2 == 1 && b % 2 == 1 then 1 else 0)
    ensures And(a, b) / 2 == And(a / 2, b / 2)
  {
  }

  lemma {:induction false} AndCommutes(a: nat, b: nat)
    ensures And(a, b) == And(b, a)
    decreases a + b
  {
    if a != 0 && b != 0 {
      AndCommutes(a / 2, b / 2);
    }
  }

  lemma {:induction false} AndBound(a: nat, b: nat)
    ensures And(a, b) <= a
    decreases a + b
  {
    if a != 0 && b != 0 {
      AndBound(a / 2, b / 2);
    }
  }

  /** AND commutes with a right shift. */
  lemma {:induction false} ShrOfAnd(a: nat, b: nat, n: nat)
    ensures Shr(And(a, b), n) == And(Shr(a, n), Shr(b, n))
  {
    if n > 0 {
      AndStep(a, b);
      ShrOfAnd(a / 2, b / 2, n - 1);
    }
  }

  lemma AndMaskStep(x: nat, l: nat)
    ensures And(x, 4 * l + 3) == 4 * And(x / 4, l) + x % 4
  {
    var y, z := And(x, 4 * l + 3), And(x / 2, 2 * l + 1);
    AndStep(x, 4 * l + 3);
    AndStep(x / 2, 2 * l + 1);
    assert x / 2 / 2 == x / 4;
    assert y == 2 * z + x % 2;
    assert z == 2 * And(x / 4, l) + (x / 2) % 2;
    assert x % 4 == 2 * ((x / 2) % 2) + x % 2;
  }

  /** Go's `x & 3` is the low field. */
  lemma AndThree(x: nat)
    ensures And(x, 3) == x % 4
    ensures And(3, x) == x % 4
  {
    AndMaskStep(x, 0);
    assert And(x / 4, 0) == 0;
    AndCommutes(x, 3);
  }

  /** Go's `(3 << 2j) & w >> 2j` (or the mask on the right) is field `j` of `w`. */
  lemma MaskedField(w: nat, j: nat)
    ensures Shr(And(3 * Pow4(j), w), 2 * j) == Field(w, j)
    ensures Shr(And(w, 3 * Pow4(j)), 2 * j) == Field(w, j)
  {
    ShrOfAnd(3 * Pow4(j), w, 2 * j);
    ShrPlaced(3, j);
    AndThree(Shr(w, 2 * j));
    AndCommutes(w, 3 * Pow4(j));
  }

  /** AND with `1<<(2m) - 1` keeps the fields below `m`. */
  lemma {:induction false} FieldOfLowMask(x: nat, m: nat, j: nat)
    ensures Field(And(x, Pow4(m) - 1), j) == if j < m then Field(x, j) else 0
  {
    if m == 0 {
      assert And(x, 0) == 0;
      FieldOfZero(j);
    } else {
      var p := Pow4(m - 1);
      assert Pow4(m) - 1 == 4 * (p - 1) + 3;
      AndMaskStep(x, p - 1);
      FieldOfPush(And(x / 4, p - 1), x % 4, j);
      if j == 0 {
        assert Shr(x, 0) == x;
      } else {
        FieldOfLowMask(x / 4, m - 1, j - 1);
        FieldQuarter(x, j - 1);
      }
    }
  }

  // ---------------------------------------------------------------------------
  // Small values

  lemma OrSmall(f: nat)
    ensures Or(f, 0) == f && Or(0, f) == f
  {
  }

  /** `Pow4(n) - 1` has n fields of 3 and nothing above. */
  lemma {:induction false} FieldOfOnes(n: nat, j: nat)
    ensures Field(Pow4(n) - 1, j) == if j < n then 3 else 0
  {
    if n == 0 {
      FieldOfZero(j);
    } else {
      assert Pow4(n) - 1 == 4 * (Pow4(n - 1) - 1) + 3;
      FieldOfPush(Pow4(n - 1) - 1, 3, j);
      if j > 0 {
        FieldOfOnes(n - 1, j - 1);
      }
    }
  }

  // ---------------------------------------------------------------------------
  // Values laid side by side

  /** The fields of `lo + 4^m * hi`, with `lo` below 4^m: those of `lo`, then those of `hi`. */
  lemma {:induction false} FieldOfSplit(lo: nat, hi: nat, m: nat, j: nat)
    requires lo < Pow4(m)
    ensures Field(lo + Pow4(m) * hi, j) == if j < m then Field(lo, j) else Field(hi, j - m)
  {
    if m > 0 {
      var t := lo / 4 + Pow4(m - 1) * hi;
      PlacedStep(hi, m);
      assert Pow4(m) * hi == 4 * (Pow4(m - 1) * hi);
      assert lo + Pow4(m) * hi == 4 * t + lo % 4;
      FieldOfPush(t, lo % 4, j);
      FieldOfPush(lo / 4, lo % 4, j);
      if j > 0 {
        FieldOfSplit(lo / 4, hi, m - 1, j - 1);
      }
    }
  }

  /** OR of two values whose bits do not overlap is their sum. */
  lemma OrAdd(lo: nat, hi: nat, m: nat)
    requires lo < Pow4(m)
    ensures Or(lo, Pow4(m) * hi) == lo + Pow4(m) * hi
    ensures Or(Pow4(m) * hi, lo) == lo + Pow4(m) * hi
  {
    var x, y := lo + Pow4(m) * hi, Pow4(m) * hi;
    forall j: nat
      ensures Field(Or(lo, y), j) == Field(x, j) && Field(Or(y, lo), j) == Field(x, j)
    {
      FieldOfOr(lo, y, j);
      FieldOfOr(y, lo, j);
      FieldOfSplit(0, hi, m, j);
      FieldOfSplit(lo, hi, m, j);
      FieldOfZero(j);
      if j >= m {
        FieldAbove(lo, m, j);
      }
      OrSmall(Field(lo, j));
      OrSmall(Field(y, j));
    }
    FieldsDetermine(Or(lo, y), x);
    FieldsDetermine(Or(y, lo), x);
  }
}

/** Unsigned 64-bit arithmetic as the C code performs it: wrap-around is written
    out, and the bitwise operators are defined bit by bit on naturals. */
module Bits {
  const WORD: nat := 0x1_0000_0000_0000_0000

  type u64 = x: int | 0 <= x < WORD

  function Pow2(k: nat): (p: nat)
    ensures p >= 1
  {
    if k == 0 then 1 else 2 * Pow2(k - 1)
  }

  /** Bitwise conjunction. */
  function And(x: nat, y: nat): nat
    decreases x
  {
    if x == 0 || y == 0 then 0
    else 2 * And(x / 2, y / 2) + (x % 2) * (y % 2)
  }

  /** Bitwise complement of a 64-bit word. */
  function Not(x: u64): u64 {
    WORD - 1 - x
  }

  predicate IsPowerOfTwo(value: u64) {
    value != 0 && And(value, (value - 1) % WORD) == 0
  }

  function AlignUp(value: u64, alignment: u64): nat {
    And((value + alignment - 1) % WORD, Not((alignment - 1) % WORD))
  }

  /** The least multiple of a that is at least x, in unbounded arithmetic. */
  function RoundUp(x: nat, a: nat): nat
    requires a > 0
  {
    (x + a - 1) / a * a
  }

  /** The mathematical notion that IsPowerOfTwo decides. */
  ghost predicate Power(value: nat) {
    exists k: nat :: k < 64 && value == Pow2(k)
  }

  lemma Pow2Of64()
    ensures Pow2(64) == WORD
    ensures Pow2(4) == 16 && Pow2(12) == 4096
  {
    assert Pow2(16) == 0x1_0000;
    assert Pow2(32) == 0x1_0000_0000 by { Pow2Sum(16, 16); }
    Pow2Sum(32, 32);
  }

  lemma {:induction false} Pow2Sum(j: nat, k: nat)
    ensures Pow2(j + k) == Pow2(j) * Pow2(k)
  {
    if j > 0 {
      Pow2Sum(j - 1, k);
      assert Pow2(j + k) == 2 * Pow2(j - 1 + k);
    }
  }

  lemma {:induction false} Pow2Monotone(j: nat, k: nat)
    requires j < k
    ensures 2 * Pow2(j) <= Pow2(k)
  {
    if j + 1 < k {
      Pow2Monotone(j, k - 1);
    }
  }

  // A smaller power of two divides a larger one.
  lemma Pow2Divides(j: nat, k: nat)
    requires j <= k
    ensures Pow2(k) % Pow2(j) == 0
  {
    Pow2Sum(k - j, j);
    MultipleModulo(Pow2(k - j), Pow2(j));
  }

  lemma {:induction false} MultipleModulo(q: nat, a: nat)
    requires a > 0
    ensures q * a % a == 0
  {
    DivModUnique(q * a, a, q, 0);
  }

  lemma ProductAtLeast(d: nat, a: nat)
    requires d > 0
    ensures d * a >= a
  {
    assert d * a == (d - 1) * a + a;
  }

  lemma ProductMonotone(x: nat, y: nat, a: nat)
    requires x <= y
    ensures x * a <= y * a && x * a == a * x && y * a == a * y
  {
    assert y * a == x * a + (y - x) * a;
  }

  lemma QuotientUnique(q: int, q': int, a: int, r: int, r': int)
    requires a > 0 && q * a + r == q' * a + r' && 0 <= r < a && 0 <= r' < a
    ensures q == q'
  {
    assert (q - q') * a == q * a - q' * a == -((q' - q) * a);
    if q > q' {
      ProductAtLeast(q - q', a);
    } else if q < q' {
      ProductAtLeast(q' - q, a);
    }
  }

  lemma DivModUnique(x: int, a: int, q: int, r: int)
    requires a > 0 && x == q * a + r && 0 <= r < a
    ensures x / a == q && x % a == r
  {
    QuotientUnique(x / a, q, a, x % a, r);
  }

  lemma AndZero(x: nat)
    ensures And(x, 0) == 0 && And(0, x) == 0
  {
  }

  // The recursion of And on an even and an arbitrary operand.
  lemma AndDouble(x: nat, y: nat, b: nat, c: nat)
    requires b < 2 && c < 2
    ensures And(2 * x + b, 2 * y + c) == 2 * And(x, y) + b * c
  {
    var u, v := 2 * x + b, 2 * y + c;
    assert u / 2 == x && u % 2 == b && v / 2 == y && v % 2 == c;
    if u == 0 || v == 0 {
      AndZero(x);
      AndZero(y);
    }
  }

  lemma {:induction false} AndSelf(x: nat)
    ensures And(x, x) == x
  {
    if x > 0 {
      AndSelf(x / 2);
    }
  }

  lemma ModuloDoubled(x: nat, p: nat)
    requires p > 0
    ensures x % (2 * p) == 2 * (x / 2 % p) + x % 2
  {
    var q, r := x / 2 / p, x / 2 % p;
    assert x / 2 == q * p + r;
    assert 2 * (q * p) == q * (2 * p);
    DivModUnique(x, 2 * p, q, 2 * r + x % 2);
  }

  /** Clearing the low k bits with a mask rounds down to a multiple of 2^k. */
  lemma {:induction false} MaskRoundsDown(x: nat, n: nat, k: nat)
    requires k <= n && x < Pow2(n)
    ensures Pow2(n) >= Pow2(k)
    ensures And(x, Pow2(n) - Pow2(k)) == x - x % Pow2(k)
    decreases n
  {
    if n == 0 {
    } else if k == 0 {
      MaskRoundsDown(x / 2, n - 1, 0);
      AndDouble(x / 2, Pow2(n - 1) - 1, x % 2, 1);
      assert 2 * (Pow2(n - 1) - 1) + 1 == Pow2(n) - 1;
    } else {
      var p := Pow2(k - 1);
      MaskRoundsDown(x / 2, n - 1, k - 1);
      AndDouble(x / 2, Pow2(n - 1) - p, x % 2, 0);
      assert 2 * (Pow2(n - 1) - p) + 0 == Pow2(n) - Pow2(k);
      ModuloDoubled(x, p);
    }
  }

  /** The bit trick accepts exactly the powers of two. */
  lemma IsPowerOfTwoExact(value: u64)
    ensures IsPowerOfTwo(value) <==> Power(value)
  {
    Pow2Of64();
    if Power(value) {
      var k: nat :| k < 64 && value == Pow2(k);
      LowestBitAlone(k);
    }
    if IsPowerOfTwo(value) {
      var k := PowerFromBits(value);
      if k >= 64 {
        if k > 64 { Pow2Monotone(64, k); }
        assert false;
      }
    }
  }

  lemma {:induction false} LowestBitAlone(k: nat)
    ensures And(Pow2(k), Pow2(k) - 1) == 0
  {
    if k > 0 {
      LowestBitAlone(k - 1);
      AndDouble(Pow2(k - 1), Pow2(k - 1) - 1, 0, 1);
    }
  }

  lemma {:induction false} PowerFromBits(value: nat) returns (k: nat)
    requires value > 0 && And(value, value - 1) == 0
    ensures value == Pow2(k)
  {
    if value == 1 {
      k := 0;
    } else if value % 2 == 1 {
      AndDouble(value / 2, value / 2, 1, 0);
      AndSelf(value / 2);
      assert false;
    } else {
      AndDouble(value / 2, value / 2 - 1, 0, 1);
      var j := PowerFromBits(value / 2);
      k := j + 1;
    }
  }

  lemma RoundUpLeast(x: nat, a: nat)
    requires a > 0
    ensures x <= RoundUp(x, a) < x + a
    ensures RoundUp(x, a) % a == 0
    ensures forall m: nat :: x <= m && m % a == 0 ==> RoundUp(x, a) <= m
  {
    MultipleModulo((x + a - 1) / a, a);
    forall m: nat | x <= m && m % a == 0
      ensures RoundUp(x, a) <= m
    {
      RoundUpBelow(x, a, m);
    }
  }

  lemma RoundUpBelow(x: nat, a: nat, m: nat)
    requires a > 0 && x <= m && m % a == 0
    ensures RoundUp(x, a) <= m
  {
    var q, k := (x + a - 1) / a, m / a;
    assert m == k * a;
    assert q * a <= x + a - 1;
    assert (q - k) * a == q * a - k * a;
    if k < q {
      ProductAtLeast(q - k, a);
    }
  }

  /** The mask form of align_up: the least multiple when the addition does not
      wrap, and zero when it does. */
  lemma AlignUpExact(value: u64, alignment: u64)
    requires Power(alignment)
    ensures value + alignment - 1 < WORD ==> AlignUp(value, alignment) == RoundUp(value, alignment)
    ensures value + alignment - 1 >= WORD ==> AlignUp(value, alignment) == 0
  {
    var t := (value + alignment - 1) % WORD;
    AlignUpMasks(value, alignment);
    if value + alignment - 1 < WORD {
      DividendSplit(t, alignment);
    } else {
      DivModUnique(value + alignment - 1, WORD, 1, value + alignment - 1 - WORD);
      DivModUnique(t, alignment, 0, t);
    }
  }

  lemma AlignUpMasks(value: u64, alignment: u64)
    requires Power(alignment)
    ensures var t := (value + alignment - 1) % WORD; AlignUp(value, alignment) == t - t % alignment
  {
    var k: nat :| k < 64 && alignment == Pow2(k);
    MaskWord((value + alignment - 1) % WORD, k);
    assert (alignment - 1) % WORD == alignment - 1;
  }

  lemma MaskWord(t: u64, k: nat)
    requires k <= 64
    ensures Pow2(k) <= WORD && And(t, WORD - Pow2(k)) == t - t % Pow2(k)
  {
    Pow2Of64();
    MaskRoundsDown(t, 64, k);
  }

  lemma DividendSplit(x: nat, a: nat)
    requires a > 0
    ensures x - x % a == x / a * a
  {
  }
}

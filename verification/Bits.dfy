/**
 Unsigned 64-bit words as bounded natural numbers, with C's bitwise operators
 defined bit by bit. The lemmas say when masks and shifts are division and
 remainder, so that everything above this module can reason arithmetically.
 */
module Bits {

  const WORD_LIMIT: nat := 0x1_0000_0000_0000_0000

  /** An unsigned 64-bit value. */
  type u64 = x: nat | x < WORD_LIMIT

  function Pow2(n: nat): (r: nat)
    ensures r > 0
  {
    if n == 0 then 1 else 2 * Pow2(n - 1)
  }

  lemma PowersOfTwo()
    ensures Pow2(0) == 1 && Pow2(1) == 2 && Pow2(2) == 4 && Pow2(3) == 8 && Pow2(4) == 16
    ensures Pow2(5) == 32 && Pow2(6) == 64 && Pow2(7) == 128 && Pow2(8) == 256
    ensures Pow2(9) == 0x200 && Pow2(12) == 0x1000 && Pow2(15) == 0x8000 && Pow2(18) == 0x4_0000
    ensures Pow2(21) == 0x20_0000 && Pow2(27) == 0x800_0000 && Pow2(30) == 0x4000_0000
    ensures Pow2(36) == 0x10_0000_0000 && Pow2(39) == 0x80_0000_0000 && Pow2(48) == 0x1_0000_0000_0000
    ensures Pow2(63) == 0x8000_0000_0000_0000 && Pow2(64) == WORD_LIMIT
  {
    hide Pow2;
    SmallPowers();
    Pow2Adds(6, 3); Pow2Adds(9, 3); Pow2Adds(12, 3); Pow2Adds(15, 3);
    Pow2Adds(18, 3); Pow2Adds(18, 9); Pow2Adds(27, 3); Pow2Adds(27, 9); Pow2Adds(36, 3);
    Pow2Adds(36, 12); Pow2Adds(48, 15); Pow2Adds(63, 1);
  }

  lemma SmallPowers()
    ensures Pow2(0) == 1 && Pow2(1) == 2 && Pow2(2) == 4 && Pow2(3) == 8 && Pow2(4) == 16
    ensures Pow2(5) == 32 && Pow2(6) == 64 && Pow2(7) == 128 && Pow2(8) == 256
  {
  }

  lemma {:induction false} Pow2Adds(a: nat, b: nat)
    ensures Pow2(a + b) == Pow2(a) * Pow2(b)
  {
    if a != 0 {
      Pow2Adds(a - 1, b);
      assert Pow2(a + b) == 2 * Pow2((a - 1) + b);
    }
  }

  /** Bitwise `x & y`. */
  function And(x: nat, y: nat): nat {
    if x == 0 || y == 0 then 0
    else 2 * And(x / 2, y / 2) + (if x % 2 == 1 && y % 2 == 1 then 1 else 0)
  }

  /** Bitwise `x | y`. */
  function Or(x: nat, y: nat): nat
    decreases x + y
  {
    if x == 0 && y == 0 then 0
    else 2 * Or(x / 2, y / 2) + (if x % 2 == 1 || y % 2 == 1 then 1 else 0)
  }

  /** `x << n`, before truncation to a word. */
  function Shl(x: nat, n: nat): nat
    decreases n
  {
    if n == 0 then x else Shl(2 * x, n - 1)
  }

  /** `x >> n`. */
  function Shr(x: nat, n: nat): nat
    decreases n
  {
    if n == 0 then x else Shr(x / 2, n - 1)
  }

  /** `~(2^k - 1)` in a word of n + k bits: n ones, then k zeros. */
  function HighMask(n: nat, k: nat): nat
    decreases k
  {
    if k == 0 then Pow2(n) - 1 else 2 * HighMask(n, k - 1)
  }

  /** Taking one bit off the bottom commutes with dividing by a power of two. */
  lemma HalfThenDivide(x: nat, m: nat)
    requires m > 0
    ensures x / (2 * m) == (x / 2) / m
    ensures x % (2 * m) == 2 * ((x / 2) % m) + x % 2
  {
    var q, r := (x / 2) / m, (x / 2) % m;
    assert x == 2 * (q * m + r) + x % 2;
    assert x == q * (2 * m) + (2 * r + x % 2);
    DivModUnique(x, 2 * m, q, 2 * r + x % 2);
  }

  lemma DivModUnique(x: nat, d: nat, q: nat, r: nat)
    requires r < d && x == q * d + r
    ensures x / d == q && x % d == r
  {
    var q', r' := x / d, x % d;
    var e := q - q';
    assert e * d == r' - r by {
      assert x == q' * d + r';
      assert e * d == q * d - q' * d;
    }
    MultipleIsFar(e, d);
  }

  /** A nonzero multiple of d is at least d away from zero. */
  lemma MultipleIsFar(e: int, d: nat)
    ensures e >= 1 ==> e * d >= d
    ensures e <= -1 ==> e * d <= -(d as int)
  {
    if e >= 1 {
      assert e * d == (e - 1) * d + d;
    } else if e <= -1 {
      assert e * d == -((-1 - e) * d) - d;
    }
  }

  lemma DivModWhole(x: nat, d: nat)
    requires d > 0
    ensures x == (x / d) * d + x % d && x % d < d
  {
  }

  lemma TwiceAndRest(h: nat, b: nat, m: nat)
    ensures (2 * h + b) * m == h * (2 * m) + b * m
  {
  }

  /** A product grows with either factor. */
  lemma ProductAtLeast(a: nat, b: nat, c: nat)
    requires b <= c
    ensures a * b <= a * c
  {
    assert a * c == a * b + a * (c - b);
  }

  lemma SmallRemainder(x: nat, d: nat)
    requires x < d
    ensures x % d == x && x / d == 0
  {
    DivModUnique(x, d, 0, x);
  }

  /** `x & (2^k - 1)` keeps the low k bits. */
  lemma {:induction false} AndLowMask(x: nat, k: nat)
    ensures And(x, Pow2(k) - 1) == x % Pow2(k)
  {
    if k > 0 {
      var m := Pow2(k - 1);
      hide And;
      calc {
        And(x, Pow2(k) - 1);
        { AndStep(x, m - 1, 1); }
        2 * And(x / 2, m - 1) + x % 2;
        { AndLowMask(x / 2, k - 1); }
        2 * ((x / 2) % m) + x % 2;
        { HalfThenDivide(x, m); }
        x % Pow2(k);
      }
    }
  }

  /** The recursion equation of `And`, with the second operand split at its lowest bit. */
  lemma AndStep(x: nat, half: nat, bit: nat)
    requires bit < 2
    ensures And(x, 2 * half + bit) == 2 * And(x / 2, half) + (if bit == 1 then x % 2 else 0)
  {
    var y := 2 * half + bit;
    assert y / 2 == half && y % 2 == bit;
    if x == 0 || y == 0 {
    } else {
      assert And(x, y) == 2 * And(x / 2, y / 2) + (if x % 2 == 1 && y % 2 == 1 then 1 else 0);
    }
  }

  /** `x & 2^k` tests bit k. */
  lemma {:induction false} AndBit(x: nat, k: nat)
    ensures And(x, Pow2(k)) != 0 <==> (x / Pow2(k)) % 2 == 1
  {
    hide And;
    if k == 0 {
      AndStep(x, 0, 1);
      AndZero(x / 2);
    } else {
      AndStep(x, Pow2(k - 1), 0);
      AndBit(x / 2, k - 1);
      HalfThenDivide(x, Pow2(k - 1));
    }
  }

  lemma AndZero(x: nat)
    ensures And(x, 0) == 0
  {
  }

  /** `x & ~(2^k - 1)`, the complement taken in n + k bits, clears the low k bits. */
  lemma {:induction false} AndHighMask(x: nat, k: nat, n: nat)
    requires x < Pow2(n + k)
    ensures And(x, HighMask(n, k)) == x - x % Pow2(k)
  {
    if k == 0 {
      AndLowMask(x, n);
      SmallRemainder(x, Pow2(n));
    } else {
      var m := Pow2(k - 1);
      var half := HighMask(n, k - 1);
      calc {
        And(x, HighMask(n, k));
        { AndStep(x, half, 0); }
        2 * And(x / 2, half);
        { assert x / 2 < Pow2(n + (k - 1)); AndHighMask(x / 2, k - 1, n); }
        2 * (x / 2 - (x / 2) % m);
        { HalfThenDivide(x, m); }
        x - x % Pow2(k);
      }
    }
  }

  /** Fields that do not overlap can be or-ed together or added: same result. */
  lemma {:induction false} OrDisjoint(low: nat, high: nat, k: nat)
    requires low < Pow2(k)
    ensures Or(low, Shl(high, k)) == low + Shl(high, k)
    decreases k
  {
    if k == 0 {
      OrZero(high);
    } else {
      OrDisjoint(low / 2, high, k - 1);
      ShlStep(high, k - 1);
      OrStep(low, Shl(high, k - 1));
    }
  }

  lemma {:induction false} ShlStep(x: nat, n: nat)
    ensures Shl(x, n + 1) == 2 * Shl(x, n)
    decreases n
  {
    if n != 0 {
      ShlStep(2 * x, n - 1);
    }
  }

  lemma OrStep(x: nat, half: nat)
    ensures Or(x, 2 * half) == 2 * Or(x / 2, half) + x % 2
  {
  }

  lemma {:induction false} OrZero(y: nat)
    ensures Or(0, y) == y
  {
    if y != 0 {
      OrZero(y / 2);
    }
  }

  lemma {:induction false} OrCommutes(x: nat, y: nat)
    ensures Or(x, y) == Or(y, x)
    decreases x + y
  {
    if x != 0 || y != 0 {
      OrCommutes(x / 2, y / 2);
    }
  }

  lemma {:induction false} ShrDivides(x: nat, n: nat)
    ensures Shr(x, n) == x / Pow2(n)
    decreases n
  {
    if n != 0 {
      ShrDivides(x / 2, n - 1);
      HalfThenDivide(x, Pow2(n - 1));
    }
  }

  lemma {:induction false} ShlMultiplies(x: nat, n: nat)
    ensures Shl(x, n) == x * Pow2(n)
    decreases n
  {
    if n != 0 {
      ShlMultiplies(2 * x, n - 1);
      assert (2 * x) * Pow2(n - 1) == x * (2 * Pow2(n - 1));
    }
  }

  /** `(x >> s) & (2^k - 1)` is a k-bit field of x. */
  lemma FieldAt(x: nat, s: nat, k: nat)
    ensures And(Shr(x, s), Pow2(k) - 1) == (x / Pow2(s)) % Pow2(k)
  {
    ShrDivides(x, s);
    AndLowMask(Shr(x, s), k);
  }
}

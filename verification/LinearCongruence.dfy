/** Divisibility by powers of two, one factor at a time, so that all arithmetic stays linear. */
module PowersOfTwo {
  function Pow2(k: nat): nat
    ensures Pow2(k) > 0
  {
    if k == 0 then 1 else 2 * Pow2(k - 1)
  }

  /** 2^k divides z. */
  predicate Divides(k: nat, z: int)
    decreases k
  {
    k == 0 || (z % 2 == 0 && Divides(k - 1, z / 2))
  }

  lemma {:induction false} DividesIsModulo(k: nat, z: int)
    ensures Divides(k, z) <==> z % Pow2(k) == 0
    decreases k
  {
    if k > 0 {
      DividesIsModulo(k - 1, z / 2);
      var d := Pow2(k - 1);
      if z % 2 == 0 {
        HalfModulo(z / 2, d);
      } else {
        EvenDivisor(z, d);
      }
    }
  }

  lemma {:induction false} EvenDivisor(z: int, d: nat)
    requires d > 0
    ensures z % (2 * d) == 0 ==> z % 2 == 0
  {
    var q, r := z / (2 * d), z % (2 * d);
    assert z == 2 * (d * q) + r;
  }

  lemma {:induction false} HalfModulo(h: int, d: nat)
    requires d > 0
    ensures h % d == 0 <==> (2 * h) % (2 * d) == 0
  {
    if h % d == 0 {
      var q := h / d;
      assert 2 * h == (2 * d) * q + 0;
      Remainder(2 * h, 2 * d, q);
    }
    if (2 * h) % (2 * d) == 0 {
      var q := (2 * h) / (2 * d);
      assert 2 * h == (2 * d) * q == 2 * (d * q);
      Remainder(h, d, q);
    }
  }

  /** A multiple of d leaves no remainder. */
  lemma {:induction false} Remainder(z: int, d: nat, q: int)
    requires d > 0 && z == d * q
    ensures z % d == 0
  {
    var r, p := z % d, z / d;
    assert z == d * p + r && 0 <= r < d;
    assert d * (q - p) == r;
    MultipleSize(d, q - p);
  }

  lemma MultipleSize(d: int, m: int)
    requires d > 0
    ensures m >= 1 ==> d * m >= d
    ensures m <= -1 ==> d * m <= -d
  {
  }

  /** An odd factor does not matter. */
  lemma {:induction false} OddFactor(k: nat, z: int, odd: int)
    requires odd % 2 == 1
    ensures Divides(k, z * odd) <==> Divides(k, z)
    decreases k
  {
    if k > 0 {
      var h, o := z / 2, odd / 2;
      if z % 2 == 0 {
        assert z * odd == 2 * (h * odd);
        OddFactor(k - 1, h, odd);
      } else {
        assert z * odd == 2 * (h * odd + o) + 1 by {
          assert z == 2 * h + 1 && odd == 2 * o + 1;
          assert z * odd == 2 * (h * odd) + odd;
        }
      }
    }
  }
}

/** Sizes of finite sets of integers. */
module Counting {
  lemma {:induction false} RangeCount(s: set<int>, n: nat)
    requires forall x :: x in s ==> 0 <= x < n
    ensures |s| <= n
    decreases n
  {
    if n == 0 {
      assert forall x :: x !in s;
    } else {
      RangeCount(s - {n - 1}, n - 1);
      assert s <= s - {n - 1} + {n - 1};
    }
  }

  lemma SubsetCount(a: set<int>, b: set<int>)
    requires a <= b
    ensures |a| <= |b|
  {
    assert b == a + (b - a);
  }

  /** A function without repetitions keeps the size. */
  lemma {:induction false} ImageCount<T>(s: seq<T>, indices: set<nat>)
    requires forall i :: i in indices ==> i < |s|
    requires forall i, j :: i in indices && j in indices && i != j ==> s[i] != s[j]
    ensures |set i | i in indices :: s[i]| == |indices|
    decreases |indices|
  {
    var image := set i | i in indices :: s[i];
    if indices == {} {
      assert image == {};
    } else {
      var i :| i in indices;
      ImageCount(s, indices - {i});
      assert image == (set j | j in indices - {i} :: s[j]) + {s[i]};
    }
  }
}

/** The generator x -> a x + c modulo 2^32 with the constants of Numerical Recipes, and its full period. */
module LinearCongruence {
  import opened Counting
  import opened PowersOfTwo

  const MODULUS: int := 0x1_0000_0000

  type Uint32 = x: int | 0 <= x < 0x1_0000_0000

  /** `r*1664525 + 1013904223` in 32-bit arithmetic; written out here, so that the arithmetic below stays linear. */
  function Advance(x: Uint32): Uint32 {
    (1664525 * x + 1013904223) % MODULUS
  }

  function Iterate(x: Uint32, n: nat): Uint32 {
    if n == 0 then x else Advance(Iterate(x, n - 1))
  }

  function Power(n: nat): int {
    if n == 0 then 1 else 1664525 * Power(n - 1)
  }

  /** 1 + a + ... + a^(n-1). */
  function Series(n: nat): int {
    if n == 0 then 0 else 1 + 1664525 * Series(n - 1)
  }

  /** Every power is 1 modulo 4, because the multiplier is. */
  lemma {:induction false} PowerModFour(n: nat) returns (q: int)
    ensures Power(n) == 4 * q + 1
  {
    if n == 0 {
      q := 0;
    } else {
      var p := PowerModFour(n - 1);
      q := 1664525 * p + 416131;
    }
  }

  lemma {:induction false} SeriesSum(m: nat, n: nat)
    ensures Series(m + n) == Series(m) + Power(m) * Series(n)
  {
    if m > 0 {
      SeriesSum(m - 1, n);
      var p, s := Power(m - 1), Series(n);
      assert 1664525 * (p * s) == (1664525 * p) * s;
    }
  }

  /** The series alternates between even and odd. */
  lemma {:induction false} SeriesParity(n: nat) returns (h: int)
    ensures Series(n) == 2 * h + n % 2
  {
    if n == 0 {
      h := 0;
    } else {
      var g := SeriesParity(n - 1);
      h := if n % 2 == 0 then 1664525 * g + 832263 else 1664525 * g;
    }
  }

  lemma TwiceOdd(s: int, p: int, odd: int)
    requires 1 + p == 2 * odd
    ensures s + p * s == 2 * (s * odd)
  {
    assert s + p * s == (1 + p) * s;
  }

  /** An even number of terms pairs up. */
  lemma {:induction false} HalveSeries(m: nat) returns (odd: int)
    ensures odd % 2 == 1 && Series(m + m) == 2 * (Series(m) * odd)
  {
    SeriesSum(m, m);
    var q := PowerModFour(m);
    odd := 2 * q + 1;
    TwiceOdd(Series(m), Power(m), odd);
  }

  /** The heart of the matter: 2^k divides 1 + a + ... + a^(n-1) exactly when it divides n. */
  lemma {:induction false} SeriesDivisibility(k: nat, n: nat)
    ensures Divides(k, Series(n)) <==> Divides(k, n)
    decreases k
  {
    var h := SeriesParity(n);
    if k > 0 && n % 2 == 0 {
      var m := n / 2;
      var odd := HalveSeries(m);
      var z := Series(m) * odd;
      assert Series(n) == 2 * z;
      OddFactor(k - 1, Series(m), odd);
      SeriesDivisibility(k - 1, m);
    }
  }

  /** The n-th iterate in closed form, up to a multiple of the modulus. */
  lemma {:induction false} ClosedForm(x: Uint32, n: nat) returns (q: int)
    ensures Iterate(x, n) == x + (x * 1664524 + 1013904223) * Series(n) - MODULUS * q
  {
    if n == 0 {
      q := 0;
    } else {
      var p := ClosedForm(x, n - 1);
      var u := x * 1664524 + 1013904223;
      var z := ClosedStep(x, Iterate(x, n - 1), u, Series(n - 1), p);
      q := 1664525 * p + z / MODULUS;
    }
  }

  /** One more step, before the reduction. */
  lemma ClosedStep(x: int, y: int, u: int, s: int, p: int) returns (z: int)
    requires u == x * 1664524 + 1013904223 && y == x + u * s - MODULUS * p
    ensures z == 1664525 * y + 1013904223 == x + u * (1 + 1664525 * s) - MODULUS * (1664525 * p)
  {
    z := 1664525 * y + 1013904223;
    var t := u * s;
    assert u * (1 + 1664525 * s) == u + 1664525 * t;
  }

  lemma Pow2Of32()
    ensures Pow2(32) == MODULUS
  {
    assert Pow2(8) == 256;
    assert Pow2(16) == 65536;
    assert Pow2(24) == 0x100_0000;
  }

  lemma {:induction false} OddSeriesDivisibility(k: nat, n: nat, odd: int, d: int)
    requires odd % 2 == 1 && d == Series(n) * odd
    ensures Divides(k, d) <==> Divides(k, n)
  {
    OddFactor(k, Series(n), odd);
    SeriesDivisibility(k, n);
  }

  lemma DividesModulus(k: nat, z: int)
    requires Pow2(k) == MODULUS
    ensures Divides(k, z) <==> z % MODULUS == 0
  {
    DividesIsModulo(k, z);
  }

  /** The period is exactly 2^32 from every starting point: the state returns after n steps iff 2^32 divides n. */
  lemma {:induction false} FullPeriod(x: Uint32, n: nat)
    ensures Iterate(x, n) == x <==> n % MODULUS == 0
  {
    Pow2Of32();
    PeriodOfModulus(32, x, n);
  }

  lemma OddSlope(x: int)
    ensures (x * 1664524 + 1013904223) % 2 == 1
  {
  }

  /** How far n steps lead, up to a multiple of the modulus. */
  lemma {:induction false} Displacement(k: nat, x: Uint32, n: nat) returns (d: int, q: int)
    ensures Iterate(x, n) == x + d - MODULUS * q
    ensures Divides(k, d) <==> Divides(k, n)
  {
    q := ClosedForm(x, n);
    var u := x * 1664524 + 1013904223;
    OddSlope(x);
    d := Series(n) * u;
    OddSeriesDivisibility(k, n, u, d);
  }

  lemma {:induction false} PeriodOfModulus(k: nat, x: Uint32, n: nat)
    requires Pow2(k) == MODULUS
    ensures Iterate(x, n) == x <==> n % MODULUS == 0
  {
    var d, q := Displacement(k, x, n);
    SmallDifference(x, Iterate(x, n), d, q);
    DividesModulus(k, d);
    DividesModulus(k, n);
  }

  lemma SmallDifference(x: Uint32, y: Uint32, d: int, q: int)
    requires y == x + d - MODULUS * q
    ensures y == x <==> d % MODULUS == 0
  {
  }

  lemma {:induction false} IterateSum(x: Uint32, m: nat, n: nat)
    ensures Iterate(x, m + n) == Iterate(Iterate(x, m), n)
  {
    if n > 0 {
      IterateSum(x, m, n - 1);
    }
  }

  /** Fewer than 2^32 steps apart, states differ. */
  lemma {:induction false} NoEarlyRepeat(x: Uint32, i: nat, j: nat)
    requires i < j < i + MODULUS
    ensures Iterate(x, i) != Iterate(x, j)
  {
    IterateSum(x, i, j - i);
    FullPeriod(Iterate(x, i), j - i);
  }

  // Within 2^32 steps every state is visited.

  function Visited(x: Uint32, n: nat): set<int> {
    set i | 0 <= i < n :: Iterate(x, i)
  }

  lemma {:induction false} VisitedCount(x: Uint32, n: nat)
    requires n <= MODULUS
    ensures |Visited(x, n)| == n
  {
    if n > 0 {
      VisitedCount(x, n - 1);
      var last := Iterate(x, n - 1);
      if last in Visited(x, n - 1) {
        var i :| 0 <= i < n - 1 && Iterate(x, i) == last;
        NoEarlyRepeat(x, i, n - 1);
      }
      assert Visited(x, n) == Visited(x, n - 1) + {last};
    }
  }

  /** Every 32-bit value is reached from every other in fewer than 2^32 steps. */
  lemma EveryStateVisited(x: Uint32, y: Uint32) returns (i: nat)
    ensures i < MODULUS && Iterate(x, i) == y
  {
    VisitedCount(x, MODULUS);
    if y !in Visited(x, MODULUS) {
      var most := Visited(x, MODULUS) + {y};
      assert |most| == MODULUS + 1;
      RangeCount(most, MODULUS);
      assert false;
    }
    i :| 0 <= i < MODULUS && Iterate(x, i) == y;
  }
}

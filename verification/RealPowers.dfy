// Logarithms without logarithms: bounds of the form  v^(2^j) <= 2^e  on real numbers,
// closed under products and squares, that compare values through integer exponents.
module RealPowers {
  import opened Arith

  // ---- Products, kept out of the solver's sight except in these lemmas ----

  ghost function Times(x: real, y: real): real {
    x * y
  }

  lemma TimesMono(a: real, b: real, c: real, d: real)
    requires 0.0 <= a <= b && 0.0 <= c <= d
    ensures Times(a, c) <= Times(b, d)
  {
    assert a * c <= b * c;
    assert b * c <= b * d;
  }

  lemma TimesStrict(a: real, b: real, c: real, d: real)
    requires 0.0 <= a < b && 0.0 < c <= d
    ensures Times(a, c) < Times(b, d)
  {
    assert a * c < b * c;
    assert b * c <= b * d;
  }

  lemma TimesPositive(a: real, b: real)
    requires 0.0 < a && 0.0 < b
    ensures 0.0 < Times(a, b)
  {
  }

  lemma TimesCommutes(a: real, b: real)
    ensures Times(a, b) == Times(b, a)
  {
  }

  lemma Interchange(x: real, y: real, z: real, w: real)
    ensures Times(Times(x, y), Times(z, w)) == Times(Times(x, z), Times(y, w))
  {
    assert (x * y) * (z * w) == x * (y * z) * w;
    assert (x * z) * (y * w) == x * (z * y) * w;
  }

  lemma TimesDouble(x: real, y: real)
    ensures Times(x, 2.0 * y) == 2.0 * Times(x, y) == Times(2.0 * x, y)
  {
  }

  lemma TimesOne(x: real)
    ensures Times(x, 1.0) == x == Times(1.0, x)
  {
  }

  ghost function Inverse(x: real): real
    requires 0.0 < x
  {
    1.0 / x
  }

  lemma TimesInverse(x: real)
    requires 0.0 < x
    ensures 0.0 < Inverse(x) && Times(x, Inverse(x)) == 1.0
  {
  }

  lemma ReciprocalOrder(a: real, b: real, a1: real, b1: real)
    requires 0.0 < a <= b && 0.0 < a1 && 0.0 < b1
    requires Times(a, a1) == 1.0 && Times(b, b1) == 1.0
    ensures b1 <= a1
  {
    if a1 < b1 {
      TimesStrict(a1, b1, a, b);
      TimesCommutes(a1, a);
      TimesCommutes(b1, b);
    }
  }

  // ---- Powers of two and repeated squaring ----

  /** 2^e as a real, for any integer e. */
  ghost function Two(e: int): (r: real)
    ensures r > 0.0
  {
    if e >= 0 then Pow2(e) as real else 1.0 / Pow2(-e) as real
  }

  /** x^(2^j). */
  ghost function Squared(x: real, j: nat): real
    decreases j
  {
    if j == 0 then x else Squared(Times(x, x), j - 1)
  }

  lemma TwoStep(e: int)
    ensures Two(e + 1) == 2.0 * Two(e)
  {
    if e < -1 {
      var p := Pow2(-e - 1) as real;
      assert Pow2(-e) as real == 2.0 * p;
      assert 1.0 / p == 2.0 * (1.0 / (2.0 * p));
    } else if e == -1 {
      assert Two(-1) == 1.0 / 2.0;
    } else {
      assert Pow2(e + 1) == 2 * Pow2(e);
    }
  }

  lemma TwoZero()
    ensures Two(0) == 1.0
  {
  }

  lemma {:induction false} TwoAdd(a: int, b: int)
    ensures Two(a + b) == Times(Two(a), Two(b))
    decreases Max(b, -b)
  {
    hide Two, Times;
    if b > 0 {
      TwoAdd(a, b - 1);
      TwoStep(a + b - 1);
      TwoStep(b - 1);
      TimesDouble(Two(a), Two(b - 1));
    } else if b < 0 {
      TwoAdd(a, b + 1);
      TwoStep(a + b);
      TwoStep(b);
      TimesDouble(Two(a), Two(b));
    } else {
      TwoZero();
      TimesOne(Two(a));
    }
  }

  lemma {:induction false} TwoMono(a: int, b: int)
    requires a <= b
    ensures Two(a) <= Two(b)
    ensures a < b ==> Two(a) < Two(b)
    decreases b - a
  {
    hide Two;
    if a < b {
      TwoMono(a, b - 1);
      TwoStep(b - 1);
    }
  }

  lemma {:induction false} SquaredPositive(x: real, j: nat)
    requires 0.0 < x
    ensures 0.0 < Squared(x, j)
    decreases j
  {
    hide Times;
    if j != 0 {
      TimesPositive(x, x);
      SquaredPositive(Times(x, x), j - 1);
    }
  }

  lemma {:induction false} SquaredMul(x: real, y: real, j: nat)
    ensures Squared(Times(x, y), j) == Times(Squared(x, j), Squared(y, j))
    decreases j
  {
    hide Times;
    if j != 0 {
      Interchange(x, y, x, y);
      SquaredMul(Times(x, x), Times(y, y), j - 1);
    }
  }

  lemma {:induction false} SquaredMono(x: real, y: real, j: nat)
    requires 0.0 < x <= y
    ensures Squared(x, j) <= Squared(y, j)
    ensures x < y ==> Squared(x, j) < Squared(y, j)
    decreases j
  {
    hide Times;
    if j != 0 {
      TimesPositive(x, x);
      TimesMono(x, y, x, y);
      if x < y {
        TimesStrict(x, y, x, y);
      }
      SquaredMono(Times(x, x), Times(y, y), j - 1);
    }
  }

  lemma {:induction false} SquaredTwice(x: real, i: nat, j: nat)
    ensures Squared(x, i + j) == Squared(Squared(x, i), j)
    decreases i
  {
    hide Times;
    if i != 0 {
      SquaredTwice(Times(x, x), i - 1, j);
    }
  }

  lemma {:induction false} SquaredTwo(e: int, j: nat)
    ensures Squared(Two(e), j) == Two(e * Pow2(j))
    decreases j
  {
    hide Two, Times;
    if j != 0 {
      TwoAdd(e, e);
      SquaredTwo(e + e, j - 1);
      assert (e + e) * Pow2(j - 1) == e * Pow2(j);
    }
  }

  lemma {:induction false} SquaredOne(j: nat)
    ensures Squared(1.0, j) == 1.0
    decreases j
  {
    if j != 0 {
      TimesOne(1.0);
      SquaredOne(j - 1);
    }
  }

  lemma SquareOfLess(epsilon: real)
    ensures Times(1.0 - epsilon, 1.0 - epsilon) >= 1.0 - 2.0 * epsilon
  {
    assert epsilon * epsilon >= 0.0;
  }

  /** Bernoulli's inequality for 2^j factors. */
  lemma {:induction false} Bernoulli(epsilon: real, j: nat)
    requires 0.0 <= epsilon && Times(Pow2(j) as real, epsilon) < 1.0
    ensures 1.0 - Times(Pow2(j) as real, epsilon) <= Squared(1.0 - epsilon, j)
    decreases j
  {
    hide Times;
    if j == 0 {
      TimesOne(epsilon);
    } else {
      var x, p := 1.0 - epsilon, Pow2(j - 1) as real;
      TimesDouble(p, epsilon);
      assert Pow2(j) as real == 2.0 * p;
      TimesMono(1.0, p, 2.0 * epsilon, 2.0 * epsilon);
      TimesOne(2.0 * epsilon);
      SquareOfLess(epsilon);
      Bernoulli(2.0 * epsilon, j - 1);
      SquaredMono(1.0 - 2.0 * epsilon, Times(x, x), j - 1);
    }
  }

  // ---- Bounds on the logarithm to base 2, in units of 2^-j ----

  ghost predicate LogAtMost(j: nat, v: real, e: int) {
    0.0 < v && Squared(v, j) <= Two(e)
  }

  ghost predicate LogAtLeast(j: nat, v: real, e: int) {
    0.0 < v && Two(e) <= Squared(v, j)
  }

  lemma AtMostMul(j: nat, v: real, e: int, w: real, f: int)
    requires LogAtMost(j, v, e) && LogAtMost(j, w, f)
    ensures LogAtMost(j, Times(v, w), e + f)
  {
    hide Two, Squared, Times;
    TimesPositive(v, w);
    SquaredMul(v, w, j);
    TwoAdd(e, f);
    SquaredPositive(v, j);
    SquaredPositive(w, j);
    TimesMono(Squared(v, j), Two(e), Squared(w, j), Two(f));
  }

  lemma AtLeastMul(j: nat, v: real, e: int, w: real, f: int)
    requires LogAtLeast(j, v, e) && LogAtLeast(j, w, f)
    ensures LogAtLeast(j, Times(v, w), e + f)
  {
    hide Two, Squared, Times;
    TimesPositive(v, w);
    SquaredMul(v, w, j);
    TwoAdd(e, f);
    TimesMono(Two(e), Squared(v, j), Two(f), Squared(w, j));
  }

  lemma AtMostWeaken(j: nat, v: real, w: real, e: int, f: int)
    requires 0.0 < v <= w && LogAtMost(j, w, e) && e <= f
    ensures LogAtMost(j, v, f)
  {
    hide Two, Squared;
    SquaredMono(v, w, j);
    TwoMono(e, f);
  }

  lemma AtLeastWeaken(j: nat, v: real, w: real, e: int, f: int)
    requires v <= w && LogAtLeast(j, v, e) && f <= e
    ensures LogAtLeast(j, w, f)
  {
    hide Two, Squared;
    SquaredMono(v, w, j);
    TwoMono(f, e);
  }

  /** The power of an inverse is the inverse of the power. */
  lemma SquaredInverse(j: nat, v: real, e: int)
    requires 0.0 < v
    ensures 0.0 < Inverse(v) && 0.0 < Squared(Inverse(v), j) && 0.0 < Squared(v, j)
    ensures Times(Squared(v, j), Squared(Inverse(v), j)) == 1.0 && Times(Two(e), Two(-e)) == 1.0
  {
    hide Two, Squared, Times, Inverse;
    TimesInverse(v);
    SquaredMul(v, Inverse(v), j);
    SquaredOne(j);
    SquaredPositive(v, j);
    SquaredPositive(Inverse(v), j);
    TwoAdd(e, -e);
    TwoZero();
  }

  lemma InverseAtMost(j: nat, v: real, e: int)
    requires LogAtLeast(j, v, e)
    ensures LogAtMost(j, Inverse(v), -e)
  {
    hide Two, Squared, Times, Inverse;
    SquaredInverse(j, v, e);
    ReciprocalOrder(Two(e), Squared(v, j), Two(-e), Squared(Inverse(v), j));
  }

  lemma InverseAtLeast(j: nat, v: real, e: int)
    requires LogAtMost(j, v, e)
    ensures LogAtLeast(j, Inverse(v), -e)
  {
    hide Two, Squared, Times, Inverse;
    SquaredInverse(j, v, e);
    ReciprocalOrder(Squared(v, j), Two(e), Squared(Inverse(v), j), Two(-e));
  }

  /** Comparing two values through their exponents. */
  lemma CompareLogs(j: nat, v: real, e: int, w: real, f: int)
    requires LogAtMost(j, v, e) && LogAtLeast(j, w, f) && e <= f
    ensures v <= w
    ensures e < f ==> v < w
  {
    hide Two, Squared;
    TwoMono(e, f);
    if w < v {
      SquaredMono(w, v, j);
    }
  }

  /** A value is bounded by its square's bound, one level up. */
  lemma AtMostSquare(j: nat, v: real, e: int)
    requires LogAtMost(j, Times(v, v), e) && 0.0 < v
    ensures LogAtMost(j + 1, v, e)
  {
  }

  lemma AtLeastSquare(j: nat, v: real, e: int)
    requires LogAtLeast(j, Times(v, v), e) && 0.0 < v
    ensures LogAtLeast(j + 1, v, e)
  {
  }

  /** A factor barely below one costs at most one unit. */
  lemma NearlyOne(j: nat, epsilon: real)
    requires 0.0 <= epsilon && 2.0 * Times(Pow2(j) as real, epsilon) <= 1.0
    ensures LogAtLeast(j, 1.0 - epsilon, -1)
  {
    hide Squared, Times;
    Bernoulli(epsilon, j);
    TwoStep(-1);
    TwoZero();
    TimesMono(1.0, Pow2(j) as real, epsilon, epsilon);
    TimesOne(epsilon);
  }

  /** Two such factors cost at most one unit together. */
  lemma NearlyOneTwice(j: nat, epsilon: real)
    requires 0.0 <= epsilon && 2.0 * Times(Pow2(j) as real, 2.0 * epsilon) <= 1.0
    ensures LogAtLeast(j, Times(1.0 - epsilon, 1.0 - epsilon), -1)
  {
    hide Squared, Two;
    NearlyOne(j, 2.0 * epsilon);
    SquareOfLess(epsilon);
    AtLeastWeaken(j, 1.0 - 2.0 * epsilon, Times(1.0 - epsilon, 1.0 - epsilon), -1, -1);
  }

  /** A coarser factor, 2^k times further from one, costs at most 2^k units. */
  lemma NearlyOneCoarse(i: nat, k: nat, loss: real)
    requires 0.0 <= loss && 2.0 * Times(Pow2(i) as real, loss) <= 1.0
    ensures LogAtLeast(i + k, 1.0 - loss, -Pow2(k))
  {
    NearlyOne(i, loss);
    hide Squared, Two;
    SquaredTwice(1.0 - loss, i, k);
    SquaredMono(Two(-1), Squared(1.0 - loss, i), k);
    SquaredTwo(-1, k);
  }
}

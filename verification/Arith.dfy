// Integer facts shared by the fixed-point layers. Every lemma is stated for
// arbitrary integers, so that no proof has to reason about a wide literal.
module Arith {
  function Pow2(n: nat): (r: int)
    ensures r > 0
  {
    if n == 0 then 1 else 2 * Pow2(n - 1)
  }

  function Max(a: int, b: int): int {
    if a < b then b else a
  }

  function Min(a: int, b: int): int {
    if a < b then a else b
  }

  /** The quotient rounded towards positive infinity. */
  function CeilDiv(a: int, b: int): int
    requires b > 0
  {
    if a % b == 0 then a / b else a / b + 1
  }

  lemma {:induction false} Pow2Add(m: nat, n: nat)
    ensures Pow2(m + n) == Pow2(m) * Pow2(n)
  {
    if m != 0 {
      Pow2Add(m - 1, n);
    }
  }

  lemma MulMono(a: int, b: int, c: int)
    requires a <= b && 0 <= c
    ensures a * c <= b * c
  {
  }

  lemma MulStrict(a: int, b: int, c: int)
    requires a < b && 0 < c
    ensures a * c < b * c
  {
  }

  lemma MulCancel(a: int, b: int, c: int)
    requires 0 < c && a * c <= b * c
    ensures a <= b
  {
    if b < a {
      MulStrict(b, a, c);
    }
  }

  lemma MulCancelStrict(a: int, b: int, c: int)
    requires 0 <= c && a * c < b * c
    ensures a < b
  {
    if b <= a {
      MulMono(b, a, c);
    }
  }

  lemma MulNonneg(a: int, b: int)
    requires 0 <= a && 0 <= b
    ensures 0 <= a * b
  {
  }

  /** The floor quotient is the unique integer whose multiples bracket the dividend. */
  lemma DivBounds(a: int, b: int)
    requires 0 < b
    ensures (a / b) * b <= a < (a / b) * b + b
  {
  }

  lemma DivUnique(a: int, b: int, q: int)
    requires 0 < b && q * b <= a < q * b + b
    ensures a / b == q
  {
    DivBounds(a, b);
    if a / b < q {
      MulMono(a / b + 1, q, b);
    } else if q < a / b {
      MulMono(q + 1, a / b, b);
    }
  }

  lemma ModUnique(a: int, b: int, q: int, r: int)
    requires 0 < b && a == q * b + r && 0 <= r < b
    ensures a % b == r && a / b == q
  {
    DivUnique(a, b, q);
  }

  lemma CeilBounds(a: int, b: int)
    requires 0 < b
    ensures CeilDiv(a, b) * b - b < a <= CeilDiv(a, b) * b
  {
    DivBounds(a, b);
    assert a == (a / b) * b + a % b;
  }

  /** Adjunctions: the four ways a rounded quotient compares with an integer. */
  lemma DivGe(a: int, b: int, q: int)
    requires 0 < b
    ensures q <= a / b <==> q * b <= a
  {
    DivBounds(a, b);
    if q <= a / b {
      MulMono(q, a / b, b);
    } else {
      MulMono(a / b + 1, q, b);
    }
  }

  lemma CeilLe(a: int, b: int, q: int)
    requires 0 < b
    ensures CeilDiv(a, b) <= q <==> a <= q * b
  {
    CeilBounds(a, b);
    if CeilDiv(a, b) <= q {
      MulMono(CeilDiv(a, b), q, b);
    } else {
      MulMono(q, CeilDiv(a, b) - 1, b);
    }
  }

  lemma DivRange(a: int, b: int)
    requires 0 <= a && 0 < b
    ensures 0 <= a / b <= a
  {
    DivGe(a, b, 0);
    if a < a / b {
      DivBounds(a, b);
      MulMono(1, b, a / b);
    }
  }

  lemma DivMono(a: int, b: int, c: int)
    requires 0 < c && a <= b
    ensures a / c <= b / c
  {
    DivBounds(a, c);
    DivGe(b, c, a / c);
  }

  /** A multiple of the modulus does not change the remainder. */
  lemma ModAddMultiple(a: int, k: int, m: int)
    requires 0 < m
    ensures (a + k * m) % m == a % m
  {
    ModUnique(a + k * m, m, a / m + k, a % m);
  }

  /** Remainders may be taken early in a product. */
  lemma ModMul(a: int, b: int, m: int)
    requires 0 < m
    ensures ((a % m) * b) % m == (a * b) % m
  {
    assert a * b == (a % m) * b + (a / m * b) * m by {
      assert a == (a / m) * m + a % m;
      assert ((a / m) * m + a % m) * b == (a / m * b) * m + (a % m) * b;
    }
    ModAddMultiple((a % m) * b, a / m * b, m);
  }

  lemma ModProduct(a: int, b: int, m: int)
    requires 0 < m
    ensures (a * b) % m == ((a % m) * (b % m)) % m
  {
    var r := a % m;
    ModMul(a, b, m);
    ModMul(b, r, m);
    assert b * r == r * b && (b % m) * r == r * (b % m);
  }

  lemma MulBounds(a: int, b: int, m: int, n: int)
    requires 0 <= a <= m && 0 <= b <= n
    ensures 0 <= a * b <= m * n
  {
    MulNonneg(a, b);
    MulMono(a, m, b);
    MulMono(b, n, m);
  }

  lemma CeilRange(a: int, b: int)
    requires 0 <= a && 0 < b
    ensures 0 <= CeilDiv(a, b) <= a
  {
    DivRange(a, b);
    CeilLe(a, b, a);
    if 0 < a {
      MulMono(1, b, a);
    }
  }

  lemma HasMember<T>(s: set<T>)
    ensures s == {} || exists k :: k in s
  {
    if !exists k :: k in s {
      assert s <= {};
    }
  }

  /** Some element of a set. */
  ghost function Member<T>(s: set<T>): (x: T)
    requires s != {}
    ensures x in s
  {
    HasMember(s);
    var x :| x in s;
    x
  }
}

// src/v3/full_math.rs: 512-bit multiply-then-divide on 256-bit words.
module FullMath {
  import opened Results
  import opened Arith
  import opened Words

  /** floor(a * b / denominator), or a failure when that is undefined or too wide. */
  function FloorMulDiv(a: U256, b: U256, denominator: U256): Result<U256> {
    if denominator == 0 || a * b / denominator >= WORD then Failure("MulDiv overflow")
    else
      MulNonneg(a, b);
      Success(a * b / denominator)
  }

  // ---- The high word of a product, from its residue modulo 2^256 - 1 ----

  /** The residue modulo m - 1, less the low digit, with the borrow: each wrapped to m. */
  function HighOf(p: int, m: int): int
    requires 2 <= m
  {
    var mm := p % (m - 1);
    ((mm - p % m) % m - if mm < p % m then 1 else 0) % m
  }

  lemma HighOfUnfolds(p: int, m: int)
    requires 2 <= m
    ensures HighOf(p, m) == ((p % (m - 1) - p % m) % m - if p % (m - 1) < p % m then 1 else 0) % m
  {
  }

  lemma WrapTwice(x: int, y: int, m: int)
    requires 0 < m
    ensures (x % m - y) % m == (x - y) % m
  {
    assert x % m - y == (x - y) + (-(x / m)) * m;
    ModAddMultiple(x - y, -(x / m), m);
  }

  lemma HighDigit(p: int, h: int, m: int)
    requires 2 <= m && 0 <= h <= m - 2 && p == h * m + p % m
    ensures HighOf(p, m) == h
  {
    var l := p % m;
    assert p == h * (m - 1) + (h + l);
    if h + l < m - 1 {
      ModUnique(p, m - 1, h, h + l);
      WrapTwice(h, 0, m);
      ModUnique(h, m, 0, h);
    } else {
      assert p == (h + 1) * (m - 1) + (h + l - (m - 1));
      ModUnique(p, m - 1, h + 1, h + l - (m - 1));
      WrapTwice(h - (m - 1), 1, m);
      ModUnique(h - m, m, -1, h);
    }
  }

  lemma SquareBound(a: int, b: int, m: int)
    requires 0 <= a < m && 0 <= b < m
    ensures 0 <= a * b <= (m - 1) * (m - 1) < (m - 1) * m || m == 1
  {
    MulNonneg(a, b);
    MulMono(a, m - 1, b);
    MulMono(b, m - 1, m - 1);
  }

  lemma ProductDigits(a: int, b: int, m: int) returns (h: int)
    requires 2 <= m && 0 <= a < m && 0 <= b < m
    ensures 0 <= h <= m - 2 && a * b == h * m + a * b % m
  {
    SquareBound(a, b, m);
    var p := a * b;
    h := p / m;
    DivBounds(p, m);
    DivGe(p, m, 0);
    MulCancelStrict(h, m - 1, m);
  }

  /** The high word of `a * b`, computed as the code does. */
  function HighWord(a: U256, b: U256): U256 {
    HighOf(a * b, WORD)
  }

  lemma HighWordIsHigh(a: U256, b: U256)
    ensures a * b == HighWord(a, b) * WORD + Wrap(a * b)
  {
    var h := ProductDigits(a, b, WORD);
    HighDigit(a * b, h, WORD);
  }

  // ---- Exact division by a number through its inverse modulo 2^256 ----

  /** One Newton step, `inv *= 2 - d * inv`, on wrapping words. */
  function NewtonStep(inv: nat, d: nat): nat {
    Wrap(inv * Wrap(2 - Wrap(d * inv)))
  }

  /** `v == (inv * ((2 - d * inv) mod m)) mod m` satisfies `d * v == e * (2 - e)` modulo m. */
  lemma NewtonValue(inv: int, d: int, m: int) returns (s: int)
    requires 0 < m
    ensures d * ((inv * ((2 - (d * inv) % m) % m)) % m) == d * inv * (2 - d * inv) + s * m
  {
    var e := d * inv;
    var q0, q1 := e / m, (2 - e % m) / m;
    var u := (2 - e % m) % m;
    assert u == 2 - e + (q0 - q1) * m;
    var q2 := (inv * u) / m;
    assert (inv * u) % m == inv * u - q2 * m;
    s := e * (q0 - q1) - d * q2;
    calc {
      d * (inv * u - q2 * m);
      d * inv * u - d * q2 * m;
      e * (2 - e + (q0 - q1) * m) - d * q2 * m;
      { Distribute(e, 2 - e, q0 - q1, m); }
      e * (2 - e) + e * (q0 - q1) * m - d * q2 * m;
      e * (2 - e) + s * m;
    }
  }

  lemma Distribute(e: int, x: int, y: int, m: int)
    ensures e * (x + y * m) == e * x + e * y * m
  {
  }

  lemma OneMore(e: int, k: int) returns (c: int)
    requires 0 < k && e % k == 1 % k
    ensures e == 1 + c * k
  {
    c := e / k - 1 / k;
    DivBounds(e, k);
  }

  lemma NewtonAlgebra(e: int, c: int, k: int)
    requires e == 1 + c * k
    ensures e * (2 - e) == 1 - (c * c) * (k * k)
  {
    var x := c * k;
    assert e * (2 - e) == 1 - x * x;
    assert x * x == (c * c) * (k * k);
  }

  /** A Newton step squares the precision `k` of an inverse, for any word size `m` that `k * k` divides. */
  lemma NewtonSquares(inv: int, d: int, k: int, m: int, j: int)
    requires 0 < k && 0 < m && m == j * (k * k)
    requires (d * inv) % k == 1 % k
    ensures (d * ((inv * ((2 - (d * inv) % m) % m)) % m)) % (k * k) == 1 % (k * k)
  {
    var s := NewtonValue(inv, d, m);
    var c := OneMore(d * inv, k);
    NewtonAlgebra(d * inv, c, k);
    var t := s * j - c * c;
    assert s * m == (s * j) * (k * k);
    assert 1 - (c * c) * (k * k) + (s * j) * (k * k) == 1 + t * (k * k);
    ModAddMultiple(1, t, k * k);
  }

  lemma NewtonWord(inv: nat, d: nat, k: int, j: int)
    requires 0 < k && WORD == j * (k * k)
    requires (d * inv) % k == 1 % k
    ensures (d * NewtonStep(inv, d)) % (k * k) == 1 % (k * k)
  {
    NewtonSquares(inv, d, k, WORD, j);
  }

  lemma WrapModSixteen(d: int)
    ensures Wrap(3 * d) % 16 == (3 * (d % 16)) % 16
  {
    var w := 3 * (d / 16) - 3 * d / WORD * (WORD / 16);
    assert Wrap(3 * d) == 3 * (d % 16) + w * 16;
    ModAddMultiple(3 * (d % 16), w, 16);
  }

  lemma FlipResidue(x: int)
    ensures FlipSecond(x) % 16 == FlipSecond(x % 16) % 16
  {
    var z, q := x % 16, x / 16;
    assert x / 2 == z / 2 + (4 * q) * 2;
    ModAddMultiple(z / 2, 4 * q, 2);
    ModAddMultiple(FlipSecond(z), q, 16);
  }

  lemma SeedDigit(r: int)
    requires 0 <= r < 16 && r % 2 == 1
    ensures (r * FlipSecond((3 * r) % 16)) % 16 == 1
  {
    assert r == 1 || r == 3 || r == 5 || r == 7 || r == 9 || r == 11 || r == 13 || r == 15;
  }

  lemma SeedProduct(d: int, y: int, r: int, w: int)
    requires r == d % 16 && y % 16 == w % 16
    ensures (d * y) % 16 == (r * w) % 16
  {
    ModProduct(d, y, 16);
    ModProduct(r, w, 16);
    assert r % 16 == r;
  }

  lemma OddResidue(d: int)
    ensures (d % 16) % 2 == d % 2
  {
    assert d == d % 16 + (8 * (d / 16)) * 2;
    ModAddMultiple(d % 16, 8 * (d / 16), 2);
  }

  /** The seed `(3 * d) ^ 2` inverts an odd `d` modulo 2^4. */
  lemma NewtonSeed(d: nat)
    requires d % 2 == 1
    ensures (d * Xor(Wrap(3 * d), 2)) % 16 == 1
  {
    var x := Wrap(3 * d);
    XorTwo(x);
    WrapModSixteen(d);
    FlipResidue(x);
    SeedProduct(d, FlipSecond(x), d % 16, FlipSecond((3 * (d % 16)) % 16));
    OddResidue(d);
    SeedDigit(d % 16);
  }

  /** If `odd * inv` is 1 and `whole == odd * q` modulo m, then `whole * inv` is q. */
  lemma DivideByInverse(whole: int, odd: int, q: int, inv: int, m: int)
    requires 1 < m && 0 <= q < m
    requires whole == odd * q && (odd * inv) % m == 1
    ensures ((whole % m) * inv) % m == q
  {
    ModMul(whole, inv, m);
    var c := (odd * inv) / m;
    assert odd * inv == 1 + c * m;
    assert whole * inv == q * (odd * inv) == q + (q * c) * m;
    ModAddMultiple(q, q * c, m);
    ModUnique(q, m, 0, q);
  }

  // ---- Stripping the power of two from the denominator ----

  lemma PowerSplits(i: nat, n: nat)
    requires i <= n
    ensures Pow2(n) == Pow2(n - i) * Pow2(i)
  {
    Pow2Add(n - i, i);
  }

  /**
   * With `p == hi * m + lo` a multiple of `t`, and `t` a divisor of `m`, the code's
   * digit-wise shift `lo / t | hi * (m / t)` is `p / t` in the low word.
   */
  lemma ShiftedDigits(p: int, hi: int, lo: int, t: int, mt: int, m: int)
    requires 0 < t && 0 < mt && m == mt * t && p == hi * m + lo && 0 <= lo < m
    requires p % t == 0
    ensures lo % t == 0 && 0 <= lo / t < mt
    ensures p / t == hi * mt + lo / t
  {
    var q := p / t;
    assert p == q * t;
    assert lo == (q - hi * mt) * t by {
      assert hi * m == (hi * mt) * t;
    }
    ModUnique(lo, t, q - hi * mt, 0);
    MulCancelStrict(lo / t, mt, t);
    if lo / t < 0 {
      MulMono(lo / t, -1, t);
    }
  }

  /** `(-t) / t + 1` is `m / t` for a divisor `t` of the word size. */
  lemma ComplementQuotient(t: int, mt: int, m: int)
    requires 0 < t && 0 < mt && m == mt * t && 1 < m
    ensures (((-t) % m) / t + 1) % m == mt % m
  {
    if t == m {
      MulCancel(mt, 1, t);
      assert mt == 1;
      ModUnique(-t, m, -1, 0);
      assert 0 / t == 0;
    } else {
      if t > m {
        MulMono(1, mt, t);
      }
      ModUnique(-t, m, -1, m - t);
      assert m - t == (mt - 1) * t;
      ModUnique(m - t, t, mt - 1, 0);
    }
  }

  /** Multiples of `mt` stay multiples of `mt` after wrapping to a word of size `mt * t`. */
  lemma WrapMultiple(hi: int, t: int, mt: int, m: int) returns (k: int)
    requires 0 < t && 0 < mt && m == mt * t && 0 <= hi
    ensures 0 <= k && (hi * (mt % m)) % m == k * mt
    ensures (hi * mt - k * mt) % m == 0
  {
    var w := hi * (mt % m);
    var q := mt / m;
    assert mt % m == mt - q * m;
    assert w == hi * mt - (hi * q) * m;
    k := hi - (hi * q) * t - (w / m) * t;
    assert w % m == w - (w / m) * m;
    assert ((hi * q) * t) * mt == (hi * q) * m;
    assert ((w / m) * t) * mt == (w / m) * m;
    assert w % m == k * mt;
    if k < 0 {
      MulMono(k, -1, mt);
    }
    var c := hi * q + w / m;
    assert hi * mt - k * mt == c * m;
    ModUnique(c * m, m, c, 0);
  }

  function Inverse(odd: nat): nat {
    NewtonSteps(Xor(Wrap(3 * odd), 2), odd, 6)
  }

  function NewtonSteps(inv: nat, d: nat, n: nat): nat {
    if n == 0 then inv else NewtonStep(NewtonSteps(inv, d, n - 1), d)
  }

  lemma OneMoreStep(inv: nat, d: nat, n: nat)
    ensures NewtonSteps(inv, d, 0) == inv
    ensures NewtonSteps(inv, d, n + 1) == NewtonStep(NewtonSteps(inv, d, n), d)
  {
  }

  lemma SixSteps(inv: nat, d: nat)
    ensures NewtonSteps(inv, d, 6)
         == NewtonStep(NewtonStep(NewtonStep(NewtonStep(NewtonStep(NewtonStep(inv, d), d), d), d), d), d)
  {
    hide NewtonSteps, NewtonStep;
    OneMoreStep(inv, d, 0);
    OneMoreStep(inv, d, 1);
    OneMoreStep(inv, d, 2);
    OneMoreStep(inv, d, 3);
    OneMoreStep(inv, d, 4);
    OneMoreStep(inv, d, 5);
  }

  lemma InverseInverts(odd: nat)
    requires odd % 2 == 1
    ensures (odd * Inverse(odd)) % WORD == 1
  {
    hide NewtonStep, NewtonSteps, Xor, Wrap;
    var inv := Xor(Wrap(3 * odd), 2);
    NewtonSeed(odd);
    NewtonWord(inv, odd, 0x10, WORD / 0x100);
    inv := NewtonStep(inv, odd);
    NewtonWord(inv, odd, 0x100, WORD / 0x10000);
    inv := NewtonStep(inv, odd);
    NewtonWord(inv, odd, 0x10000, WORD / 0x1_00000000);
    inv := NewtonStep(inv, odd);
    NewtonWord(inv, odd, 0x1_00000000, WORD / 0x1_0000000000000000);
    inv := NewtonStep(inv, odd);
    NewtonWord(inv, odd, 0x1_0000000000000000, Q128);
    inv := NewtonStep(inv, odd);
    NewtonWord(inv, odd, Q128, 1);
    SixSteps(Xor(Wrap(3 * odd), 2), odd);
  }

  // ---- The method ----

  lemma LowTwos(d: U256) returns (i: nat)
    requires 0 < d
    ensures i < 256 && And(Wrap(0 - d), d) == Pow2(i)
    ensures d % Pow2(i) == 0 && (d / Pow2(i)) % 2 == 1
  {
    WordIsPow2();
    ModUnique(0 - d, WORD, -1, WORD - d);
    i := LowestBit(d, 256);
  }

  lemma FactorOut(p: int, d: int, t: int) returns (odd: int)
    requires 0 < d && 0 < t && p % d == 0 && d % t == 0
    ensures odd == d / t && p % t == 0 && p / t == odd * (p / d)
  {
    odd := d / t;
    var q := p / d;
    assert p == q * d && d == odd * t;
    assert p == (odd * q) * t;
    ModUnique(p, t, odd * q, 0);
  }

  lemma SameResidue(x: int, y: int, z: int, m: int)
    requires 0 < m && (x - y) % m == 0
    ensures (y + z) % m == (x + z) % m
  {
    var k := (x - y) / m;
    assert x + z == y + z + k * m;
    ModAddMultiple(y + z, k, m);
  }

  /** The word `prod_0 / twos | prod_1 * (m / twos)`, for words of size `m`. */
  function ShiftedWord(hi: nat, lo: nat, t: nat, m: nat): nat
    requires 0 < t && 0 < m
  {
    Or(lo / t, (hi * (((0 - t) % m / t + 1) % m)) % m)
  }

  lemma StripPower(p: int, hi: nat, lo: nat, d: int, t: nat, mt: nat, j: nat, m: nat)
    requires 1 < m && 0 < d && 0 < t && mt == Pow2(j) && m == mt * t
    requires p == hi * m + lo && lo < m && p % d == 0 && d % t == 0
    ensures ShiftedWord(hi, lo, t, m) % m == (d / t * (p / d)) % m
  {
    var odd := FactorOut(p, d, t);
    ComplementQuotient(t, mt, m);
    ShiftedDigits(p, hi, lo, t, mt, m);
    var k := WrapMultiple(hi, t, mt, m);
    OrDisjoint(lo / t, k, j);
    SameResidue(hi * mt, k * mt, lo / t, m);
  }

  /** Dividing `p == hi * WORD + lo` by the power of two in `d`, digit by digit. */
  lemma StripTwos(p: int, hi: U256, lo: U256, d: U256) returns (t: nat)
    requires 0 < d && p == hi * WORD + lo && p % d == 0
    ensures 0 < t && t == And(Wrap(0 - d), d) && (d / t) % 2 == 1
    ensures ShiftedWord(hi, lo, t, WORD) % WORD == (d / t * (p / d)) % WORD
  {
    hide ShiftedWord, And, Wrap;
    var i := LowTwos(d);
    t := Pow2(i);
    WordIsPow2();
    PowerSplits(i, 256);
    StripPower(p, hi, lo, d, t, Pow2(256 - i), 256 - i, WORD);
  }

  lemma DivideWord(whole: int, odd: nat, q: int)
    requires odd % 2 == 1 && 0 <= q < WORD
    requires whole % WORD == (odd * q) % WORD
    ensures Wrap(whole * Inverse(odd)) == q
  {
    InverseInverts(odd);
    DivideByInverse(odd * q, odd, q, Inverse(odd), WORD);
    ModMul(whole, Inverse(odd), WORD);
  }

  lemma Overflows(p: int, hi: int, lo: int, d: int, m: int)
    requires 0 < d && 0 <= hi && 0 <= lo < m && p == hi * m + lo
    ensures p / d >= m <==> d <= hi
  {
    DivGe(p, d, m);
    if d <= hi {
      MulMono(d, hi, m);
    } else {
      MulMono(hi + 1, d, m);
    }
  }

  /** Taking the remainder off the double word, with the borrow. */
  lemma Borrow(p: int, hi: int, lo: int, r: int, m: int)
    requires 0 < m && 0 < hi < m && 0 <= lo < m && 0 <= r < m && p == hi * m + lo
    ensures p - r == ((hi - if r > lo then 1 else 0) % m) * m + (lo - r) % m
  {
    if r > lo {
      ModUnique(lo - r, m, -1, lo - r + m);
      ModUnique(hi - 1, m, 0, hi - 1);
    } else {
      ModUnique(lo - r, m, 0, lo - r);
      ModUnique(hi, m, 0, hi);
    }
  }

  lemma LessRemainder(p: int, d: int)
    requires 0 < d
    ensures (p - p % d) % d == 0 && (p - p % d) / d == p / d
  {
    ModUnique(p - p % d, d, p / d, 0);
  }

  lemma QuotientFits(p: int, d: int)
    requires 0 < d && 0 <= p && p / d < WORD
    ensures 0 <= p / d
  {
    DivGe(p, d, 0);
  }

  method MulDiv(a: U256, b: U256, denominator: U256) returns (r: Result<U256>)
    ensures r == FloorMulDiv(a, b, denominator)
  {
    MulNonneg(a, b);
    var p := a * b;
    var prod1, prod0 := DoubleWord(a, b);

    if denominator <= prod1 {
      if denominator != 0 {
        Overflows(p, prod1, prod0, denominator, WORD);
      }
      return Failure("MulDiv overflow");
    }
    Overflows(p, prod1, prod0, denominator, WORD);
    if prod1 == 0 {
      DivRange(prod0, denominator);
      return Success(prod0 / denominator);
    }

    var remainder := p % denominator;
    ghost var multiple := p - remainder;
    Borrow(p, prod1, prod0, remainder, WORD);
    LessRemainder(p, denominator);
    assert multiple % denominator == 0 && multiple / denominator == p / denominator;
    QuotientFits(p, denominator);
    prod1 := Wrap(prod1 - if remainder > prod0 then 1 else 0);
    prod0 := Wrap(prod0 - remainder);
    var quotient := DivideExactly(multiple, prod1, prod0, denominator);
    return Success(quotient);
  }

  /** The double word of `a * b`: its residues modulo 2^256 and 2^256 - 1 determine it. */
  method DoubleWord(a: U256, b: U256) returns (prod1: U256, prod0: U256)
    ensures a * b == prod1 * WORD + prod0
    ensures prod0 == Wrap(a * b) && prod1 == HighWord(a, b)
  {
    MulNonneg(a, b);
    HighWordIsHigh(a, b);
    HighOfUnfolds(a * b, WORD);
    hide HighOf;
    var mm := a * b % MAX_WORD;
    prod0 := Wrap(a * b);
    prod1 := Wrap(Wrap(mm - prod0) - if mm < prod0 then 1 else 0);
  }

  /** Exact division of a double word by a divisor of it. */
  method DivideExactly(ghost p: int, hi: U256, lo: U256, d: U256) returns (quotient: U256)
    requires 0 < d && p == hi * WORD + lo && p % d == 0 && 0 <= p / d < WORD
    ensures quotient == p / d
  {
    ghost var t := StripTwos(p, hi, lo, d);
    var denominator, prod0 := d, lo;
    var twos: nat := And(Wrap(0 - denominator), denominator);
    DivRange(denominator, twos);
    DivRange(prod0, twos);
    denominator := denominator / twos;
    prod0 := prod0 / twos;
    twos := Wrap(Wrap(0 - twos) / twos + 1);
    prod0 := Or(prod0, Wrap(hi * twos));
    assert prod0 == ShiftedWord(hi, lo, t, WORD);

    hide ShiftedWord, And, Or, Xor, NewtonStep, NewtonSteps;
    var inv := Xor(Wrap(3 * denominator), 2);
    inv := NewtonStep(inv, denominator);
    inv := NewtonStep(inv, denominator);
    inv := NewtonStep(inv, denominator);
    inv := NewtonStep(inv, denominator);
    inv := NewtonStep(inv, denominator);
    inv := NewtonStep(inv, denominator);
    DivideWord(prod0, denominator, p / d);
    SixSteps(Xor(Wrap(3 * denominator), 2), denominator);
    quotient := Wrap(prod0 * inv);
  }

  /** ceil(a * b / denominator), as the code derives it from the floor. */
  function MulDivRoundingUp(a: U256, b: U256, denominator: U256): Result<U256> {
    var result :- FloorMulDiv(a, b, denominator);
    if a * b % denominator == 0 then Success(result)
    else if result == MAX_WORD then Failure("MulDiv overflow")
    else Success(result + 1)
  }

  lemma RoundingUpIsCeiling(a: U256, b: U256, denominator: U256)
    requires 0 < denominator
    ensures MulDivRoundingUp(a, b, denominator).Success? <==> CeilDiv(a * b, denominator) < WORD
    ensures MulDivRoundingUp(a, b, denominator).Success? ==>
              MulDivRoundingUp(a, b, denominator).value == CeilDiv(a * b, denominator)
  {
    MulNonneg(a, b);
  }

  /** a * b / 2^96 by shifting the double word. */
  function MulDivQ96(a: U256, b: U256): Result<U256> {
    var prod0 := Wrap(a * b);
    var prod1 := HighWord(a, b);
    if prod1 >= Q96 then Failure("MulDiv overflow")
    else Success(Wrap(Or(prod0 / Q96, Wrap(prod1 * Q160))))
  }

  lemma ShiftDouble(p: int, hi: int, lo: int, m: int, a: int, b: int)
    requires 0 < a && 0 < b && m == b * a && p == hi * m + lo && 0 <= lo < m
    ensures 0 <= lo / a < b && p / a == hi * b + lo / a
  {
    DivBounds(lo, a);
    DivGe(lo, a, 0);
    MulCancelStrict(lo / a, b, a);
    assert (hi * b + lo / a) * a == hi * m + (lo / a) * a;
    DivUnique(p, a, hi * b + lo / a);
  }

  lemma ShiftFits(p: int, a: int, b: int, lo: int, hi: int)
    requires hi < a && 0 <= lo < b
    ensures lo + hi * b < a * b
  {
    MulMono(hi + 1, a, b);
  }

  lemma ShiftedLow(p: int, hi: U256, lo: U256)
    requires hi < Q96 && p == hi * WORD + lo
    ensures 0 <= p / Q96 < WORD && p / Q96 == Wrap(Or(lo / Q96, Wrap(hi * Q160)))
  {
    hide Or, Pow2;
    ShiftDouble(p, hi, lo, WORD, Q96, Q160);
    WordIsPow2();
    OrDisjoint(lo / Q96, hi, 160);
    ShiftFits(p, Q96, Q160, lo / Q96, hi);
  }

  /** The shift is exact, and fails exactly when the quotient is too wide. */
  lemma Q96IsFloor(a: U256, b: U256)
    ensures MulDivQ96(a, b) == FloorMulDiv(a, b, Q96)
  {
    hide Or, HighWord;
    MulNonneg(a, b);
    var p := a * b;
    HighWordIsHigh(a, b);
    var hi, lo := HighWord(a, b), Wrap(a * b);
    Overflows(p, hi, lo, Q96, WORD);
    if hi < Q96 {
      ShiftedLow(p, hi, lo);
    }
  }
}

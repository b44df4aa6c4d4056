// src/v3/tick_math.rs: the tick of a price, from fourteen binary digits of its logarithm.
module TickInverse {
  import opened Results
  import opened Arith
  import opened Words
  import opened TickMath
  import opened RealPowers
  import opened TickLog

  /** 2^64 / log2(sqrt(1.0001)), and the two error margins, as the code has them. */
  const LOG_BASE: int := 255738958999603826347141
  const LOW_MARGIN: int := 3402992956809132418596140100660247210
  const HIGH_MARGIN: int := 291339464771989622907027621153398088495

  const DIGITS: nat := 14

  function MostSignificantBit(x: nat): nat
    requires 0 < x
  {
    if x == 1 then 0 else 1 + MostSignificantBit(x / 2)
  }

  lemma {:induction false} MostSignificantBounds(x: nat)
    requires 0 < x
    ensures Pow2(MostSignificantBit(x)) <= x < 2 * Pow2(MostSignificantBit(x))
  {
    if x != 1 {
      MostSignificantBounds(x / 2);
    }
  }

  /** The first 128 significant binary digits of the price. */
  function Leading(price: U160): nat
    requires 0x1_00000000 <= price
  {
    ShiftAtLeast(price);
    DivRange(Wrap(price * Q96), Pow2(MostSignificantBit(price) - 31));
    Wrap(price * Q96) / Pow2(MostSignificantBit(price) - 31)
  }

  lemma {:induction false} BitAtLeast(x: nat, m: nat)
    requires Pow2(m) <= x
    ensures m <= MostSignificantBit(x)
  {
    if m != 0 {
      BitAtLeast(x / 2, m - 1);
    }
  }

  lemma {:induction false} BitBelow(x: nat, m: nat)
    requires 0 < x < Pow2(m)
    ensures MostSignificantBit(x) < m
  {
    if x != 1 {
      BitBelow(x / 2, m - 1);
    }
  }

  lemma ShiftAtLeast(price: U160)
    requires 0x1_00000000 <= price
    ensures 32 <= MostSignificantBit(price) < 160
  {
    hide MostSignificantBit;
    WordIsPow2();
    Pow2Square(1, 2);
    Pow2Square(2, 4);
    Pow2Square(4, 16);
    Pow2Square(8, 256);
    Pow2Square(16, 0x10000);
    BitAtLeast(price, 32);
    BitBelow(price, 160);
  }

  function TopBit(r: nat): int {
    if r * r >= Q255 then 1 else 0
  }

  /** One digit of the logarithm: square the mantissa and renormalise it. */
  function NextMantissa(r: nat): nat {
    MulNonneg(r, r);
    DivRange(r * r, Pow2(127 + TopBit(r)));
    r * r / Pow2(127 + TopBit(r))
  }

  /** floor(2^k * log2), digit by digit, from an exponent n and a mantissa r. */
  function LogDigits(r: nat, n: int, k: nat): int
    decreases k
  {
    if k == 0 then n else LogDigits(NextMantissa(r), 2 * n + TopBit(r), k - 1)
  }

  function Log2Floor(price: U160): int
    requires 0x1_00000000 <= price
  {
    LogDigits(Leading(price), MostSignificantBit(price) - 96, DIGITS)
  }

  /** The two candidate ticks, in signed arithmetic. */
  function TickLow(log: int): int {
    (log * 0x4000000000000 * LOG_BASE - LOW_MARGIN) / Q128
  }

  function TickHigh(log: int): int {
    (log * 0x4000000000000 * LOG_BASE + HIGH_MARGIN) / Q128
  }

  function TickAtSqrtRatio(price: U160): Result<int> {
    if price < MIN_SQRT_RATIO || MAX_SQRT_RATIO <= price then Failure("Invalid sqrt price")
    else
      var log := Log2Floor(price);
      var low, high := TickLow(log), TickHigh(log);
      if low == high then Success(low)
      else
        var ratio :- SqrtRatioAtTick(high);
        Success(if ratio > price then high - 1 else high)
  }

  // ---- The digits bound the logarithm of the price ----

  ghost const DELTA: real := 1.0 / 85070591730234615865843651857942052864.0

  /** A price as 2^n times a mantissa r / 2^127. */
  ghost function Normal(n: int, r: int): real {
    Times(Two(n), Times(r as real, Two(-127)))
  }

  lemma NormalSquared(n: int, r: int)
    ensures Times(Normal(n, r), Normal(n, r)) == Times(Two(2 * n), Times((r * r) as real, Two(-254)))
  {
    hide Two, Times;
    var t, m := Two(n), Times(r as real, Two(-127));
    Interchange(t, m, t, m);
    TwoAdd(n, n);
    Interchange(r as real, Two(-127), r as real, Two(-127));
    TwoAdd(-127, -127);
    TimesInt(r, r);
  }

  lemma NormalShift(n: int, r: int, f: int, u: int)
    requires Two(127 + f) == u as real
    ensures Normal(2 * n + f, r) == Times(Two(2 * n), Times((r * u) as real, Two(-254)))
  {
    hide Two, Times;
    TwoAdd(2 * n, f);
    TwoAdd(127 + f, -254);
    TwoAdd(f, -127);
    TimesInt(r, u);
    var a, b, c, d := Two(2 * n), Two(f), r as real, Two(-127);
    assert Normal(2 * n + f, r) == Times(Times(a, b), Times(c, d));
    Interchange(a, b, c, d);
    Rotate(a, b, c, d, Two(127 + f), Two(-254));
  }

  lemma Rotate(a: real, b: real, c: real, d: real, x: real, y: real)
    requires Times(b, d) == Times(x, y)
    ensures Times(Times(a, b), Times(c, d)) == Times(a, Times(Times(c, x), y))
  {
    assert (a * b) * (c * d) == a * c * (b * d);
    assert a * c * (x * y) == a * ((c * x) * y);
  }

  const TOP: nat := 0x80000000000000000000000000000000

  lemma TopIsTwo(f: int)
    requires 0 <= f <= 1
    ensures Pow2(127 + f) == if f == 0 then TOP else 2 * TOP
    ensures Two(127 + f) == Pow2(127 + f) as real
  {
    WordIsPow2();
    assert Pow2(128) == 2 * Pow2(127);
  }

  lemma NextInRange(r: nat)
    requires TOP <= r < 2 * TOP
    ensures TOP <= NextMantissa(r) < 2 * TOP
    ensures var u := Pow2(127 + TopBit(r));
            NextMantissa(r) * u <= r * r < NextMantissa(r) * u + u
  {
    var u := Pow2(127 + TopBit(r));
    TopIsTwo(TopBit(r));
    MulMono(TOP, r, TOP);
    MulMono(TOP, r, r);
    MulStrict(r, 2 * TOP, r);
    MulStrict(r, 2 * TOP, 2 * TOP);
    DivBounds(r * r, u);
    DivGe(r * r, u, TOP);
    DivGe(r * r, u, 2 * TOP);
  }

  lemma NormalMono(n: int, x: real, y: real, t: real)
    requires 0.0 <= x <= y && 0.0 < t
    ensures Times(Two(n), Times(x, t)) <= Times(Two(n), Times(y, t))
  {
    hide Times;
    TimesMono(x, y, t, t);
    TimesMono(0.0, x, t, t);
    assert Times(0.0, t) == 0.0 by {
      TimesZero(t);
    }
    TimesMono(Two(n), Two(n), Times(x, t), Times(y, t));
  }

  lemma TimesZero(t: real)
    ensures Times(0.0, t) == 0.0
  {
  }

  lemma LossOfOne(q: int, x: int)
    requires TOP <= q && 0 <= x <= q + 1
    ensures Times(x as real, 1.0 - DELTA) <= q as real
  {
    var d := 85070591730234615865843651857942052864.0;
    assert 2.0 * d == TOP as real;
    var xr, qr := x as real, q as real;
    assert Times(xr, 1.0 - DELTA) == xr - xr / d;
    if x <= q {
      assert xr <= qr && xr / d >= 0.0;
    } else {
      assert xr == qr + 1.0 && xr / d >= 1.0;
    }
  }

  lemma MoveFactor(a: real, b: real, c: real, h: real)
    ensures Times(Times(a, Times(b, c)), h) == Times(a, Times(Times(b, h), c))
  {
    assert a * (b * c) * h == a * ((b * h) * c);
  }

  /** Squaring a normal number and truncating its mantissa loses at most one part in 2^126. */
  lemma NormalNext(n: int, r: nat)
    requires TOP <= r < 2 * TOP
    ensures var f, r1 := TopBit(r), NextMantissa(r);
            && TOP <= r1 < 2 * TOP
            && Normal(2 * n + f, r1) <= Times(Normal(n, r), Normal(n, r))
            && Times(Times(Normal(n, r), Normal(n, r)), 1.0 - DELTA) <= Normal(2 * n + f, r1)
  {
    hide Two, Times, Pow2, NextMantissa;
    var f, r1 := TopBit(r), NextMantissa(r);
    var u := Pow2(127 + f);
    TopIsTwo(f);
    NextInRange(r);
    NormalSquared(n, r);
    NormalShift(n, r1, f, u);
    NormalMono(2 * n, (r1 * u) as real, (r * r) as real, Two(-254));
    // (r * r) * (1 - delta) <= r1 * u, since r * r <= (r1 + 1) * u
    LossOfOne(r1, r1 + 1);
    var h := 1.0 - DELTA;
    ScaleLoss(r * r, r1, u);
    MoveFactor(Two(2 * n), (r * r) as real, Two(-254), h);
    NonnegativeLoss(r * r);
    NormalMono(2 * n, Times((r * r) as real, h), (r1 * u) as real, Two(-254));
  }

  lemma NonnegativeLoss(x: int)
    requires 0 <= x
    ensures 0.0 <= Times(x as real, 1.0 - DELTA)
  {
  }

  lemma ScaleLoss(x: int, q: int, u: int)
    requires 0 < u && 0 <= x < q * u + u && 0 <= q
    requires Times((q + 1) as real, 1.0 - DELTA) <= q as real
    ensures Times(x as real, 1.0 - DELTA) <= (q * u) as real
  {
    hide Times;
    var h := 1.0 - DELTA;
    TimesInt(q + 1, u);
    TimesInt(q, u);
    assert (q + 1) * u == q * u + u;
    TimesMono(x as real, ((q + 1) * u) as real, h, h);
    Exchange((q + 1) as real, u as real, h);
    NonnegativeLoss(q + 1);
    TimesMono(Times((q + 1) as real, h), q as real, u as real, u as real);
  }

  /**
   * After k digits: 2^L <= v^(2^k), and v^(2^k) is below 2^(L+1) up to the loss g,
   * itself squared k times.
   */
  lemma {:induction false} DigitsSound(v: real, g: real, n: int, r: nat, k: nat)
    requires TOP <= r < 2 * TOP && 0.0 < g
    requires Normal(n, r) <= v && Times(v, g) <= Times(Normal(n, r), 1.0 - DELTA)
    ensures Two(LogDigits(r, n, k)) <= Squared(v, k)
    ensures Times(Squared(v, k), Squared(g, k)) <= Two(LogDigits(r, n, k) + 1)
    decreases k
  {
    hide Two, Times, Normal;
    NormalBounds(n, r);
    var h, x := 1.0 - DELTA, Normal(n, r);
    if k == 0 {
      TimesMono(x, x, h, 1.0);
      TimesOne(x);
    } else {
      hide Squared, LogDigits;
      var f, r1 := TopBit(r), NextMantissa(r);
      NormalNext(n, r);
      var y := Normal(2 * n + f, r1);
      TimesMono(x, v, x, v);
      TimesPositive(g, g);
      TimesPositive(v, g);
      Interchange(v, v, g, g);
      TimesMono(Times(v, g), Times(x, h), Times(v, g), Times(x, h));
      Interchange(x, h, x, h);
      var xx := Times(x, x);
      TimesPositive(x, x);
      Regroup(xx, h);
      TimesPositive(xx, h);
      TimesMono(Times(xx, h), y, h, h);
      DigitsSound(Times(v, v), Times(g, g), 2 * n + f, r1, k - 1);
      UnfoldSquared(v, k);
      UnfoldSquared(g, k);
      UnfoldDigits(r, n, k);
    }
  }

  lemma Regroup(xx: real, h: real)
    ensures Times(xx, Times(h, h)) == Times(Times(xx, h), h)
  {
    assert xx * (h * h) == xx * h * h;
  }

  lemma UnfoldSquared(x: real, k: nat)
    requires 0 < k
    ensures Squared(x, k) == Squared(Times(x, x), k - 1)
  {
  }

  lemma UnfoldDigits(r: nat, n: int, k: nat)
    requires 0 < k
    ensures LogDigits(r, n, k) == LogDigits(NextMantissa(r), 2 * n + TopBit(r), k - 1)
  {
  }

  lemma NormalBounds(n: int, r: nat)
    requires TOP <= r < 2 * TOP
    ensures 0.0 < Two(n) <= Normal(n, r) <= Two(n + 1)
  {
    hide Times;
    TopIsTwo(0);
    TopIsTwo(1);
    hide Two;
    TwoAdd(127, -127);
    TwoAdd(128, -127);
    TwoAdd(n, 1);
    TwoZero();
    TimesOne(Two(n));
    NormalMono(n, TOP as real, r as real, Two(-127));
    NormalMono(n, r as real, (2 * TOP) as real, Two(-127));
  }

  // ---- From the digits to the price's logarithm ----

  lemma {:induction false} TwoIsPow2(e: nat)
    ensures Two(e) == Pow2(e) as real
  {
  }

  lemma PriceShifts(price: U160)
    ensures Wrap(price * Q96) == price * Q96
  {
    ModUnique(price * Q96, WORD, 0, price * Q96);
  }

  lemma LeadingRange(price: U160)
    requires 0x1_00000000 <= price
    ensures 31 < MostSignificantBit(price)
    ensures var b := Pow2(MostSignificantBit(price) - 31);
            Leading(price) * b <= price * Q96 < Leading(price) * b + b
    ensures TOP <= Leading(price) < 2 * TOP
  {
    hide MostSignificantBit, Pow2, Wrap;
    ShiftAtLeast(price);
    MostSignificantBounds(price);
    var m := MostSignificantBit(price);
    var b, x := Pow2(m - 31), price * Q96;
    TopIsTwo(0);
    Pow2Add(127, m - 31);
    Pow2Add(m, 96);
    NinetySix();
    PriceShifts(price);
    assert TOP * b == Pow2(m) * Q96;
    MulMono(Pow2(m), price, Q96);
    MulStrict(price, 2 * Pow2(m), Q96);
    QuotientRange(x, b, TOP);
  }

  lemma QuotientRange(x: int, b: int, t: int)
    requires 0 < b && t * b <= x < 2 * (t * b)
    ensures t <= x / b < 2 * t && x / b * b <= x < x / b * b + b
  {
    DivBounds(x, b);
    DivGe(x, b, t);
    DivGe(x, b, 2 * t);
    assert (2 * t) * b == 2 * (t * b);
  }

  lemma NinetySix()
    ensures Pow2(96) == Q96
  {
    WordIsPow2();
    Pow2Square(1, 2);
    Pow2Square(2, 4);
    Pow2Square(4, 16);
    Pow2Square(8, 256);
    Pow2Square(16, 0x10000);
    Pow2Square(32, 0x100000000);
    Pow2Add(64, 32);
  }

  lemma PriceAsNormal(p: int, n: int, r: int, b: int)
    requires Two(n + 65) == b as real
    ensures Normal(n, r) == Times((r * b) as real, Two(-192))
    ensures Price(p) == Times((p * Q96) as real, Two(-192))
  {
    NinetySix();
    WordIsPow2();
    Pow2Add(96, 96);
    assert Two(-192) == 1.0 / (Q96 as real * Q96 as real);
    assert Price(p) == Times((p * Q96) as real, Two(-192)) by {
      assert (p * Q96) as real == p as real * Q96 as real;
    }
    hide Two, Times;
    TwoAdd(n, -127);
    TwoAdd(n + 65, -192);
    TimesInt(r, b);
    Swap(Two(n), r as real, Two(-127), b as real, Two(-192));
  }

  lemma Swap(t: real, r: real, d: real, b: real, c: real)
    requires Times(t, d) == Times(b, c)
    ensures Times(t, Times(r, d)) == Times(Times(r, b), c)
  {
    assert t * (r * d) == r * (t * d);
    assert r * (b * c) == (r * b) * c;
  }

  lemma LeadingSound(price: U160)
    requires 0x1_00000000 <= price
    ensures var n, r := MostSignificantBit(price) - 96, Leading(price);
            && TOP <= r < 2 * TOP
            && Normal(n, r) <= Price(price)
            && Times(Price(price), 1.0 - DELTA) <= Normal(n, r)
  {
    hide Two, Times, Leading, Price, MostSignificantBit, Normal, Pow2;
    ShiftAtLeast(price);
    LeadingRange(price);
    var m: int, r := MostSignificantBit(price), Leading(price);
    var b := Pow2(m - 31);
    TwoIsPow2(m - 31);
    PriceAsNormal(price, m - 96, r, b);
    TimesMono((r * b) as real, (price * Q96) as real, Two(-192), Two(-192));
    LossOfOne(r, r + 1);
    ScaleLoss(price * Q96, r, b);
    NonnegativeLoss(price * Q96);
    TimesMono(Times((price * Q96) as real, 1.0 - DELTA), (r * b) as real, Two(-192), Two(-192));
    Exchange((price * Q96) as real, Two(-192), 1.0 - DELTA);
  }

  lemma Exchange(a: real, b: real, c: real)
    ensures Times(Times(a, b), c) == Times(Times(a, c), b)
  {
    assert a * b * c == a * c * b;
  }

  const SPREAD: int := 0x10000000

  lemma SpreadIsPow2()
    ensures Pow2(J - DIGITS) == SPREAD
  {
    Pow2Square(1, 2);
    Pow2Square(2, 4);
    Pow2Square(4, 16);
    Pow2Square(8, 256);
    Pow2Add(16, 8);
    Pow2Add(24, 4);
  }

  lemma DeltaSmall()
    ensures 2.0 * Times(Pow2(J) as real, 2.0 * DELTA) <= 1.0
  {
    PowersOfTwo();
  }

  /** The computed digits bound the logarithm of the price to one unit in the last place. */
  lemma DigitsBoundPrice(price: U160)
    requires 0x1_00000000 <= price
    ensures LogAtLeast(J, Price(price), Log2Floor(price) * SPREAD)
    ensures LogAtMost(J, Price(price), (Log2Floor(price) + 1) * SPREAD + 1)
  {
    hide Squared, Two, Times, Leading, LogDigits, Normal, MostSignificantBit, Price;
    var v, h := Price(price), 1.0 - DELTA;
    var g := Times(h, h);
    var n, r, l := MostSignificantBit(price) - 96, Leading(price), Log2Floor(price);
    PricePositive(price);
    LeadingSound(price);
    NormalBounds(n, r);
    TimesPositive(h, h);
    TimesPositive(v, h);
    TimesMono(Times(v, h), Normal(n, r), h, h);
    Regroup(v, h);
    DigitsSound(v, g, n, r, DIGITS);
    SpreadIsPow2();
    LiftAtLeast(v, l, DIGITS);
    SquaredMul(v, g, DIGITS);
    TimesPositive(v, g);
    LiftAtMost(Times(v, g), l + 1, DIGITS);
    DeltaSmall();
    NearlyOneTwice(J, DELTA);
    LossyAtMost(v, g, Times(v, g), (l + 1) * SPREAD, 1);
  }

  lemma PricePositive(p: int)
    requires 0 < p
    ensures 0.0 < Price(p)
  {
  }

  lemma LiftAtLeast(v: real, l: int, k: nat)
    requires k <= J && 0.0 < v && Two(l) <= Squared(v, k)
    ensures LogAtLeast(J, v, l * Pow2(J - k))
  {
    hide Squared, Two;
    SquaredTwice(v, k, J - k);
    SquaredMono(Two(l), Squared(v, k), J - k);
    SquaredTwo(l, J - k);
  }

  lemma LiftAtMost(v: real, l: int, k: nat)
    requires k <= J && 0.0 < v && Squared(v, k) <= Two(l)
    ensures LogAtMost(J, v, l * Pow2(J - k))
  {
    hide Squared, Two;
    SquaredPositive(v, k);
    SquaredTwice(v, k, J - k);
    SquaredMono(Squared(v, k), Two(l), J - k);
    SquaredTwo(l, J - k);
  }

  // ---- The two candidates bracket the price ----

  /** At or below the low candidate, no tick's price exceeds the given one. */
  lemma LowCandidate(tick: int, log: int)
    requires MIN_TICK <= tick <= MAX_TICK && tick <= TickLow(log)
    ensures LogCeiling(tick) <= log * SPREAD
  {
    DivGe(log * 0x4000000000000 * LOG_BASE - LOW_MARGIN, Q128, tick);
  }

  /** Above the high candidate, every tick's price does. */
  lemma HighCandidate(tick: int, log: int)
    requires MIN_TICK <= tick <= MAX_TICK && TickHigh(log) < tick
    ensures (log + 1) * SPREAD + 1 < LogFloor(tick)
  {
    DivGe(log * 0x4000000000000 * LOG_BASE + HIGH_MARGIN, Q128, tick);
  }

  lemma PriceOrder(p: int, q: int)
    ensures Price(p) <= Price(q) <==> p <= q
    ensures Price(p) < Price(q) <==> p < q
  {
  }

  lemma CandidatesBracket(price: U160, tick: int)
    requires 0x1_00000000 <= price && MIN_TICK <= tick <= MAX_TICK
    ensures tick <= TickLow(Log2Floor(price)) ==> PriceOf(tick) <= price
    ensures TickHigh(Log2Floor(price)) < tick ==> price < PriceOf(tick)
  {
    hide LogAtMost, LogAtLeast, Price, Log2Floor, SqrtRatioAtTick, TickLow, TickHigh, LogCeiling, LogFloor;
    var log, p := Log2Floor(price), PriceOf(tick);
    DigitsBoundPrice(price);
    PriceLog(tick);
    PriceOrder(p, price);
    PriceOrder(price, p);
    if tick <= TickLow(log) {
      LowCandidate(tick, log);
      CompareLogs(J, Price(p), LogCeiling(tick), Price(price), log * SPREAD);
    }
    if TickHigh(log) < tick {
      HighCandidate(tick, log);
      CompareLogs(J, Price(price), (log + 1) * SPREAD + 1, Price(p), LogFloor(tick));
    }
  }

  lemma CandidatesAdjacent(log: int)
    ensures TickLow(log) <= TickHigh(log) <= TickLow(log) + 1
  {
    var x := log * 0x4000000000000 * LOG_BASE;
    DivMono(x - LOW_MARGIN, x + HIGH_MARGIN, Q128);
    DivMono(x + HIGH_MARGIN, x - LOW_MARGIN + Q128, Q128);
    ModUnique(x - LOW_MARGIN + Q128, Q128, TickLow(log) + 1, (x - LOW_MARGIN) % Q128);
  }

  lemma {:induction false} DigitsRange(r: nat, n: int, k: nat, bound: int)
    requires -bound <= n < bound && 0 <= bound
    ensures -bound * Pow2(k) <= LogDigits(r, n, k) < bound * Pow2(k)
    decreases k
  {
    if k != 0 {
      var f, p := TopBit(r), Pow2(k - 1);
      assert 0 <= f <= 1;
      hide TopBit, NextMantissa;
      DigitsRange(NextMantissa(r), 2 * n + f, k - 1, 2 * bound);
      assert (2 * bound) * p == bound * (2 * p);
      assert -(2 * bound) * p == -bound * (2 * p);
    }
  }

  lemma LogRange(price: U160)
    requires 0x1_00000000 <= price
    ensures -64 * 0x4000 <= Log2Floor(price) < 64 * 0x4000
  {
    hide LogDigits;
    ShiftAtLeast(price);
    DigitsRange(Leading(price), MostSignificantBit(price) - 96, DIGITS, 64);
    Pow2Square(1, 2);
    Pow2Square(2, 4);
    Pow2Add(4, 3);
    assert Pow2(3) == 8;
    Pow2Square(7, 128);
  }

  lemma CandidateRange(log: int)
    requires -64 * 0x4000 <= log < 64 * 0x4000
    ensures MIN_TICK - 1 <= TickLow(log) < MAX_TICK && MIN_TICK <= TickHigh(log) <= MAX_TICK
  {
  }

  /**
   * The result is the unique tick whose price is at most the given one and whose successor's
   * is above it, for every price in the documented range; outside it, a failure.
   */
  lemma TickOfPrice(price: U160) returns (tick: int)
    requires MIN_SQRT_RATIO <= price < MAX_SQRT_RATIO
    ensures TickAtSqrtRatio(price) == Success(tick)
    ensures MIN_TICK <= tick < MAX_TICK
    ensures PriceOf(tick) <= price < PriceOf(tick + 1)
  {
    hide Log2Floor, TickLow, TickHigh, PriceOf, TickAtSqrtRatio;
    var log := Log2Floor(price);
    LogRange(price);
    CandidateRange(log);
    CandidatesAdjacent(log);
    tick := TickChosen(price, TickLow(log), TickHigh(log));
    CandidatesInRange(price, TickLow(log), TickHigh(log));
  }

  lemma TickChosen(price: U160, low: int, high: int) returns (tick: int)
    requires MIN_SQRT_RATIO <= price < MAX_SQRT_RATIO
    requires low == TickLow(Log2Floor(price)) && high == TickHigh(Log2Floor(price))
    requires MIN_TICK <= high <= MAX_TICK && low <= high <= low + 1
    ensures TickAtSqrtRatio(price) == Success(tick)
    ensures tick == if low == high || PriceOf(high) > price then low else high
  {
    hide Log2Floor, TickLow, TickHigh, SqrtRatioAtTick;
    RatioValue(high);
    tick := if low == high || PriceOf(high) > price then low else high;
  }

  /** The low candidate is a tick unless it is not the answer; the high one's successor likewise. */
  lemma CandidatesInRange(price: U160, low: int, high: int)
    requires MIN_SQRT_RATIO <= price < MAX_SQRT_RATIO
    requires low == TickLow(Log2Floor(price)) && high == TickHigh(Log2Floor(price))
    requires MIN_TICK - 1 <= low < MAX_TICK && MIN_TICK <= high <= MAX_TICK && low <= high <= low + 1
    ensures MIN_TICK <= low ==> PriceOf(low) <= price
    ensures low < MIN_TICK ==> PriceOf(high) <= price
    ensures high < MAX_TICK ==> price < PriceOf(high + 1)
    ensures high == MAX_TICK ==> price < PriceOf(high)
  {
    hide Log2Floor, TickLow, TickHigh, SqrtRatioAtTick;
    RatioEndpoints();
    if MIN_TICK <= low {
      CandidatesBracket(price, low);
    }
    if high < MAX_TICK {
      CandidatesBracket(price, high + 1);
    }
  }

  lemma TickIsUnique(price: U160, a: int, b: int)
    requires MIN_TICK <= a < MAX_TICK && MIN_TICK <= b < MAX_TICK
    requires PriceOf(a) <= price < PriceOf(a + 1) && PriceOf(b) <= price < PriceOf(b + 1)
    ensures a == b
  {
    hide SqrtRatioAtTick;
    if a + 1 < b {
      RatioMonotone(a + 1, b);
    } else if b + 1 < a {
      RatioMonotone(b + 1, a);
    }
  }

  // ---- The code itself: wrapping words, digits set by `|=`, limbs read as i32 ----

  /** The low 64-bit limb of a word, truncated to a signed 32-bit integer. */
  function LimbAsI32(x: U256): int {
    var low := x % 0x1_00000000;
    if low < 0x80000000 then low else low - 0x1_00000000
  }

  lemma LimbOfShifted(v: int, t: int)
    requires t == v / Q128 && -0x80000000 <= t < 0x80000000
    ensures 0 <= Wrap(v) / Q128 < Q128 && LimbAsI32(Wrap(v) / Q128) == t
  {
    DivBounds(v, Q128);
    if t < 0 {
      ModUnique(v, WORD, -1, v + WORD);
      DivUnique(v + WORD, Q128, t + Q128);
      assert (t + Q128) % 0x1_00000000 == t + 0x1_00000000;
    } else {
      ModUnique(v, WORD, 0, v);
      assert t % 0x1_00000000 == t;
    }
  }

  /** A wrapped factor may be replaced by its signed value. */
  lemma WrappedProduct(log: int, v: U256, c: int, d: int)
    requires v == Wrap(log)
    ensures Wrap(Wrap(v * c) + d) == Wrap(log * c + d)
  {
    ModMul(log, c, WORD);
    var x := log * c;
    assert x % WORD + d == (x + d) + (-(x / WORD)) * WORD;
    ModAddMultiple(x + d, -(x / WORD), WORD);
  }

  lemma PlacedDigit(d: nat, f: nat, i: nat)
    requires i < DIGITS && f <= 1
    ensures Or(f * Pow2(63 - i), d * Pow2(64 - i)) == (2 * d + f) * Pow2(63 - i)
  {
    hide Or, Pow2;
    assert Pow2(64 - i) == 2 * Pow2(63 - i) by {
      Pow2Add(1, 63 - i);
      OneIsTwo();
    }
    if f == 1 {
      OrDisjoint(Pow2(63 - i), d, 64 - i);
    } else {
      OrDisjoint(0, d, 64 - i);
    }
  }

  lemma OneIsTwo()
    ensures Pow2(1) == 2
  {
  }

  lemma SmallPowers()
    ensures Pow2(0) == 1 && Pow2(14) == 0x4000 && Pow2(50) == 0x4000000000000
    ensures Pow2(64) == 0x1_0000000000000000
  {
    Pow2Square(1, 2);
    Pow2Square(2, 4);
    Pow2Square(4, 16);
    assert Pow2(3) == 8;
    Pow2Add(4, 3);
    Pow2Square(7, 128);
    Pow2Add(8, 3);
    Pow2Square(4, 16);
    Pow2Add(14, 11);
    Pow2Square(25, 0x2000000);
    Pow2Add(50, 14);
  }

  /** The exponent, shifted and wrapped, with the digits or-ed in, is the wrapped logarithm. */
  lemma JoinDigits(e: int, d: nat)
    requires -64 <= e < 64 && d < 0x4000
    ensures Or(d * 0x4000000000000, Wrap(Wrap(e) * 0x1_0000000000000000))
         == Wrap((e * 0x4000 + d) * 0x4000000000000)
  {
    SmallPowers();
    hide Or, Pow2, Wrap;
    var h, k := WrappedExponent(e);
    OrDisjoint(d * 0x4000000000000, k, 64);
    WrappedSum(h, d * 0x4000000000000, k);
    assert h + d * 0x4000000000000 == (e * 0x4000 + d) * 0x4000000000000;
  }

  lemma WrappedExponent(e: int) returns (h: int, k: nat)
    requires -64 <= e < 64
    ensures h == e * 0x1_0000000000000000
    ensures Wrap(Wrap(e) * 0x1_0000000000000000) == k * 0x1_0000000000000000
    ensures k * 0x1_0000000000000000 == Wrap(h) && k < WORD / 0x1_0000000000000000
  {
    h := e * 0x1_0000000000000000;
    ModMul(e, 0x1_0000000000000000, WORD);
    if e < 0 {
      k := e + WORD / 0x1_0000000000000000;
      ModUnique(h, WORD, -1, h + WORD);
    } else {
      k := e;
      ModUnique(h, WORD, 0, h);
    }
  }

  lemma WrappedSum(h: int, x: nat, k: nat)
    requires x < 0x1_0000000000000000 && k * 0x1_0000000000000000 == Wrap(h)
    requires k < WORD / 0x1_0000000000000000
    ensures x + k * 0x1_0000000000000000 == Wrap(h + x)
  {
    var q := h / WORD;
    ModUnique(h + x, WORD, q, x + k * 0x1_0000000000000000);
  }

  /** The top digit of a square, and the shift by 127 + f, on words. */
  lemma SquareDigit(r: nat)
    requires TOP <= r < 2 * TOP
    ensures Wrap(r * r) == r * r && r * r / Q255 == TopBit(r)
  {
    MulStrict(r, 2 * TOP, r);
    MulStrict(r, 2 * TOP, 2 * TOP);
    ModUnique(r * r, WORD, 0, r * r);
    DivUnique(r * r, Q255, TopBit(r));
  }

  lemma NextExponent(e: int, d: nat, f: nat, i: nat)
    requires d < Pow2(i) && f <= 1
    ensures 2 * (e * Pow2(i) + d) + f == e * Pow2(i + 1) + (2 * d + f)
    ensures 2 * d + f < Pow2(i + 1)
  {
    var p := Pow2(i);
    assert Pow2(i + 1) == 2 * p;
    assert e * (2 * p) == 2 * (e * p);
  }

  /** The fourteen squarings: each digit placed below the last. */
  method FourteenDigits(r0: nat, ghost e: int) returns (decimals: nat, ghost d: nat)
    requires TOP <= r0 < 2 * TOP
    ensures decimals == d * Pow2(50) && d < Pow2(14)
    ensures LogDigits(r0, e, DIGITS) == e * Pow2(14) + d
  {
    SmallPowers();
    hide Or, NextMantissa, TopBit, Wrap, Pow2, LogDigits;
    var r := r0;
    decimals, d := 0, 0;
    assert e * Pow2(0) + d == e;
    for i := 0 to DIGITS
      invariant TOP <= r < 2 * TOP && d < Pow2(i)
      invariant decimals == d * Pow2(64 - i)
      invariant LogDigits(r, e * Pow2(i) + d, DIGITS - i) == LogDigits(r0, e, DIGITS)
    {
      NextInRange(r);
      SquareDigit(r);
      TopBitIsDigit(r);
      ghost var n := e * Pow2(i) + d;
      UnfoldDigits(r, n, DIGITS - i);
      var square := Wrap(r * r);
      var f: nat := square / Q255;
      NextExponent(e, d, f, i);
      PlacedDigit(d, f, i);
      UnfoldMantissa(r, f);
      var next := square / Pow2(127 + f);
      decimals := Or(f * Pow2(63 - i), decimals);
      r := next;
      d := 2 * d + f;
    }
    NoDigits(r, e * Pow2(14) + d);
  }

  lemma LeadingDigits(price: U160)
    requires 0x1_00000000 <= price
    ensures 32 <= MostSignificantBit(price) < 160 && TOP <= Leading(price) < 2 * TOP
  {
    ShiftAtLeast(price);
    LeadingRange(price);
  }

  method LogDigitsOf(price: U160) returns (log2: U256)
    requires 0x1_00000000 <= price
    ensures log2 == Wrap(Log2Floor(price) * 0x4000000000000)
  {
    hide MostSignificantBit, Leading, Wrap, Pow2, LogDigits;
    LeadingDigits(price);
    var msb: int := MostSignificantBit(price);
    var decimals, d := FourteenDigits(Leading(price), msb - 96);
    log2 := WithExponent(msb - 96, decimals, d);
  }

  method WithExponent(e: int, decimals: nat, ghost d: nat) returns (log2: U256)
    requires -64 <= e < 64 && decimals == d * Pow2(50) && d < Pow2(14)
    ensures log2 == Wrap((e * Pow2(14) + d) * 0x4000000000000)
  {
    SmallPowers();
    hide Or, Wrap, Pow2;
    JoinDigits(e, d);
    log2 := Or(decimals, Wrap(Wrap(e) * 0x1_0000000000000000));
  }

  lemma NoDigits(r: nat, n: int)
    ensures LogDigits(r, n, 0) == n
  {
  }

  lemma UnfoldMantissa(r: nat, f: int)
    requires f == TopBit(r)
    ensures NextMantissa(r) == r * r / Pow2(127 + f)
  {
  }

  lemma TopBitIsDigit(r: nat)
    ensures 0 <= TopBit(r) <= 1
  {
  }

  /** `sqrt_ratio - MIN > MAX - MIN - 1` on wrapping 160-bit words is the range test. */
  lemma WrappingRangeTest(price: U160)
    ensures (price - MIN_SQRT_RATIO) % Q160 > MAX_SQRT_RATIO - MIN_SQRT_RATIO - 1
       <==> price < MIN_SQRT_RATIO || MAX_SQRT_RATIO <= price
  {
  }

  /** Both candidates from the low limbs of wrapping sums are the signed quotients. */
  method Candidates(price: U160) returns (tickLow: int, tickHigh: int)
    requires 0x1_00000000 <= price
    ensures tickLow == TickLow(Log2Floor(price)) && tickHigh == TickHigh(Log2Floor(price))
  {
    hide Log2Floor, LimbAsI32;
    var log2 := LogDigitsOf(price);
    ghost var log := Log2Floor(price);
    LogRange(price);
    CandidateRange(log);
    WrappedProduct(log * 0x4000000000000, log2, LOG_BASE, -LOW_MARGIN);
    WrappedProduct(log * 0x4000000000000, log2, LOG_BASE, HIGH_MARGIN);
    LimbOfShifted(log * 0x4000000000000 * LOG_BASE - LOW_MARGIN, TickLow(log));
    LimbOfShifted(log * 0x4000000000000 * LOG_BASE + HIGH_MARGIN, TickHigh(log));
    hide Wrap;
    var logSqrt := Wrap(log2 * LOG_BASE);
    tickLow := LimbAsI32(Wrap(logSqrt - LOW_MARGIN) / Q128);
    tickHigh := LimbAsI32(Wrap(logSqrt + HIGH_MARGIN) / Q128);
  }

  method GetTickAtSqrtRatio(price: U160) returns (r: Result<int>)
    ensures r == TickAtSqrtRatio(price)
  {
    WrappingRangeTest(price);
    if (price - MIN_SQRT_RATIO) % Q160 > MAX_SQRT_RATIO - MIN_SQRT_RATIO - 1 {
      return Failure("Invalid sqrt price");
    }
    hide Log2Floor, SqrtRatioAtTick, TickLow, TickHigh;
    var tickLow, tickHigh := Candidates(price);
    if tickLow == tickHigh {
      return Success(tickLow);
    }
    var ratio := GetSqrtRatioAtTick(tickHigh);
    if ratio.Failure? {
      return Failure(ratio.error);
    }
    return Success(if ratio.value > price then tickHigh - 1 else tickHigh);
  }
}

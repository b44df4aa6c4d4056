// src/v2/fetcher.rs: a volatile pool's fee, read as reported or solved from the pool's own quotes
// (src/v2/pool.rs: the constant-product quote).
module V2Fee {
  import opened Results
  import opened Arith
  import opened Words

  const FEE_BASIS: int := 1_000_000
  const GET_FEE_MAX: int := 10_000
  const REVERSE_FEE_MAX: int := 5_000
  const GET_FEE_MULTIPLIER: int := 100
  const MAX_SANE_FEE: int := 100_000

  type U112 = x: int | 0 <= x < 0x1_0000000000000000000000000000

  /** The constant-product branch of `calculate_output_0_to_1`. */
  function Quote(reserve0: U256, reserve1: U256, fee: U256, amountIn: U256): Result<U256> {
    if amountIn == 0 then Failure("Input amount cannot be zero")
    else if reserve0 == 0 || reserve1 == 0 then Failure("Pool reserves are invalid")
    else
      var withFee := SaturatingMul(amountIn, Wrap(FEE_BASIS - fee));
      var numerator := Wrap(withFee * reserve1);
      var denominator := Wrap(Wrap(reserve0 * FEE_BASIS) + withFee);
      if denominator == 0 then Failure("panic: division by zero")
      else
        DivRange(numerator, denominator);
        var output: U256 := numerator / denominator;
        if output >= reserve1 then Failure("Insufficient liquidity for swap") else Success(output)
  }

  /** The `solve` closure: the fee that explains one quote. */
  function Solve(reserve0: U256, reserve1: U256, amountIn: U256, output: U256): Result<Option<U256>> {
    if amountIn == 0 || output == 0 || output >= reserve1 then Success(None)
    else
      var denominator := Wrap(amountIn * (reserve1 - output));
      if denominator == 0 then Failure("panic: division by zero")
      else
        var numerator := Wrap(Wrap(Wrap(output * reserve0) * FEE_BASIS) + denominator / 2);
        DivRange(numerator, denominator);
        var oneMinusFee := numerator / denominator;
        Success(if oneMinusFee <= FEE_BASIS then Some(FEE_BASIS - oneMinusFee) else None)
  }

  function Probes(reserve0: U256): (U256, U256) {
    (reserve0 / 2, Wrap(reserve0 * 4))
  }

  /** `calibrate_v2_fee` on the two quotes: they must agree on a fee that can be believed. */
  function Calibrate(reserve0: U256, reserve1: U256, lowQuote: U256, highQuote: U256): Result<Option<U256>> {
    if reserve0 == 0 || reserve1 == 0 then Success(None)
    else
      var low :- Solve(reserve0, reserve1, Probes(reserve0).0, lowQuote);
      if low.None? then Success(None)
      else
        var high :- Solve(reserve0, reserve1, Probes(reserve0).1, highQuote);
        if high.None? || low != high || low.value == 0 || low.value > MAX_SANE_FEE then Success(None) else Success(low)
  }

  // ---- The quote is a floor, and its remainder says how well it can be inverted ----

  /** With nothing wrapping, a quote is the floored quotient of exact products, and below the reserve. */
  lemma QuoteIsFloor(r0: U112, r1: U112, fee: U256, ain: U256)
    requires 0 < r0 && 0 < r1 && fee < FEE_BASIS && 0 < ain <= 4 * 0x1_0000000000000000000000000000
    ensures var x := ain * (FEE_BASIS - fee);
            0 < r0 * FEE_BASIS + x && 0 <= x * r1 / (r0 * FEE_BASIS + x) < r1
            && Quote(r0, r1, fee, ain) == Success(x * r1 / (r0 * FEE_BASIS + x))
  {
    var w := FEE_BASIS - fee;
    var x := ain * w;
    MulBounds(ain, w, 4 * 0x1_0000000000000000000000000000, FEE_BASIS);
    MulBounds(x, r1, 4_000_000 * 0x1_0000000000000000000000000000, 0x1_0000000000000000000000000000);
    MulStrict(0, ain, w);
    SmallWord(w);
    SmallWord(x * r1);
    SmallWord(r0 * FEE_BASIS);
    SmallWord(r0 * FEE_BASIS + x);
    BelowReserve(x, r1, r0 * FEE_BASIS);
    hide Wrap;
  }

  lemma BelowReserve(x: int, r1: int, n: int)
    requires 0 <= x && 0 < r1 && 0 < n
    ensures 0 <= x * r1 / (n + x) < r1
  {
    MulNonneg(x, r1);
    MulStrict(0, n, r1);
    DivRange(x * r1, n + x);
    DivGe(x * r1, n + x, r1);
    assert r1 * (n + x) == n * r1 + x * r1;
  }

  /**
   * The curve inverted: what the truncation of the quote leaves over is the whole error, so the
   * rounded division recovers the factor when that is at most half the divisor.
   */
  lemma Inverts(w: int, ain: int, r1: int, n: int, out: int)
    requires 0 < ain && out < r1 && 0 <= n
    requires var x := ain * w; out * (n + x) <= x * r1 && x * r1 - out * (n + x) <= ain * (r1 - out) / 2
    ensures 0 < ain * (r1 - out) && (out * n + ain * (r1 - out) / 2) / (ain * (r1 - out)) == w
  {
    var x, den := ain * w, ain * (r1 - out);
    MulStrict(0, r1 - out, ain);
    Remainder(w, ain, r1, n, out);
    DivUnique(out * n + den / 2, den, w);
  }

  lemma Remainder(w: int, ain: int, r1: int, n: int, out: int)
    ensures w * (ain * (r1 - out)) - out * n == (ain * w) * r1 - out * (n + ain * w)
  {
    assert w * (ain * (r1 - out)) == (ain * w) * (r1 - out);
    assert (ain * w) * (r1 - out) == (ain * w) * r1 - (ain * w) * out;
    assert out * (n + ain * w) == out * n + (ain * w) * out;
  }

  /** A probe large enough against the reserves leaves a remainder of less than half the divisor. */
  lemma RemainderSmall(w: int, ain: int, r1: int, n: int, out: int)
    requires 0 < ain && 0 < w && 0 < n && 0 < r1 && out == (ain * w) * r1 / (n + ain * w)
    requires 2 * ((n + ain * w) * (n + ain * w)) <= ain * (r1 * n)
    ensures 0 <= (ain * w) * r1 - out * (n + ain * w) <= ain * (r1 - out) / 2
  {
    var d := n + ain * w;
    MulStrict(0, w, ain);
    DivBounds((ain * w) * r1, d);
    assert (r1 - out) * d >= r1 * n by {
      assert (r1 - out) * d == r1 * n + (r1 * (ain * w) - out * d);
    }
    TwiceFits(ain, r1 - out, d, r1 * n);
  }

  lemma TwiceFits(ain: int, left: int, d: int, k: int)
    requires 0 < ain && 0 < d && k <= left * d && 2 * (d * d) <= ain * k
    ensures 2 * d <= ain * left
  {
    MulMono(k, left * d, ain);
    assert ain * (left * d) == (ain * left) * d;
    assert 2 * (d * d) == (2 * d) * d;
    MulCancel(2 * d, ain * left, d);
  }

  /** The quote of a probe, and the fee solved from it. */
  predicate Quoted(r0: U256, r1: U256, fee: U256, ain: U256, out: U256) {
    Quote(r0, r1, fee, ain) == Success(out)
  }

  predicate Solved(r0: U256, r1: U256, ain: U256, out: U256, fee: U256) {
    Solve(r0, r1, ain, out) == Success(Some(fee))
  }

  /** One quote of a large enough probe gives the fee back exactly. */
  lemma SolveRecovers(r0: U112, r1: U112, fee: U256, ain: U256)
    requires 0 < r0 && 0 < r1 && fee < FEE_BASIS && 0 < ain <= 4 * 0x1_0000000000000000000000000000
    requires var n, x := r0 * FEE_BASIS, ain * (FEE_BASIS - fee);
             2 * ((n + x) * (n + x)) <= ain * (r1 * n) && n + x <= x * r1
    ensures exists out: U256 :: Quoted(r0, r1, fee, ain, out) && Solved(r0, r1, ain, out, fee)
  {
    var n, w := r0 * FEE_BASIS, FEE_BASIS - fee;
    QuoteIsFloor(r0, r1, fee, ain);
    var out := Recovers(w, ain, r1, n);
    SolveExact(r0, r1, ain, out);
    Reassociates(out, r0, FEE_BASIS);
    hide Quote, Solve;
    assert Quoted(r0, r1, fee, ain, out) && Solved(r0, r1, ain, out, fee);
  }

  lemma Reassociates(a: int, b: int, c: int)
    ensures (a * b) * c == a * (b * c)
  {
  }

  lemma Recovers(w: int, ain: int, r1: int, n: int) returns (out: int)
    requires 0 < ain && 0 < w && 0 < n && 0 < r1
    requires var x := ain * w; 0 < n + x && x * r1 / (n + x) < r1
    requires var x := ain * w; 2 * ((n + x) * (n + x)) <= ain * (r1 * n) && n + x <= x * r1
    ensures out == (ain * w) * r1 / (n + ain * w) && 0 < out < r1
    ensures 0 < ain * (r1 - out) && (out * n + ain * (r1 - out) / 2) / (ain * (r1 - out)) == w
  {
    var x := ain * w;
    out := x * r1 / (n + x);
    DivGe(x * r1, n + x, 1);
    RemainderSmall(w, ain, r1, n, out);
    Inverts(w, ain, r1, n, out);
  }

  lemma SolveExact(r0: U112, r1: U112, ain: U256, out: U256)
    requires 0 < out < r1 && 0 < ain <= 4 * 0x1_0000000000000000000000000000
    ensures var den := ain * (r1 - out);
            && 0 < den
            && var oneMinusFee := ((out * r0) * FEE_BASIS + den / 2) / den;
            && Solve(r0, r1, ain, out) == Success(if oneMinusFee <= FEE_BASIS then Some(FEE_BASIS - oneMinusFee) else None)
  {
    SolveUnwrapped(r0, r1, ain, out);
    hide Wrap;
  }

  lemma SolveUnwrapped(r0: U112, r1: U112, ain: U256, out: U256)
    requires 0 < out < r1 && 0 < ain <= 4 * 0x1_0000000000000000000000000000
    ensures var den := ain * (r1 - out);
            && 0 < den && Wrap(den) == den && Wrap(out * r0) == out * r0
            && Wrap((out * r0) * FEE_BASIS) == (out * r0) * FEE_BASIS
            && Wrap((out * r0) * FEE_BASIS + den / 2) == (out * r0) * FEE_BASIS + den / 2
  {
    var den := ain * (r1 - out);
    MulStrict(0, r1 - out, ain);
    MulBounds(ain, r1 - out, 4 * 0x1_0000000000000000000000000000, 0x1_0000000000000000000000000000);
    MulBounds(out, r0, 0x1_0000000000000000000000000000, 0x1_0000000000000000000000000000);
    SmallWord(den);
    SmallWord(out * r0);
    SmallWord((out * r0) * FEE_BASIS);
    SmallWord((out * r0) * FEE_BASIS + den / 2);
  }

  /** Both probes qualify once the other reserve is at least 12.5 million units. */
  lemma ProbeQualifies(r0: int, ain: int, r1: int, w: int)
    requires 2 <= r0 && 0 < w <= FEE_BASIS && 12_500_000 <= r1
    requires ain == r0 / 2 || ain == 4 * r0
    ensures 0 < ain
    ensures var n, x := r0 * FEE_BASIS, ain * w;
            2 * ((n + x) * (n + x)) <= ain * (r1 * n) && n + x <= x * r1
  {
    var n, x := r0 * FEE_BASIS, ain * w;
    ProbeSquares(r0, ain);
    MulMono(w, FEE_BASIS, ain);
    MulNonneg(ain, w);
    MulBounds(n + x, n + x, (r0 + ain) * FEE_BASIS, (r0 + ain) * FEE_BASIS);
    ScaleUp(r0 + ain, FEE_BASIS, ain, r0, r1);
    MulMono(1, w, ain);
    MulMono(12_500_000, r1, x);
  }

  lemma ScaleUp(sum: int, basis: int, ain: int, r0: int, r1: int)
    requires 0 <= ain && 0 <= r0 && 0 < basis && 4 * (sum * sum) <= 25 * (ain * r0) && 25 * basis <= 2 * r1
    ensures 2 * ((sum * basis) * (sum * basis)) <= ain * (r1 * (r0 * basis))
  {
    var k := basis * (ain * r0);
    MulNonneg(ain, r0);
    MulNonneg(basis, ain * r0);
    MulMono(25 * basis, 2 * r1, k);
    MulMono(4 * (sum * sum), 25 * (ain * r0), basis * basis);
    Regroup(sum, basis, ain, r0, r1);
  }

  lemma Regroup(sum: int, basis: int, ain: int, r0: int, r1: int)
    ensures (4 * (sum * sum)) * (basis * basis) == 4 * ((sum * basis) * (sum * basis))
    ensures (25 * (ain * r0)) * (basis * basis) == (25 * basis) * (basis * (ain * r0))
    ensures (2 * r1) * (basis * (ain * r0)) == 2 * (ain * (r1 * (r0 * basis)))
  {
  }

  lemma ProbeSquares(r0: int, ain: int)
    requires 2 <= r0 && (ain == r0 / 2 || ain == 4 * r0)
    ensures 0 < ain && 4 * ((r0 + ain) * (r0 + ain)) <= 25 * (ain * r0)
  {
    if ain == 4 * r0 {
      assert (r0 + ain) * (r0 + ain) == 25 * (r0 * r0) && ain * r0 == 4 * (r0 * r0);
    } else if r0 == 2 * ain {
      assert (r0 + ain) * (r0 + ain) == 9 * (ain * ain) && ain * r0 == 2 * (ain * ain);
    } else {
      assert r0 == 2 * ain + 1;
      assert (r0 + ain) * (r0 + ain) == 9 * (ain * ain) + 6 * ain + 1 && ain * r0 == 2 * (ain * ain) + ain;
      MulMono(1, ain, ain);
    }
  }

  /**
   * Calibration on the pool's own two quotes gives the pool's fee back exactly, for every fee that
   * can be believed, once the other reserve is at least 12.5 million units; a fee that cannot is refused.
   */
  lemma CalibrationIsExact(r0: U112, r1: U112, fee: U256)
    requires 2 <= r0 && 12_500_000 <= r1 && fee < FEE_BASIS
    ensures exists low: U256, high: U256 ::
              && Quoted(r0, r1, fee, Probes(r0).0, low) && Quoted(r0, r1, fee, Probes(r0).1, high)
              && Calibrate(r0, r1, low, high) == Success(if 0 < fee <= MAX_SANE_FEE then Some(fee) else None)
  {
    hide Quote, Solve, Quoted, Solved, Calibrate;
    SmallWord(r0 * 4);
    ProbeQualifies(r0, r0 / 2, r1, FEE_BASIS - fee);
    SolveRecovers(r0, r1, fee, r0 / 2);
    var low: U256 :| Quoted(r0, r1, fee, r0 / 2, low) && Solved(r0, r1, r0 / 2, low, fee);
    ProbeQualifies(r0, 4 * r0, r1, FEE_BASIS - fee);
    SolveRecovers(r0, r1, fee, 4 * r0);
    var high: U256 :| Quoted(r0, r1, fee, 4 * r0, high) && Solved(r0, r1, 4 * r0, high, fee);
    Calibrates(r0, r1, fee, low, high);
  }

  /** Two probes that agree on a fee calibrate to it, if it can be believed. */
  lemma Calibrates(r0: U256, r1: U256, fee: U256, low: U256, high: U256)
    requires 0 < r0 && 0 < r1
    requires Solved(r0, r1, Probes(r0).0, low, fee) && Solved(r0, r1, Probes(r0).1, high, fee)
    ensures Calibrate(r0, r1, low, high) == Success(if 0 < fee <= MAX_SANE_FEE then Some(fee) else None)
  {
    hide Solve;
  }

  // ---- A fee as reported ----

  function NormaliseReportedFee(raw: U256): U256 {
    if raw > GET_FEE_MAX then raw
    else if raw > REVERSE_FEE_MAX then Wrap(Wrap(GET_FEE_MAX - raw) * GET_FEE_MULTIPLIER)
    else Wrap(raw * GET_FEE_MULTIPLIER)
  }

  /**
   * It never wraps: every reading in the 1e4 basis normalises to at most half of the notional, a
   * complement reads as the fee it complements, and a larger reading is taken as it is.
   */
  lemma NormaliseNeverWraps(raw: U256)
    ensures raw <= GET_FEE_MAX ==> NormaliseReportedFee(raw) <= FEE_BASIS / 2
    ensures raw <= GET_FEE_MAX ==> NormaliseReportedFee(raw) == GET_FEE_MULTIPLIER * Min(raw, GET_FEE_MAX - raw)
    ensures raw > GET_FEE_MAX ==> NormaliseReportedFee(raw) == raw
  {
    SmallWord(Max(GET_FEE_MAX - raw, 0));
    SmallWord(Max(GET_FEE_MAX - raw, 0) * GET_FEE_MULTIPLIER);
    SmallWord(Min(raw, GET_FEE_MAX) * GET_FEE_MULTIPLIER);
    hide Wrap;
  }
}

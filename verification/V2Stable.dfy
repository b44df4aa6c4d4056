// src/v2/pool.rs: the stable-swap curve x^3 y + y^3 x, and its Newton solver.
module V2Stable {
  import opened Results
  import opened Arith
  import opened Words

  const EXP18: int := 1_000_000_000_000_000_000
  const FEE_DENOMINATOR: int := 1_000_000
  const ROUNDS: nat := 255

  /** A stable pool; `decimals` are the powers of ten of the two tokens. */
  datatype Pool = Pool(decimals0: U256, decimals1: U256, reserve0: U256, reserve1: U256, fee: U256) {
    predicate Valid() {
      0 < decimals0 && 0 < decimals1
    }
  }

  function Plus(a: U256, b: U256): U256 {
    Wrap(a + b)
  }

  function Minus(a: U256, b: U256): U256 {
    Wrap(a - b)
  }

  /** `(a * b) / d` on wrapping words. */
  function MulDivWord(a: U256, b: U256, d: U256): U256
    requires 0 < d
  {
    DivRange(Wrap(a * b), d);
    Wrap(a * b) / d
  }

  /** The curve at two balances in 18 decimals. */
  function Curve(x: U256, y: U256): U256 {
    MulDivWord(MulDivWord(x, y, EXP18), Wrap(MulDivWord(x, x, EXP18) + MulDivWord(y, y, EXP18)), EXP18)
  }

  /** `f`. */
  function F(x0: U256, y: U256): U256 {
    Curve(x0, y)
  }

  /** `d`, the derivative of `f` in `y`. */
  function D(x0: U256, y: U256): U256 {
    Wrap(MulDivWord(Wrap(3 * x0), MulDivWord(y, y, EXP18), EXP18) + MulDivWord(MulDivWord(x0, x0, EXP18), x0, EXP18))
  }

  /** `k`, which rescales its arguments by the tokens' decimals. */
  function K(p: Pool, x: U256, y: U256): U256
    requires p.Valid()
  {
    Curve(MulDivWord(x, EXP18, p.decimals0), MulDivWord(y, EXP18, p.decimals1))
  }

  /** What one round of the solver does: an answer, or the next guess. */
  datatype Round = Done(answer: U256) | Guess(next: U256)

  function NextGuess(p: Pool, x0: U256, xy: U256, y: U256): Result<Round>
    requires p.Valid()
  {
    var k := F(x0, y);
    if D(x0, y) == 0 then Failure("panic: division by zero")
    else if k < xy then
      var dy := MulDivWord(xy - k, EXP18, D(x0, y));
      if dy != 0 then Success(Guess(Plus(y, dy)))
      else if K(p, x0, Plus(y, 1)) > xy then Success(Done(Plus(y, 1)))
      else Success(Guess(Plus(y, 1)))
    else
      var dy := MulDivWord(k - xy, EXP18, D(x0, y));
      if dy != 0 then Success(Guess(Minus(y, dy)))
      else if k == xy || F(x0, Minus(y, 1)) < xy then Success(Done(y))
      else Success(Guess(Minus(y, 1)))
  }

  /** The solver with `rounds` left. */
  function Solve(p: Pool, x0: U256, xy: U256, y: U256, rounds: nat): Result<U256>
    requires p.Valid()
    decreases rounds
  {
    if rounds == 0 then Failure("!y")
    else
      var round :- NextGuess(p, x0, xy, y);
      match round
      case Done(answer) => Success(answer)
      case Guess(next) => Solve(p, x0, xy, next, rounds - 1)
  }

  /** `get_y`, moving `y` round by round. */
  method GetY(p: Pool, x0: U256, xy: U256, y0: U256) returns (r: Result<U256>)
    requires p.Valid()
    ensures r == Solve(p, x0, xy, y0, ROUNDS)
  {
    hide F, D, K, MulDivWord, Plus, Minus;
    var y := y0;
    for i := 0 to ROUNDS
      invariant Solve(p, x0, xy, y, ROUNDS - i) == Solve(p, x0, xy, y0, ROUNDS)
    {
      var k := F(x0, y);
      var slope := D(x0, y);
      if slope == 0 {
        return Failure("panic: division by zero");
      }
      if k < xy {
        var dy := MulDivWord(xy - k, EXP18, slope);
        if dy == 0 {
          if K(p, x0, Plus(y, 1)) > xy {
            return Success(Plus(y, 1));
          }
          dy := 1;
        }
        y := Plus(y, dy);
      } else {
        var dy := MulDivWord(k - xy, EXP18, slope);
        if dy == 0 {
          if k == xy || F(x0, Minus(y, 1)) < xy {
            return Success(y);
          }
          dy := 1;
        }
        y := Minus(y, dy);
      }
    }
    return Failure("!y");
  }

  function NetOfFee(p: Pool, amountIn: U256): U256 {
    SaturatingMul(amountIn, Minus(FEE_DENOMINATOR, p.fee)) / FEE_DENOMINATOR
  }

  /** The amounts `calculate_stable_output` hands to the solver: x0, xy and the first guess. */
  function SolverInputs(p: Pool, amountIn: U256, zeroForOne: bool): (U256, U256, U256)
    requires p.Valid()
  {
    var withFee := NetOfFee(p, amountIn);
    var xy := K(p, p.reserve0, p.reserve1);
    var r0 := MulDivWord(p.reserve0, EXP18, p.decimals0);
    var r1 := MulDivWord(p.reserve1, EXP18, p.decimals1);
    var (a, b, decimalsIn) := if zeroForOne then (r0, r1, p.decimals0) else (r1, r0, p.decimals1);
    (Plus(MulDivWord(withFee, EXP18, decimalsIn), a), xy, b)
  }

  function StableOutput(p: Pool, amountIn: U256, zeroForOne: bool): Result<U256>
    requires p.Valid()
  {
    var (x0, xy, b) := SolverInputs(p, amountIn, zeroForOne);
    var y :- Solve(p, x0, xy, b, ROUNDS);
    Success(MulDivWord(Minus(b, y), if zeroForOne then p.decimals1 else p.decimals0, EXP18))
  }

  // ---- What the solver answers ----

  /** Balances for which nothing in the curve overflows a word. */
  const BALANCE_BOUND: int := 0x200000000000000000000000

  /** No product of two balances, scaled down, exceeds this. */
  const PART_BOUND: int := 98079714615416886934934209737619787751

  type Balance = x: int | 0 <= x < 0x200000000000000000000000

  /** 18 decimals: rescaling is the identity, and `k` is `f`. */
  predicate EighteenDecimals(p: Pool) {
    p.decimals0 == EXP18 && p.decimals1 == EXP18
  }

  /** Balances that `k` can scale up without wrapping. */
  predicate Rescalable(x: U256) {
    x * EXP18 < WORD
  }

  lemma RescaleIsIdentity(x: U256)
    requires Rescalable(x)
    ensures MulDivWord(x, EXP18, EXP18) == x
  {
    DivUnique(x * EXP18, EXP18, x);
  }

  /** The answer brackets the target: on the curve or the first step above it. */
  predicate Brackets(x0: U256, xy: U256, y: U256) {
    F(x0, y) >= xy && (F(x0, y) == xy || F(x0, Minus(y, 1)) < xy)
  }

  lemma RoundBrackets(p: Pool, x0: U256, xy: U256, y: U256)
    requires EighteenDecimals(p) && Rescalable(x0)
    requires NextGuess(p, x0, xy, y).Success? && NextGuess(p, x0, xy, y).value.Done?
    requires Rescalable(NextGuess(p, x0, xy, y).value.answer)
    ensures Brackets(x0, xy, NextGuess(p, x0, xy, y).value.answer)
  {
    hide F, D, MulDivWord, Curve, Rescalable;
    var answer := NextGuess(p, x0, xy, y).value.answer;
    if F(x0, y) < xy {
      RescaleIsIdentity(x0);
      RescaleIsIdentity(answer);
      BackOne(y);
      FIsCurve(x0, answer);
    }
  }

  lemma FIsCurve(x: U256, y: U256)
    ensures F(x, y) == Curve(x, y)
  {
  }

  lemma BackOne(y: U256)
    ensures Minus(Plus(y, 1), 1) == y
  {
  }

  lemma {:induction false} SolveBrackets(p: Pool, x0: U256, xy: U256, y: U256, rounds: nat)
    requires EighteenDecimals(p) && Rescalable(x0)
    requires Solve(p, x0, xy, y, rounds).Success? && Rescalable(Solve(p, x0, xy, y, rounds).value)
    ensures Brackets(x0, xy, Solve(p, x0, xy, y, rounds).value)
    decreases rounds
  {
    hide Brackets, NextGuess, Rescalable;
    var round := NextGuess(p, x0, xy, y).value;
    if round.Done? {
      RoundBrackets(p, x0, xy, y);
    } else {
      SolveBrackets(p, x0, xy, round.next, rounds - 1);
    }
  }

  /** A guess on the curve is answered at once. */
  lemma OnCurveAnswers(p: Pool, x0: U256, xy: U256, y: U256, rounds: nat)
    requires p.Valid() && 0 < rounds && F(x0, y) == xy && Solve(p, x0, xy, y, rounds).Success?
    ensures Solve(p, x0, xy, y, rounds).value == y
  {
    hide F, D, K, Plus, Minus;
    NothingDivides(D(x0, y));
  }

  lemma NothingDivides(d: U256)
    requires 0 < d
    ensures MulDivWord(0, EXP18, d) == 0
  {
  }

  // ---- The curve rises with both balances ----

  function ExactMulDiv(a: nat, b: nat): nat {
    MulNonneg(a, b);
    DivRange(a * b, EXP18);
    a * b / EXP18
  }

  function ExactCurve(x: nat, y: nat): nat {
    ExactMulDiv(ExactMulDiv(x, y), ExactMulDiv(x, x) + ExactMulDiv(y, y))
  }

  lemma ExactMulDivRange(a: nat, b: nat, m: nat, n: nat)
    requires a <= m && b <= n
    ensures ExactMulDiv(a, b) <= m * n / EXP18
  {
    MulMono(a, m, b);
    MulMono(b, n, m);
    DivMono(a * b, m * n, EXP18);
  }

  lemma ExactMulDivMono(a: nat, b: nat, c: nat, d: nat)
    requires a <= c && b <= d
    ensures ExactMulDiv(a, b) <= ExactMulDiv(c, d)
  {
    ExactMulDivRange(a, b, c, d);
  }

  lemma ExactCurveMono(x: nat, y: nat, x1: nat, y1: nat)
    requires x <= x1 && y <= y1
    ensures ExactCurve(x, y) <= ExactCurve(x1, y1)
  {
    ExactMulDivMono(x, y, x1, y1);
    ExactMulDivMono(x, x, x1, x1);
    ExactMulDivMono(y, y, y1, y1);
    hide ExactMulDiv;
    ExactMulDivMono(ExactMulDiv(x, y), ExactMulDiv(x, x) + ExactMulDiv(y, y),
                    ExactMulDiv(x1, y1), ExactMulDiv(x1, x1) + ExactMulDiv(y1, y1));
  }

  lemma ExactCurveSymmetric(x: nat, y: nat)
    ensures ExactCurve(x, y) == ExactCurve(y, x)
  {
    assert x * y == y * x;
  }

  lemma Unwrapped(a: U256, b: U256)
    requires a * b < WORD
    ensures MulDivWord(a, b, EXP18) == ExactMulDiv(a, b)
  {
    MulNonneg(a, b);
  }

  lemma PartIsExact(x: Balance, y: Balance)
    ensures ExactMulDiv(x, y) <= PART_BOUND && MulDivWord(x, y, EXP18) == ExactMulDiv(x, y)
  {
    ExactMulDivRange(x, y, BALANCE_BOUND, BALANCE_BOUND);
    Fits(x, y);
    Unwrapped(x, y);
    hide ExactMulDiv, MulDivWord;
  }

  lemma PartsFit(a: int, b: int)
    requires 0 <= a <= PART_BOUND && 0 <= b <= 2 * PART_BOUND
    ensures 0 <= a * b < WORD
  {
    MulBounds(a, b, PART_BOUND, 2 * PART_BOUND);
  }

  predicate Curved(x: U256, y: U256, k: U256) {
    Curve(x, y) == k
  }

  /** Below 2^93 no product of the curve overflows. */
  lemma CurveIsExact(x: Balance, y: Balance)
    ensures exists k: U256 :: Curved(x, y, k) && k == ExactCurve(x, y)
  {
    assert Curved(x, y, Curve(x, y));
    PartIsExact(x, y);
    PartIsExact(x, x);
    PartIsExact(y, y);
    hide ExactMulDiv, MulDivWord;
    var a, b := ExactMulDiv(x, y), ExactMulDiv(x, x) + ExactMulDiv(y, y);
    PartsFit(a, b);
    SmallWord(b);
    Unwrapped(a, b);
    hide Wrap;
  }

  lemma Fits(x: Balance, y: Balance)
    ensures x * y < WORD
  {
    MulMono(x, BALANCE_BOUND, y);
  }

  // ---- The solver never leaves the balances the curve is exact on ----

  lemma CubeSlack(x: int, e: int)
    requires 8 <= e <= x
    ensures 4 * (e * x) + 4 * (e * e) <= x * x * x
  {
    MulMono(e, x, x);
    MulMono(e, x, e);
    MulMono(8, x, x * x);
    assert x * (x * x) == x * x * x;
  }

  lemma Lowered(a: int, b: int, e: int, c: int)
    requires a - e <= b && 0 <= c
    ensures a * c - e * c <= b * c
  {
    MulMono(a - e, b, c);
  }

  lemma Swapped(a: int, b: int, c: int)
    ensures (a * b) * c == (a * c) * b
  {
  }

  /** The slope's constant part alone: four times it is at least x^3 / e^2. */
  lemma SlopeAtLeast(x: int, e: int, p: int, s: int)
    requires 8 <= e <= x && p == x * x / e && s == p * x / e
    ensures x * x * x <= 4 * ((s * e) * e)
  {
    DivBounds(x * x, e);
    DivBounds(p * x, e);
    Lowered(x * x, p * e, e, x);
    Swapped(p, e, x);
    Lowered(p * x, s * e, e, e);
    CubeSlack(x, e);
  }

  /** A downward step does not pass zero: far below one token, where the slope is constant. */
  lemma StepDownLow(x: int, y: int, e: int, p: int, d: int, k: int, dy: int)
    requires 0 < e && 0 <= y < d && dy * d <= k * e
    requires (k * e) * e <= y * (p * x) && p * x - e <= d * e
    ensures dy <= y
  {
    Lowered(p * x, d * e, e, y);
    Swapped(d, e, y);
    assert (d * y + y) * e == (d * y) * e + e * y;
    assert y * (p * x) == (p * x) * y;
    MulCancel(k * e, d * y + y, e);
    assert (y + 1) * d == d * y + d;
    MulCancelStrict(dy, y + 1, d);
  }

  /** Above that, where the slope's second part (v) outweighs its truncation. */
  lemma StepDownHigh(y: int, e: int, u: int, v: int, d: int, k: int, dy: int)
    requires 0 < e <= v && 0 <= y && 0 < d && dy * d <= k * e
    requires (k * e) * e <= y * u + y * v && 3 * v + u - 2 * e <= d * e
    ensures dy <= y
  {
    MulMono(u + v, d * e, y);
    Swapped(d, e, y);
    assert (u + v) * y == y * u + y * v;
    MulCancel(k * e, d * y, e);
    MulCancel(dy, y, d);
  }

  function ExactSlope(x: nat, y: nat): nat {
    ExactMulDiv(3 * x, ExactMulDiv(y, y)) + ExactMulDiv(ExactMulDiv(x, x), x)
  }

  lemma ExactMulDivBounds(a: nat, b: nat)
    ensures ExactMulDiv(a, b) * EXP18 <= a * b < ExactMulDiv(a, b) * EXP18 + EXP18
  {
    DivBounds(a * b, EXP18);
  }

  predicate Slopes(x: U256, y: U256, d: U256) {
    D(x, y) == d
  }

  lemma SlopeIsExact(x: Balance, y: Balance)
    ensures exists d: U256 :: Slopes(x, y, d) && d == ExactSlope(x, y)
  {
    assert Slopes(x, y, D(x, y));
    PartIsExact(x, x);
    PartIsExact(y, y);
    hide ExactMulDiv, MulDivWord;
    var p, q := ExactMulDiv(x, x), ExactMulDiv(y, y);
    SlopeFits(x, p, q);
    Unwrapped(3 * x, q);
    Unwrapped(p, x);
    PartOfSlope(3 * x, q);
    PartOfSlope(p, x);
    SmallWord(3 * x);
    SmallWord(ExactMulDiv(3 * x, q) + ExactMulDiv(p, x));
    hide Wrap;
  }

  lemma SlopeFits(x: Balance, p: int, q: int)
    requires 0 <= p <= PART_BOUND && 0 <= q <= PART_BOUND
    ensures 0 <= (3 * x) * q < WORD / 2 && 0 <= p * x < WORD / 2
  {
    MulBounds(3 * x, q, 3 * BALANCE_BOUND, PART_BOUND);
    MulBounds(p, x, PART_BOUND, BALANCE_BOUND);
  }

  lemma PartOfSlope(a: nat, b: nat)
    ensures ExactMulDiv(a, b) <= a * b
  {
    MulNonneg(a, b);
    DivRange(a * b, EXP18);
  }

  /** The curve, scaled up again, is below the exact products it was truncated from. */
  lemma CurveScaled(x: nat, y: nat)
    ensures var p, q := ExactMulDiv(x, x), ExactMulDiv(y, y);
            (ExactCurve(x, y) * EXP18) * EXP18 <= (x * y) * (p + q)
  {
    var p, q, a := ExactMulDiv(x, x), ExactMulDiv(y, y), ExactMulDiv(x, y);
    ExactMulDivBounds(x, y);
    ExactMulDivBounds(a, p + q);
    hide ExactMulDiv;
    MulMono(ExactCurve(x, y) * EXP18, a * (p + q), EXP18);
    Swapped(a, p + q, EXP18);
    MulMono(a * EXP18, x * y, p + q);
  }

  lemma CurveFitsScaled(x: Balance, y: Balance)
    ensures ExactCurve(x, y) * EXP18 < WORD
  {
    PartIsExact(x, y);
    PartIsExact(x, x);
    PartIsExact(y, y);
    hide ExactMulDiv, MulDivWord;
    var a, b := ExactMulDiv(x, y), ExactMulDiv(x, x) + ExactMulDiv(y, y);
    PartsFit(a, b);
    ExactMulDivBounds(a, b);
  }

  lemma StepOf(diff: nat, d: U256, dy: U256)
    requires diff * EXP18 < WORD && 0 < d && diff < WORD && dy == MulDivWord(diff, EXP18, d)
    ensures dy * d <= diff * EXP18
  {
    MulNonneg(diff, EXP18);
    SmallWord(diff * EXP18);
    hide Wrap;
    DivBounds(diff * EXP18, d);
  }

  // ---- When the slope is zero ----

  /** Below a millionth of a token on the paying side, and with the other's part truncated away. */
  predicate FlatAt(x: Balance, y: Balance) {
    x < 1_000_000_000_000 && (3 * x) * ExactMulDiv(y, y) < EXP18
  }

  /** The paying side's own part of the slope is zero exactly below a millionth of a token. */
  lemma OwnPart(x: Balance)
    ensures ExactMulDiv(ExactMulDiv(x, x), x) == 0 <==> x < 1_000_000_000_000
  {
    var p := ExactMulDiv(x, x);
    ExactMulDivBounds(x, x);
    ExactMulDivBounds(p, x);
    hide ExactMulDiv;
    if x < 1_000_000_000_000 {
      MulBounds(x, x, 999_999_999_999, 999_999_999_999);
      MulBounds(p, x, 999_999, 999_999_999_999);
    } else {
      MulMono(1_000_000_000_000, x, x);
      MulMono(1_000_000_000_000, x, p);
    }
  }

  /** The slope at two balances is zero exactly there. */
  lemma SlopeIsZero(x: Balance, y: Balance)
    ensures exists d: U256 :: Slopes(x, y, d) && (d == 0 <==> FlatAt(x, y))
  {
    SlopeIsExact(x, y);
    OwnPart(x);
    ExactMulDivBounds(3 * x, ExactMulDiv(y, y));
    hide D, ExactMulDiv;
    assert Slopes(x, y, D(x, y));
  }

  lemma SlopePositive(x: Balance, y: Balance)
    requires 1_000_000_000_000 <= x
    ensures D(x, y) == ExactSlope(x, y) > 0
  {
    SlopeIsExact(x, y);
    SlopeIsZero(x, y);
    hide D, ExactSlope;
  }

  /** From a millionth of a token on, the paying side's own part keeps the slope positive at any word, wrapped or not. */
  lemma SlopeOfAnyWord(x: Balance, y: U256)
    requires 1_000_000_000_000 <= x
    ensures exists d: U256 :: Slopes(x, y, d) && 0 < d
  {
    var part := MulDivWord(Wrap(3 * x), MulDivWord(y, y, EXP18), EXP18);
    var own := MulDivWord(MulDivWord(x, x, EXP18), x, EXP18);
    OwnPart(x);
    OwnIsExact(x);
    PartIsSmall(Wrap(3 * x), MulDivWord(y, y, EXP18));
    PartIsSmall(MulDivWord(x, x, EXP18), x);
    SmallWord(part + own);
    assert Slopes(x, y, D(x, y));
    hide MulDivWord, Wrap, ExactMulDiv;
  }

  predicate OwnSlope(x: U256, v: U256) {
    MulDivWord(MulDivWord(x, x, EXP18), x, EXP18) == v
  }

  lemma OwnIsExact(x: Balance)
    ensures exists v: U256 :: OwnSlope(x, v) && v == ExactMulDiv(ExactMulDiv(x, x), x)
  {
    assert OwnSlope(x, MulDivWord(MulDivWord(x, x, EXP18), x, EXP18));
    PartIsExact(x, x);
    hide ExactMulDiv, MulDivWord;
    SlopeFits(x, 0, ExactMulDiv(x, x));
    MulBounds(ExactMulDiv(x, x), x, PART_BOUND, BALANCE_BOUND);
    Unwrapped(ExactMulDiv(x, x), x);
  }

  lemma PartIsSmall(a: U256, b: U256)
    ensures 2 * MulDivWord(a, b, EXP18) < WORD
  {
    var n := Wrap(a * b);
    hide Wrap;
    DivBounds(n, EXP18);
  }

  /** So no guess whatever divides by zero exactly from a millionth of a token on. */
  lemma NeverFlat(x: Balance)
    ensures (forall y: U256, d: U256 :: Slopes(x, y, d) ==> 0 < d) <==> 1_000_000_000_000 <= x
  {
    hide D, MulDivWord, Wrap;
    if 1_000_000_000_000 <= x {
      forall y: U256, d: U256 | Slopes(x, y, d) ensures 0 < d {
        SlopeOfAnyWord(x, y);
      }
    } else {
      SlopeIsZero(x, 0);
      NothingSquared(x);
    }
  }

  lemma NothingSquared(x: nat)
    ensures (3 * x) * ExactMulDiv(0, 0) == 0
  {
    assert (3 * x) * 0 == 0;
  }

  // ---- A step up only repairs what the step down before it truncated ----

  /**
   * How far above the starting guess a step up may end: a millionth of a token with a whole token on
   * the paying side; with less, where the slope truncates worse, a 256th of the bound on balances.
   */
  function Slack(x: Balance): int {
    if EXP18 <= x then 0x10000000000 else 0x2000000000000000000000
  }

  /**
   * A hundred-thousandth of a token on the paying side, a starting guess short of the bound by the
   * slack, and below a whole token a curve that is not zero.
   */
  predicate Room(x: Balance, b: Balance, target: nat) {
    10_000_000_000_000 <= x && b + Slack(x) < BALANCE_BOUND && (EXP18 <= x || 0 < target)
  }

  /** Short of the target by no more than a step of the slack makes up. */
  predicate Near(x: Balance, target: nat, y: Balance) {
    ExactCurve(x, y) >= target || (target - ExactCurve(x, y)) * EXP18 <= Slack(x) * ExactSlope(x, y)
  }

  lemma ExactSlopeMono(x: nat, y: nat, y1: nat)
    requires y <= y1
    ensures ExactSlope(x, y) <= ExactSlope(x, y1)
  {
    ExactMulDivMono(y, y, y1, y1);
    ExactMulDivMono(3 * x, ExactMulDiv(y, y), 3 * x, ExactMulDiv(y1, y1));
    hide ExactMulDiv;
  }

  lemma NearUp(x: Balance, target: nat, y: Balance, t: nat)
    requires y + t < BALANCE_BOUND && Near(x, target, y)
    ensures Near(x, target, y + t)
  {
    var y1 := y + t;
    ExactCurveMono(x, y, x, y1);
    ExactSlopeMono(x, y, y1);
    hide ExactCurve, ExactSlope;
    if ExactCurve(x, y1) < target {
      MulMono(target - ExactCurve(x, y1), target - ExactCurve(x, y), EXP18);
      MulMono(ExactSlope(x, y), ExactSlope(x, y1), Slack(x));
    }
  }

  /** The step up from a guess below the target: from below the start, and by no more than the slack. */
  lemma UpFits(x: Balance, a: Balance, b: Balance, y: Balance, dy: U256)
    requires a <= x && ExactCurve(x, y) < ExactCurve(a, b) && Near(x, ExactCurve(a, b), y) && 0 < ExactSlope(x, y)
    requires dy * ExactSlope(x, y) <= (ExactCurve(a, b) - ExactCurve(x, y)) * EXP18
    ensures y < b && dy <= Slack(x)
  {
    if b <= y {
      ExactCurveMono(a, b, x, y);
    }
    hide ExactCurve, ExactSlope;
    MulCancel(dy, Slack(x), ExactSlope(x, y));
  }

  /** What truncation takes off the curve, at most. */
  lemma CurveAtLeast(x: nat, y: nat)
    ensures (x * y) * (x * x + y * y)
         <= ExactCurve(x, y) * EXP18 * (EXP18 * EXP18) + EXP18 * ((x + y) * (x + y)) + EXP18 * (EXP18 * EXP18)
  {
    var p, q, k := ExactMulDiv(x, x), ExactMulDiv(y, y), ExactCurve(x, y);
    var a := ExactMulDiv(x, y);
    ExactMulDivBounds(x, x);
    ExactMulDivBounds(y, y);
    ExactMulDivBounds(x, y);
    ExactMulDivBounds(a, p + q);
    hide ExactMulDiv, ExactCurve;
    MulNonneg(x, y);
    MulNonneg(x, x);
    MulNonneg(y, y);
    ProductShort(a * EXP18, (p + q) * EXP18, x * y, x * x + y * y, EXP18);
    CubeScaled(k, a, p + q, EXP18);
    Binomial(x, y, EXP18);
  }

  lemma ProductShort(u: int, v: int, a: int, b: int, e: int)
    requires 0 <= u <= a <= u + e && v <= b <= v + 2 * e && 0 <= b
    ensures a * b <= u * v + e * b + 2 * (e * a)
  {
    MulMono(a - u, e, b);
    MulMono(b - v, 2 * e, u);
    MulMono(u, a, e);
    assert a * b == u * b + (a - u) * b && u * b == u * v + u * (b - v);
    assert (2 * e) * u == 2 * (u * e) && u * e == e * u && a * e == e * a && u * (b - v) == (b - v) * u;
  }

  lemma CubeScaled(k: int, a: int, s: int, e: int)
    requires 0 <= e && a * s <= k * e + e
    ensures (a * e) * (s * e) <= k * e * (e * e) + e * (e * e)
  {
    MulNonneg(e, e);
    MulMono(a * s, k * e + e, e * e);
    assert (a * e) * (s * e) == (a * s) * (e * e);
    assert (k * e + e) * (e * e) == k * e * (e * e) + e * (e * e);
  }

  lemma Binomial(x: int, y: int, e: int)
    ensures e * (x * x + y * y) + 2 * (e * (x * y)) == e * ((x + y) * (x + y))
  {
    assert (x + y) * (x + y) == x * x + y * y + 2 * (x * y);
    assert e * (x * x + y * y + 2 * (x * y)) == e * (x * x + y * y) + 2 * (e * (x * y));
  }

  /** The curve's derivative, unscaled. */
  function Rise(x: nat, y: nat): int {
    x * (x * x) + 3 * (x * (y * y))
  }

  /** What truncation takes off the slope, at most. */
  lemma SlopeAtLeastRise(x: nat, y: nat)
    ensures Rise(x, y) - 4 * (EXP18 * x) - 2 * (EXP18 * EXP18) <= ExactSlope(x, y) * (EXP18 * EXP18)
  {
    var p, q, d := ExactMulDiv(x, x), ExactMulDiv(y, y), ExactSlope(x, y);
    SlopeParts(x, y);
    ExactMulDivBounds(x, x);
    ExactMulDivBounds(y, y);
    hide ExactMulDiv, ExactSlope;
    assert p * x == x * p;
    SlopeScaled(x, x * x, y * y, p, q, d, EXP18);
  }

  lemma SlopeScaled(x: int, xx: int, yy: int, p: int, q: int, d: int, e: int)
    requires 0 <= x && 0 < e && xx - e <= p * e && yy - e <= q * e && 3 * (x * q) + x * p - 2 * e <= d * e
    ensures x * xx + 3 * (x * yy) - 4 * (e * x) - 2 * (e * e) <= d * (e * e)
  {
    PartScaled(x, xx, p, e);
    PartScaled(x, yy, q, e);
    SumScaled(x * q, x * p, d, e);
  }

  lemma SumScaled(a: int, b: int, d: int, e: int)
    requires 0 < e && 3 * a + b - 2 * e <= d * e
    ensures 3 * (a * e) + b * e - 2 * (e * e) <= d * (e * e)
  {
    MulMono(3 * a + b - 2 * e, d * e, e);
    assert (3 * a + b - 2 * e) * e == 3 * (a * e) + b * e - 2 * (e * e);
    assert (d * e) * e == d * (e * e);
  }

  lemma PartScaled(x: int, square: int, p: int, e: int)
    requires 0 <= x && square - e <= p * e
    ensures x * square - e * x <= (x * p) * e
  {
    MulMono(square - e, p * e, x);
    assert (square - e) * x == x * square - e * x;
    assert (p * e) * x == (x * p) * e;
  }

  /** The curve lies above its tangents: stepping down by t loses at most t times the derivative. */
  lemma Convex(x: nat, y: nat, t: nat)
    requires t <= y
    ensures (x * y) * (x * x + y * y) <= (x * (y - t)) * (x * x + (y - t) * (y - t)) + t * Rise(x, y)
  {
    var z := y - t;
    Cubes(z, t);
    Unfold(x, y);
    Unfold(x, z);
    UnfoldRise(x, y, t);
    SumTimes(z, t, x * (x * x));
    MulMono(y * (y * y), z * (z * z) + 3 * (t * (y * y)), x);
    hide Rise;
    SumTimes(z * (z * z), 3 * (t * (y * y)), x);
  }

  lemma Unfold(x: int, y: int)
    ensures (x * y) * (x * x + y * y) == y * (x * (x * x)) + (y * (y * y)) * x
  {
    var xx, yy := x * x, y * y;
    assert (x * y) * (xx + yy) == (x * y) * xx + (x * y) * yy;
    assert (x * y) * xx == y * (x * xx);
    assert (x * y) * yy == (y * yy) * x;
  }

  lemma UnfoldRise(x: nat, y: nat, t: nat)
    ensures t * Rise(x, y) == t * (x * (x * x)) + (3 * (t * (y * y))) * x
  {
    var yy, cube := y * y, x * (x * x);
    assert t * (cube + 3 * (x * yy)) == t * cube + t * (3 * (x * yy));
    assert t * (3 * (x * yy)) == 3 * ((t * yy) * x);
    assert (3 * (t * yy)) * x == 3 * ((t * yy) * x);
  }

  lemma SumTimes(a: int, b: int, c: int)
    ensures (a + b) * c == a * c + b * c
  {
  }

  lemma Cubes(z: nat, t: nat)
    ensures var y := z + t; y * (y * y) <= z * (z * z) + 3 * (t * (y * y))
  {
    var y := z + t;
    MulMono(z, y, z);
    MulMono(z, y, y);
    assert y * (y * y) - z * (z * z) == t * (y * y) + t * (y * z) + t * (z * z);
    MulMono(y * z, y * y, t);
    MulMono(z * z, y * y, t);
  }

  /** A whole token outweighs every truncation, a step's worth of them included. */
  lemma SlackEnough(x: int, xx: int, yy: int, e: int, t: int, c: int, square: int)
    requires 16 <= e <= x && 0 <= t && 24 * t <= c * e && 12 <= c
    requires xx == x * x && 0 <= yy && square <= 2 * xx + 2 * yy
    ensures var w := 4 * (e * x) + 2 * (e * e);
            && t * w + e * square + e * (e * e) <= c * (x * xx + 3 * (x * yy) - w)
            && 0 < x * xx + 3 * (x * yy) - w
  {
    var w, cube := 4 * (e * x) + 2 * (e * e), x * xx;
    TokenWeighs(x, xx, e, w);
    StepWeighs(t, e, c, e * x, cube, w);
    SquareWeighs(x, xx, yy, e, square);
    MulNonneg(x, yy);
    Shares(c, cube, x * yy, t * w, e * square + e * (e * e), w);
  }

  lemma TokenWeighs(x: int, xx: int, e: int, w: int)
    requires 16 <= e <= x && xx == x * x && w == 4 * (e * x) + 2 * (e * e)
    ensures e * (e * x) <= x * xx && e * (e * e) <= x * xx
    ensures 0 < w <= 6 * (e * x) && 2 * w <= x * xx && 0 < x * xx
  {
    MulMono(e, x, e);
    MulMono(e, x, x);
    MulMono(e * e, e * x, e);
    MulMono(e * x, xx, e);
    MulMono(e, x, xx);
    MulMono(16, e, e * x);
    MulStrict(0, e, e);
  }

  lemma StepWeighs(t: int, e: int, c: int, ex: int, cube: int, w: int)
    requires 0 <= t && 24 * t <= c * e && 0 <= c && 0 <= ex && w <= 6 * ex && e * ex <= cube
    ensures 4 * (t * w) <= c * cube
  {
    MulMono(w, 6 * ex, t);
    assert (6 * ex) * t == 6 * (t * ex);
    MulMono(24 * t, c * e, ex);
    assert (24 * t) * ex == 24 * (t * ex) && (c * e) * ex == (e * ex) * c;
    MulMono(e * ex, cube, c);
  }

  lemma SquareWeighs(x: int, xx: int, yy: int, e: int, square: int)
    requires 0 <= e <= x && 0 <= xx && 0 <= yy && square <= 2 * xx + 2 * yy && e * (e * e) <= x * xx
    ensures e * square + e * (e * e) <= 3 * (x * xx) + 2 * (x * yy)
  {
    MulMono(square, 2 * xx + 2 * yy, e);
    MulMono(e, x, 2 * xx + 2 * yy);
    assert (2 * xx + 2 * yy) * x == 2 * (x * xx) + 2 * (x * yy);
    assert square * e == e * square;
    assert (2 * xx + 2 * yy) * e == e * (2 * xx + 2 * yy);
  }

  lemma Shares(c: int, cube: int, v: int, step: int, rest: int, w: int)
    requires 12 <= c && 0 < cube && 0 <= v && 4 * step <= c * cube && 2 * w <= cube && rest <= 3 * cube + 2 * v
    ensures step + rest <= c * (cube + 3 * v - w) && 0 < cube + 3 * v - w
  {
    MulMono(cube + 6 * v, 2 * (cube + 3 * v - w), c);
    MulMono(12, c, cube);
    MulMono(12, c, v);
    assert (cube + 6 * v) * c == c * cube + 6 * (v * c);
    assert (2 * (cube + 3 * v - w)) * c == 2 * (c * (cube + 3 * v - w));
    assert cube * c == c * cube && c * v == v * c;
  }

  /** With the bounds on the curve and its slope at both ends of a step down by t. */
  lemma Overshoot(k: int, k1: int, target: int, d: int, d1: int, t: int, e: int, c: int,
                  g: int, g1: int, r: int, r1: int, w: int, lost: int)
    requires 0 < e && 0 <= t && t * d <= (k - target) * e && g <= g1 + t * r
    requires k * e * (e * e) <= g && g1 <= k1 * e * (e * e) + lost && r - w <= d * (e * e)
    requires t * w + lost <= c * (r1 - w) && r1 - w <= d1 * (e * e) && 0 <= c
    ensures (target - k1) * e <= c * d1
  {
    var ee := e * e;
    MulStrict(0, e, e);
    MulMono(t * d, (k - target) * e, ee);
    MulMono(r - w, d * ee, t);
    MulMono(r1 - w, d1 * ee, c);
    assert (t * d) * ee == (d * ee) * t;
    assert ((k - target) * e) * ee == k * e * ee - target * e * ee;
    assert (r - w) * t == t * r - t * w;
    assert (r1 - w) * c == c * (r1 - w);
    assert ((target - k1) * e) * ee == target * e * ee - k1 * e * ee;
    assert (c * d1) * ee == (d1 * ee) * c;
    MulCancel((target - k1) * e, c * d1, ee);
  }

  lemma SquareOfSum(x: int, y: int)
    ensures (x + y) * (x + y) <= 2 * (x * x) + 2 * (y * y)
  {
    assert 0 <= (x - y) * (x - y);
    assert (x + y) * (x + y) + (x - y) * (x - y) == 2 * (x * x) + 2 * (y * y);
  }

  /** A hundred-thousandth of a token, squared and cubed. */
  lemma WideParts(x: Balance, xx: int, cube: int)
    requires 10_000_000_000_000 <= x && xx == x * x && cube == x * xx
    ensures EXP18 * xx <= 100_000 * cube && 100_000_000_000_000_000_000_000_000 * x <= cube
    ensures 1000 * (EXP18 * EXP18) <= cube
  {
    MulMono(10_000_000_000_000, x, x);
    MulMono(100_000_000_000_000_000_000_000_000, xx, x);
    MulMono(10_000_000_000_000, x, xx);
  }

  /** Below a token the slack is a fixed share of the bound on balances, and outweighs the truncations too. */
  lemma WideShares(xx: int, yy: int, cube: int, v: int, w: int, step: int, square: int)
    requires 0 <= yy && square <= 2 * xx + 2 * yy && EXP18 * xx <= 100_000 * cube && EXP18 * yy <= 100_000 * v
    requires 1000 * (EXP18 * EXP18) <= cube && 1000 * w <= 3 * cube && 1000 * step <= 3 * (BALANCE_BOUND * cube)
    ensures step + EXP18 * square + EXP18 * (EXP18 * EXP18) <= 0x2000000000000000000000 * (cube + 3 * v - w)
  {
  }

  lemma WideStep(t: Balance, w: int, cube: int)
    requires 0 <= w && 1000 * w <= 3 * cube
    ensures 1000 * (t * w) <= 3 * (BALANCE_BOUND * cube)
  {
    MulMono(1000 * w, 3 * cube, t);
    assert (1000 * w) * t == 1000 * (t * w);
    MulMono(t, BALANCE_BOUND, 3 * cube);
    assert (3 * cube) * t == t * (3 * cube);
  }

  /** By how much the slack outweighs the truncations of a step down by t, to z. */
  predicate Outweighs(x: Balance, z: nat, t: nat, surplus: int) {
    var w := 4 * (EXP18 * x) + 2 * (EXP18 * EXP18);
    Slack(x) * (Rise(x, z) - w) - t * w - EXP18 * ((x + z) * (x + z)) - EXP18 * (EXP18 * EXP18) == surplus
  }

  lemma SlackOutweighs(x: Balance, z: Balance, t: Balance)
    requires 10_000_000_000_000 <= x
    ensures exists surplus: int :: Outweighs(x, z, t, surplus) && 0 <= surplus
  {
    var w, cube, v := 4 * (EXP18 * x) + 2 * (EXP18 * EXP18), x * (x * x), x * (z * z);
    SquareOfSum(x, z);
    MulNonneg(z, z);
    if EXP18 <= x {
      SlackEnough(x, x * x, z * z, EXP18, t, Slack(x), (x + z) * (x + z));
    } else {
      WideParts(x, x * x, cube);
      WideStep(t, w, cube);
      MulMono(10_000_000_000_000, x, z * z);
      WideShares(x * x, z * z, cube, v, w, t * w, (x + z) * (x + z));
    }
    assert Outweighs(x, z, t, Slack(x) * (cube + 3 * v - w) - t * w - EXP18 * ((x + z) * (x + z)) - EXP18 * (EXP18 * EXP18));
  }

  /** A step down may pass the target, but only by what a step of the slack makes up. */
  lemma NearDown(x: Balance, target: nat, y: Balance, t: nat)
    requires 10_000_000_000_000 <= x && t <= y && target <= ExactCurve(x, y)
    requires t * ExactSlope(x, y) <= (ExactCurve(x, y) - target) * EXP18
    ensures Near(x, target, y - t)
  {
    var z := y - t;
    TargetScaled(x, y);
    CurveAtLeast(x, z);
    SlopeAtLeastRise(x, y);
    SlopeAtLeastRise(x, z);
    Convex(x, y, t);
    SlackOutweighs(x, z, t);
    hide ExactCurve, ExactSlope, Slack, Rise;
    var w := 4 * (EXP18 * x) + 2 * (EXP18 * EXP18);
    Overshoot(ExactCurve(x, y), ExactCurve(x, z), target, ExactSlope(x, y), ExactSlope(x, z), t, EXP18, Slack(x),
              (x * y) * (x * x + y * y), (x * z) * (x * x + z * z), Rise(x, y), Rise(x, z), w,
              EXP18 * ((x + z) * (x + z)) + EXP18 * (EXP18 * EXP18));
  }

  lemma SlopeEnough(x: nat, y: nat)
    requires EXP18 <= x
    ensures EXP18 <= 4 * ExactSlope(x, y)
  {
    var p := ExactMulDiv(x, x);
    var s := ExactMulDiv(p, x);
    SlopeAtLeast(x, EXP18, p, s);
    hide ExactMulDiv;
    MulMono(EXP18, x, x);
    MulMono(EXP18 * EXP18, x * x, EXP18);
    MulMono(EXP18, x, x * x);
    assert 4 * ((s * EXP18) * EXP18) == (4 * s) * (EXP18 * EXP18);
    assert x * x * x == x * (x * x);
    MulCancel(EXP18, 4 * s, EXP18 * EXP18);
  }

  lemma TargetScaled(x: nat, b: nat)
    ensures ExactCurve(x, b) * EXP18 * (EXP18 * EXP18) <= (x * b) * (x * x + b * b)
  {
    var p, q, k := ExactMulDiv(x, x), ExactMulDiv(b, b), ExactCurve(x, b);
    CurveScaled(x, b);
    ExactMulDivBounds(x, x);
    ExactMulDivBounds(b, b);
    hide ExactMulDiv, ExactCurve;
    MulNonneg(x, b);
    MulMono((k * EXP18) * EXP18, (x * b) * (p + q), EXP18);
    MulMono((p + q) * EXP18, x * x + b * b, x * b);
    Swapped(x * b, p + q, EXP18);
    assert ((k * EXP18) * EXP18) * EXP18 == k * EXP18 * (EXP18 * EXP18);
    assert (x * b) * EXP18 * (p + q) == ((p + q) * EXP18) * (x * b);
  }

  lemma DownFits(x: Balance, y: Balance, xy: nat, dy: U256)
    requires 1_000_000_000_000 <= x && xy <= ExactCurve(x, y) && (EXP18 <= x || 0 < xy)
    requires dy * ExactSlope(x, y) <= (ExactCurve(x, y) - xy) * EXP18
    ensures dy <= y
  {
    var p, q, d, k := ExactMulDiv(x, x), ExactMulDiv(y, y), ExactSlope(x, y), ExactCurve(x, y);
    CurveScaled(x, y);
    SlopePositive(x, y);
    ExactMulDivBounds(y, y);
    SlopeParts(x, y);
    if EXP18 <= x {
      SlopeEnough(x, y);
    }
    hide D, ExactMulDiv, ExactSlope, ExactCurve;
    MulMono(k - xy, k, EXP18);
    Expanded(x, y, p, q);
    if EXP18 <= x * q {
      StepDownHigh(y, EXP18, p * x, x * q, d, k, dy);
    } else if EXP18 <= x {
      NoSquare(x, q, EXP18);
      Tiny(y, d);
      StepDownLow(x, y, EXP18, p, d, k, dy);
    } else {
      SmallBalance(x, y, q);
      StepDownDust(y, EXP18, p * x, x * q, d, k, xy, dy);
    }
  }

  lemma NoSquare(x: int, q: int, e: int)
    requires e <= x && 0 <= q && 0 <= e && x * q < e
    ensures q == 0
  {
    if 0 < q {
      MulMono(1, q, x);
    }
  }

  /** Where the slope's second part is short of a unit, the balance is below half a token. */
  lemma SmallBalance(x: int, y: nat, q: int)
    requires 1_000_000_000_000 <= x && 0 <= q && x * q < EXP18 && y * y < q * EXP18 + EXP18
    ensures 2 * y <= EXP18
  {
    MulMono(1_000_000_000_000, x, q);
    if 500_000_000_000_000_000 < y {
      MulMono(500_000_000_000_000_000, y, y);
    }
  }

  /** There the truncations are worth less than the target: a step down does not pass zero either. */
  lemma StepDownDust(y: int, e: int, u: int, v: int, d: int, k: int, xy: int, dy: int)
    requires 0 < e && 0 <= v && 0 <= y && 2 * y <= e && 0 < d && 0 < xy && dy * d <= (k - xy) * e
    requires (k * e) * e <= y * u + y * v && 3 * v + u - 2 * e <= d * e
    ensures dy <= y
  {
    MulMono(3 * v + u - 2 * e, d * e, y);
    MulNonneg(y, v);
    Swapped(d, e, y);
    assert (3 * v + u - 2 * e) * y == 3 * (y * v) + y * u - (2 * y) * e;
    assert (d * y) * e + (2 * y) * e == (d * y + 2 * y) * e;
    MulCancel(k * e, d * y + 2 * y, e);
    MulMono(1, xy, e);
    assert (k - xy) * e == k * e - xy * e;
    assert d * y == y * d;
    MulCancel(dy, y, d);
  }

  lemma Expanded(x: int, y: int, p: int, q: int)
    ensures (x * y) * (p + q) == y * (p * x) + y * (x * q)
    ensures q == 0 ==> y * (x * q) == 0
    ensures (3 * x) * q == 3 * (x * q)
  {
  }

  lemma Tiny(y: nat, d: int)
    requires y * y < EXP18 <= 4 * d
    ensures y < d
  {
    if d <= y {
      MulMono(d, y, d);
      MulMono(d, y, y);
      MulMono(4, d, d);
    }
  }

  /** The slope loses less than a unit in each part, and nothing in a part that is zero. */
  lemma SlopeParts(x: nat, y: nat)
    ensures var p, q := ExactMulDiv(x, x), ExactMulDiv(y, y);
            ExactSlope(x, y) * EXP18 >= 3 * (x * q) + p * x - (if q == 0 then EXP18 else 2 * EXP18)
  {
    var p, q := ExactMulDiv(x, x), ExactMulDiv(y, y);
    ExactMulDivBounds(3 * x, q);
    ExactMulDivBounds(p, x);
    assert (3 * x) * q == 3 * (x * q);
    if q == 0 {
      assert (3 * x) * q == 0;
    }
    hide ExactMulDiv;
  }

  /** A guess the solver may hold: at most the slack above the start, and near the target. */
  ghost predicate OnTrack(x: Balance, target: nat, b: Balance, y: U256) {
    y <= b + Slack(x) && y < BALANCE_BOUND && Near(x, target, y)
  }

  predicate Stepped(y: U256, t: U256, next: U256) {
    Plus(y, t) == next == y + t
  }

  lemma RoundUp(x: Balance, a: Balance, b: Balance, y: Balance, dy: U256)
    requires Room(x, b, ExactCurve(a, b)) && a <= x && OnTrack(x, ExactCurve(a, b), b, y)
    requires ExactCurve(x, y) < ExactCurve(a, b) && 0 < ExactSlope(x, y)
    requires dy * ExactSlope(x, y) <= (ExactCurve(a, b) - ExactCurve(x, y)) * EXP18
    ensures exists next: U256 :: Stepped(y, 1, next) && OnTrack(x, ExactCurve(a, b), b, next)
    ensures exists next: U256 :: Stepped(y, dy, next) && OnTrack(x, ExactCurve(a, b), b, next)
  {
    UpFits(x, a, b, y, dy);
    NearUp(x, ExactCurve(a, b), y, 1);
    NearUp(x, ExactCurve(a, b), y, dy);
    hide ExactCurve, ExactSlope, Near;
    PlusSmall(y, dy);
    PlusSmall(y, 1);
    assert Stepped(y, 1, y + 1) && Stepped(y, dy, y + dy);
  }

  lemma RoundDown(x: Balance, target: nat, b: Balance, y: Balance, dy: U256)
    requires Room(x, b, target) && OnTrack(x, target, b, y) && target <= ExactCurve(x, y)
    requires dy * ExactSlope(x, y) <= (ExactCurve(x, y) - target) * EXP18
    ensures Minus(y, dy) == y - dy && OnTrack(x, target, b, y - dy)
  {
    DownFits(x, y, target, dy);
    NearDown(x, target, y, dy);
    hide ExactCurve, ExactSlope, Near;
    MinusSmall(y, dy);
  }

  /** One below: taken only where the curve there still meets the target. */
  lemma RoundOneDown(x: Balance, target: nat, b: Balance, y: Balance)
    requires 0 < y && OnTrack(x, target, b, y) && target <= ExactCurve(x, y - 1)
    ensures OnTrack(x, target, b, y - 1)
  {
    hide ExactCurve, ExactSlope;
  }

  predicate Rounds(p: Pool, x0: U256, xy: U256, y: U256, r: Result<Round>)
    requires p.Valid()
  {
    NextGuess(p, x0, xy, y) == r
  }

  /** One round keeps the guess, or the answer, where the curve is exact; and the slope is never zero. */
  lemma RoundStays(p: Pool, a: Balance, b: Balance, x0: Balance, xy: U256, y: Balance)
    requires EighteenDecimals(p) && a <= x0 && xy == ExactCurve(a, b) && Room(x0, b, xy) && OnTrack(x0, xy, b, y)
    ensures exists round: Round ::
              && Rounds(p, x0, xy, y, Success(round))
              && match round
                 case Done(answer) => answer < BALANCE_BOUND
                 case Guess(next) => OnTrack(x0, xy, b, next)
  {
    hide Curve, ExactCurve, D, ExactSlope, MulDivWord, K, F, Plus, Minus, Near;
    CurveIsExact(a, b);
    CurveIsExact(x0, y);
    SlopePositive(x0, y);
    CurveFitsScaled(a, b);
    CurveFitsScaled(x0, y);
    FIsCurve(x0, y);
    assert Rounds(p, x0, xy, y, NextGuess(p, x0, xy, y));
    var k, d := ExactCurve(x0, y), ExactSlope(x0, y);
    if k < xy {
      var dy := MulDivWord(xy - k, EXP18, d);
      MulMono(xy - k, xy, EXP18);
      StepOf(xy - k, d, dy);
      RoundUp(x0, a, b, y, dy);
    } else {
      var dy := MulDivWord(k - xy, EXP18, d);
      MulMono(k - xy, k, EXP18);
      StepOf(k - xy, d, dy);
      RoundDown(x0, xy, b, y, dy);
      if y == 0 {
        EmptyCurve(x0);
      } else if dy == 0 && k != xy && F(x0, Minus(y, 1)) >= xy {
        MinusSmall(y, 1);
        CurveIsExact(x0, y - 1);
        FIsCurve(x0, y - 1);
        RoundOneDown(x0, xy, b, y);
      }
    }
  }

  lemma {:induction false} SolveStays(p: Pool, a: Balance, b: Balance, x0: Balance, xy: U256, y: Balance, rounds: nat)
    requires EighteenDecimals(p) && a <= x0 && xy == ExactCurve(a, b) && Room(x0, b, xy) && OnTrack(x0, xy, b, y)
    ensures var r := Solve(p, x0, xy, y, rounds);
            if r.Success? then r.value < BALANCE_BOUND else r.error == "!y"
    decreases rounds
  {
    hide NextGuess, Curve, ExactCurve, Room, Near;
    if rounds != 0 {
      RoundStays(p, a, b, x0, xy, y);
      var round := NextGuess(p, x0, xy, y).value;
      if round.Guess? {
        SolveStays(p, a, b, x0, xy, round.next, rounds - 1);
      }
    }
  }

  lemma StartOnTrack(a: Balance, b: Balance, x0: Balance)
    requires a <= x0
    ensures OnTrack(x0, ExactCurve(a, b), b, b)
  {
    ExactCurveMono(a, b, x0, b);
    hide ExactCurve, ExactSlope;
  }

  // ---- A quote never takes more than the reserve, nor lets the curve fall ----

  /** From a guess not below the curve's own balance, the answer is not above the guess. */
  lemma AnswerAtMostGuess(p: Pool, a: Balance, b: Balance, x0: Balance, y: Balance, rounds: nat)
    requires EighteenDecimals(p) && a <= x0 && 0 < rounds
    requires Solve(p, x0, Curve(a, b), b, rounds) == Success(y)
    ensures y <= b
    ensures ExactCurve(x0, y) >= ExactCurve(a, b)
    ensures ExactCurve(x0, y) == ExactCurve(a, b) || (0 < y && ExactCurve(x0, y - 1) < ExactCurve(a, b))
  {
    hide Curve, ExactCurve, Solve, Minus;
    CurveIsExact(a, b);
    CurveIsExact(x0, b);
    CurveIsExact(x0, y);
    SolveBrackets(p, x0, Curve(a, b), b, rounds);
    ExactCurveMono(a, b, x0, b);
    if 0 < y {
      CurveIsExact(x0, y - 1);
      MinusSmall(y, 1);
    } else {
      EmptyCurve(x0);
    }
    if b < y {
      ExactCurveMono(x0, b, x0, y - 1);
      ExactCurveMono(x0, b, x0, y);
      OnCurveAnswers(p, x0, Curve(a, b), b, rounds);
    }
  }

  lemma EmptyCurve(x: nat)
    ensures ExactCurve(x, 0) == 0
  {
    assert x * 0 == 0;
  }

  lemma NetIsLess(p: Pool, amountIn: U256)
    requires p.fee <= FEE_DENOMINATOR && amountIn <= BALANCE_BOUND
    ensures NetOfFee(p, amountIn) <= amountIn
  {
    var w := FEE_DENOMINATOR - p.fee;
    MulMono(w, FEE_DENOMINATOR, amountIn);
    DivMono(amountIn * w, amountIn * FEE_DENOMINATOR, FEE_DENOMINATOR);
    DivUnique(amountIn * FEE_DENOMINATOR, FEE_DENOMINATOR, amountIn);
  }

  /** The balances of the side paid into and of the side paid out of. */
  function Sides(p: Pool, zeroForOne: bool): (U256, U256) {
    if zeroForOne then (p.reserve0, p.reserve1) else (p.reserve1, p.reserve0)
  }

  lemma SmallRescales(x: Balance)
    ensures Rescalable(x)
  {
  }

  lemma InputsAre(p: Pool, amountIn: U256, zeroForOne: bool)
    requires EighteenDecimals(p) && p.fee <= FEE_DENOMINATOR
    requires p.reserve0 + amountIn < BALANCE_BOUND && p.reserve1 + amountIn < BALANCE_BOUND
    ensures var (a, b) := Sides(p, zeroForOne);
            SolverInputs(p, amountIn, zeroForOne) == (NetOfFee(p, amountIn) + a, Curve(a, b), b)
  {
    hide Curve, ExactCurve, MulDivWord, NetOfFee, Plus;
    NetIsLess(p, amountIn);
    SmallRescales(p.reserve0);
    SmallRescales(p.reserve1);
    SmallRescales(NetOfFee(p, amountIn));
    RescaleIsIdentity(p.reserve0);
    RescaleIsIdentity(p.reserve1);
    RescaleIsIdentity(NetOfFee(p, amountIn));
    CurveIsExact(p.reserve0, p.reserve1);
    CurveIsExact(p.reserve1, p.reserve0);
    ExactCurveSymmetric(p.reserve0, p.reserve1);
    PlusSmall(NetOfFee(p, amountIn), p.reserve0);
    PlusSmall(NetOfFee(p, amountIn), p.reserve1);
  }

  lemma PlusSmall(a: U256, b: U256)
    ensures a + b < WORD ==> Plus(a, b) == a + b
  {
  }

  lemma MinusSmall(a: U256, b: U256)
    requires b <= a
    ensures Minus(a, b) == a - b
  {
  }

  /** What an output promises: within the reserve, and as much as leaves the curve not below what it was. */
  ghost predicate FairOutput(a: nat, b: nat, net: nat, out: U256) {
    && out <= b && ExactCurve(a + net, b - out) >= ExactCurve(a, b)
    && (ExactCurve(a + net, b - out) == ExactCurve(a, b)
        || (out < b && ExactCurve(a + net, b - out - 1) < ExactCurve(a, b)))
  }

  /** What the solver is asked for a quote. */
  function Asked(p: Pool, amountIn: U256, zeroForOne: bool): Result<U256>
    requires p.Valid()
  {
    var (x0, xy, b) := SolverInputs(p, amountIn, zeroForOne);
    Solve(p, x0, xy, b, ROUNDS)
  }

  /**
   * Every quote of an 18-decimal stable pool whose answer is a balance: the output is the reserve less
   * the answer, with nothing underflowing; after the swap the curve is at least what it was, and one
   * unit more out would bring it below, unless it is level.
   */
  lemma AnsweredIsFair(p: Pool, amountIn: U256, zeroForOne: bool)
    requires EighteenDecimals(p) && p.fee <= FEE_DENOMINATOR
    requires p.reserve0 + amountIn < BALANCE_BOUND && p.reserve1 + amountIn < BALANCE_BOUND
    requires Asked(p, amountIn, zeroForOne).Success? && Asked(p, amountIn, zeroForOne).value < BALANCE_BOUND
    ensures var (a, b) := Sides(p, zeroForOne);
            && StableOutput(p, amountIn, zeroForOne).Success?
            && FairOutput(a, b, NetOfFee(p, amountIn), StableOutput(p, amountIn, zeroForOne).value)
  {
    hide SolverInputs, Curve, ExactCurve, NetOfFee, Solve, MulDivWord, Minus;
    var (a, b) := Sides(p, zeroForOne);
    InputsAre(p, amountIn, zeroForOne);
    NetIsLess(p, amountIn);
    var y := Asked(p, amountIn, zeroForOne).value;
    AnswerAtMostGuess(p, a, b, NetOfFee(p, amountIn) + a, y, ROUNDS);
    MinusSmall(b, y);
    SmallRescales(b - y);
    RescaleIsIdentity(b - y);
  }

  /** With room the solver answers fairly or runs out of rounds; it never panics. */
  lemma StableQuoteIsSafe(p: Pool, amountIn: U256, zeroForOne: bool)
    requires EighteenDecimals(p) && p.fee <= FEE_DENOMINATOR
    requires p.reserve0 + amountIn < BALANCE_BOUND && p.reserve1 + amountIn < BALANCE_BOUND
    requires var (a, b) := Sides(p, zeroForOne);
             NetOfFee(p, amountIn) + a < BALANCE_BOUND && Room(NetOfFee(p, amountIn) + a, b, ExactCurve(a, b))
    ensures var (a, b) := Sides(p, zeroForOne);
            match StableOutput(p, amountIn, zeroForOne)
            case Failure(error) => error == "!y"
            case Success(out) => FairOutput(a, b, NetOfFee(p, amountIn), out)
  {
    hide SolverInputs, Curve, ExactCurve, NetOfFee, Solve, MulDivWord, Minus, Room, OnTrack, FairOutput;
    var (a, b) := Sides(p, zeroForOne);
    InputsAre(p, amountIn, zeroForOne);
    NetIsLess(p, amountIn);
    var x0 := NetOfFee(p, amountIn) + a;
    StartOnTrack(a, b, x0);
    CurveIsExact(a, b);
    SolveStays(p, a, b, x0, Curve(a, b), b, ROUNDS);
    if Asked(p, amountIn, zeroForOne).Success? {
      AnsweredIsFair(p, amountIn, zeroForOne);
    }
  }

  // ---- When a quote panics ----

  /** From a millionth of a token on, whatever the decimals, the target and the guess, no round panics. */
  lemma {:induction false} SolveNeverPanics(p: Pool, x0: Balance, xy: U256, y: U256, rounds: nat)
    requires p.Valid() && 1_000_000_000_000 <= x0
    ensures Solve(p, x0, xy, y, rounds).Failure? ==> Solve(p, x0, xy, y, rounds).error == "!y"
    decreases rounds
  {
    hide F, D, K, MulDivWord, Plus, Minus;
    if rounds != 0 {
      SlopeOfAnyWord(x0, y);
      var round := NextGuess(p, x0, xy, y).value;
      if round.Guess? {
        SolveNeverPanics(p, x0, xy, round.next, rounds - 1);
      }
    }
  }

  predicate FirstRound(p: Pool, amountIn: U256, zeroForOne: bool, r: Result<Round>)
    requires p.Valid()
  {
    var (x0, xy, b) := SolverInputs(p, amountIn, zeroForOne);
    NextGuess(p, x0, xy, b) == r
  }

  /**
   * The first round of a quote divides by zero exactly where the slope is flat at the balance paid into
   * and the reserve paid out of; then the quote panics. From a millionth of a token on the paying side it
   * never does.
   */
  lemma DustPanics(p: Pool, amountIn: U256, zeroForOne: bool)
    requires EighteenDecimals(p) && p.fee <= FEE_DENOMINATOR
    requires p.reserve0 + amountIn < BALANCE_BOUND && p.reserve1 + amountIn < BALANCE_BOUND
    ensures var (a, b) := Sides(p, zeroForOne);
            var x0 := NetOfFee(p, amountIn) + a;
            && x0 < BALANCE_BOUND
            && (exists r: Result<Round> :: FirstRound(p, amountIn, zeroForOne, r) && (r.Failure? <==> FlatAt(x0, b)))
            && (FlatAt(x0, b) ==> StableOutput(p, amountIn, zeroForOne) == Failure("panic: division by zero"))
            && (1_000_000_000_000 <= x0 && StableOutput(p, amountIn, zeroForOne).Failure? ==>
                  StableOutput(p, amountIn, zeroForOne).error == "!y")
  {
    hide SolverInputs, Curve, ExactCurve, NetOfFee, MulDivWord, D, F, K, Plus, Minus, FlatAt;
    var (a, b) := Sides(p, zeroForOne);
    InputsAre(p, amountIn, zeroForOne);
    NetIsLess(p, amountIn);
    var x0 := NetOfFee(p, amountIn) + a;
    SlopeIsZero(x0, b);
    assert FirstRound(p, amountIn, zeroForOne, NextGuess(p, x0, Curve(a, b), b));
    if 1_000_000_000_000 <= x0 {
      SolveNeverPanics(p, x0, Curve(a, b), b, ROUNDS);
    }
  }

  // ---- When the solver runs out of rounds ----

  /** The target lies between two guesses, and a step from each is exactly one, to the other. */
  predicate Cycles(x0: U256, xy: U256, y: U256) {
    && 0 < y && 0 < D(x0, y) && 0 < D(x0, y - 1) && F(x0, y - 1) < xy < F(x0, y)
    && MulDivWord(F(x0, y) - xy, EXP18, D(x0, y)) == 1
    && MulDivWord(xy - F(x0, y - 1), EXP18, D(x0, y - 1)) == 1
  }

  predicate Guesses(p: Pool, x0: U256, xy: U256, y: U256, next: U256)
    requires p.Valid()
  {
    NextGuess(p, x0, xy, y) == Success(Guess(next))
  }

  /** Around a target the guesses lead to each other exactly when both steps are one. */
  lemma CyclesExactly(p: Pool, x0: U256, xy: U256, y: U256)
    requires EighteenDecimals(p) && Rescalable(x0) && Rescalable(y) && 0 < y && F(x0, y - 1) < xy < F(x0, y)
    ensures Guesses(p, x0, xy, y, y - 1) && Guesses(p, x0, xy, y - 1, y) <==> Cycles(x0, xy, y)
  {
    hide F, D, MulDivWord, Rescalable, Guesses;
    DownOne(p, x0, xy, y);
    UpOne(p, x0, xy, y);
  }

  lemma DownOne(p: Pool, x0: U256, xy: U256, y: U256)
    requires p.Valid() && 0 < y && F(x0, y - 1) < xy < F(x0, y)
    ensures Guesses(p, x0, xy, y, y - 1) <==> 0 < D(x0, y) && MulDivWord(F(x0, y) - xy, EXP18, D(x0, y)) == 1
  {
    hide F, D, K, MulDivWord, Minus, Plus;
    MinusSmall(y, 1);
    if 0 < D(x0, y) {
      OneStep(y, MulDivWord(F(x0, y) - xy, EXP18, D(x0, y)));
    }
  }

  lemma UpOne(p: Pool, x0: U256, xy: U256, y: U256)
    requires EighteenDecimals(p) && Rescalable(x0) && Rescalable(y) && 0 < y && F(x0, y - 1) < xy < F(x0, y)
    ensures Guesses(p, x0, xy, y - 1, y)
       <==> 0 < D(x0, y - 1) && MulDivWord(xy - F(x0, y - 1), EXP18, D(x0, y - 1)) == 1
  {
    hide F, D, MulDivWord, Minus, Plus, Curve, Rescalable;
    PlusSmall(y - 1, 1);
    RescaleIsIdentity(x0);
    RescaleIsIdentity(y);
    FIsCurve(x0, y);
    if 0 < D(x0, y - 1) {
      OneStep(y, MulDivWord(xy - F(x0, y - 1), EXP18, D(x0, y - 1)));
    }
  }

  /** Only a step of one leads from a guess to the one below, or back. */
  lemma OneStep(y: U256, dy: U256)
    requires 0 < y
    ensures Minus(y, dy) == y - 1 <==> dy == 1
    ensures Plus(y - 1, dy) == y <==> dy == 1
  {
  }

  /** From there the solver goes back and forth, and no number of rounds is enough. */
  lemma {:induction false} CycleFails(p: Pool, x0: U256, xy: U256, y: U256, rounds: nat)
    requires p.Valid() && Cycles(x0, xy, y)
    ensures Solve(p, x0, xy, y, rounds) == Failure("!y") == Solve(p, x0, xy, y - 1, rounds)
    decreases rounds
  {
    hide F, D, K, MulDivWord, Plus, Minus;
    MinusSmall(y, 1);
    PlusSmall(y - 1, 1);
    if rounds != 0 {
      CycleFails(p, x0, xy, y, rounds - 1);
    }
  }

  predicate Valued(x: Balance, y: Balance, k: U256) {
    F(x, y) == k == Curve(x, y) && k == ExactCurve(x, y)
  }

  /** The curve and its slope from their truncated parts. */
  lemma CurveValue(x: Balance, y: Balance, a: nat, p: nat, q: nat, k: nat)
    requires a * EXP18 <= x * y < a * EXP18 + EXP18
    requires p * EXP18 <= x * x < p * EXP18 + EXP18 && q * EXP18 <= y * y < q * EXP18 + EXP18
    requires k * EXP18 <= a * (p + q) < k * EXP18 + EXP18
    ensures exists c: U256 :: Valued(x, y, c) && c == k
  {
    CurveIsExact(x, y);
    assert Valued(x, y, Curve(x, y)) by {
      hide Curve, ExactCurve;
      FIsCurve(x, y);
    }
    hide Curve, F;
    DivUnique(x * y, EXP18, a);
    DivUnique(x * x, EXP18, p);
    DivUnique(y * y, EXP18, q);
    DivUnique(a * (p + q), EXP18, k);
  }

  lemma SlopeValue(x: Balance, y: Balance, p: nat, q: nat, u: nat, v: nat)
    requires p * EXP18 <= x * x < p * EXP18 + EXP18 && q * EXP18 <= y * y < q * EXP18 + EXP18
    requires u * EXP18 <= (3 * x) * q < u * EXP18 + EXP18 && v * EXP18 <= p * x < v * EXP18 + EXP18
    ensures exists d: U256 :: Slopes(x, y, d) && d == u + v
  {
    SlopeIsExact(x, y);
    assert Slopes(x, y, D(x, y));
    hide D;
    DivUnique(x * x, EXP18, p);
    DivUnique(y * y, EXP18, q);
    DivUnique((3 * x) * q, EXP18, u);
    DivUnique(p * x, EXP18, v);
  }

  /** A step between the target and the curve, as many units as the slope goes into the difference. */
  lemma StepValue(diff: U256, d: U256, dy: nat)
    requires diff < BALANCE_BOUND && 0 < d && dy * d <= diff * EXP18 < dy * d + d
    ensures MulDivWord(diff, EXP18, d) == dy
  {
    SmallWord(diff * EXP18);
    hide Wrap;
    DivUnique(diff * EXP18, d, dy);
  }

  /** A pool of a token and a quarter against a thirtieth of one. */
  const CYCLING := Pool(EXP18, EXP18, 1_240_461_040_715_548_416, 34_891_762_888_316_669, 3_000)

  /** It has room, and no quote for an input of 977. */
  lemma NoQuote()
    ensures var x0 := NetOfFee(CYCLING, 977) + CYCLING.reserve0;
            x0 < BALANCE_BOUND && Room(x0, CYCLING.reserve1, ExactCurve(CYCLING.reserve0, CYCLING.reserve1))
    ensures StableOutput(CYCLING, 977, true) == Failure("!y")
  {
    hide SolverInputs, Curve, ExactCurve, F, D, K, Solve, NextGuess, MulDivWord, Minus, Plus;
    MinusSmall(FEE_DENOMINATOR, 3_000);
    assert NetOfFee(CYCLING, 977) == 974;
    InputsAre(CYCLING, 977, true);
    CurveValue(1_240_461_040_715_548_416, 34_891_762_888_316_669, 43_281_872_504_841_444, 1_538_743_593_533_101_465, 1_217_435_117_454_512, 66_652_396_904_477_845);
    FirstStep();
    Around();
    CycleFails(CYCLING, 1_240_461_040_715_549_390, 66_652_396_904_477_845, 34_891_762_888_316_587, ROUNDS - 1);
    OneRound(CYCLING, 1_240_461_040_715_549_390, 66_652_396_904_477_845, 34_891_762_888_316_669, ROUNDS);
  }

  lemma OneRound(p: Pool, x0: U256, xy: U256, y: U256, rounds: nat)
    requires p.Valid() && 0 < rounds
    ensures exists r: Result<Round> ::
              && Rounds(p, x0, xy, y, r)
              && (r.Success? && r.value.Guess? ==>
                    Solve(p, x0, xy, y, rounds) == Solve(p, x0, xy, r.value.next, rounds - 1))
  {
    hide NextGuess;
    assert Rounds(p, x0, xy, y, NextGuess(p, x0, xy, y));
  }

  /** The first guess steps down by 82. */
  lemma FirstStep()
    ensures Guesses(CYCLING, 1_240_461_040_715_549_390, 66_652_396_904_477_845, 34_891_762_888_316_669, 34_891_762_888_316_587)
  {
    hide Curve, ExactCurve, F, D, K, MulDivWord, Minus, Plus;
    CurveValue(1_240_461_040_715_549_390, 34_891_762_888_316_669, 43_281_872_504_841_478, 1_538_743_593_533_103_881, 1_217_435_117_454_512, 66_652_396_904_478_002);
    SlopeValue(1_240_461_040_715_549_390, 34_891_762_888_316_669, 1_538_743_593_533_103_881, 1_217_435_117_454_512, 4_530_542_498_403_843, 1_908_751_479_428_458_354);
    StepValue(157, 1_913_282_021_926_862_197, 82);
    MinusSmall(34_891_762_888_316_669, 82);
  }

  /** The next two lie around the target. */
  lemma Around()
    ensures Cycles(1_240_461_040_715_549_390, 66_652_396_904_477_845, 34_891_762_888_316_587)
  {
    hide Curve, ExactCurve, F, D, MulDivWord;
    CurveValue(1_240_461_040_715_549_390, 34_891_762_888_316_587, 43_281_872_504_841_377, 1_538_743_593_533_103_881, 1_217_435_117_454_506, 66_652_396_904_477_847);
    CurveValue(1_240_461_040_715_549_390, 34_891_762_888_316_586, 43_281_872_504_841_375, 1_538_743_593_533_103_881, 1_217_435_117_454_506, 66_652_396_904_477_843);
    SlopeValue(1_240_461_040_715_549_390, 34_891_762_888_316_587, 1_538_743_593_533_103_881, 1_217_435_117_454_506, 4_530_542_498_403_820, 1_908_751_479_428_458_354);
    SlopeValue(1_240_461_040_715_549_390, 34_891_762_888_316_586, 1_538_743_593_533_103_881, 1_217_435_117_454_506, 4_530_542_498_403_820, 1_908_751_479_428_458_354);
    StepValue(2, 1_913_282_021_926_862_174, 1);
    StepValue(2, 1_913_282_021_926_862_174, 1);
  }
}

// src/v3/swap_math.rs: `compute_swap_step`, one move of the price towards a target
// (section 6.2.3 of the Uniswap v3 Core whitepaper).
module SwapStep {
  import opened Results
  import opened Arith
  import opened Words
  import opened FullMath
  import opened SqrtPriceMath

  const MAX_FEE: U256 := 1_000_000

  datatype Step = Step(price: U160, amountIn: U256, amountOut: U256, feeAmount: U256)

  /** A 256-bit signed amount. */
  type I256 = x: int | 0 - Q255 <= x < Q255

  function AmountInFor(zeroForOne: bool, current: U160, target: U160, liquidity: U128): Result<U256> {
    if zeroForOne then Amount0Delta(target, current, liquidity, true)
    else Amount1Delta(current, target, liquidity, true)
  }

  function AmountOutFor(zeroForOne: bool, current: U160, target: U160, liquidity: U128): Result<U256> {
    if zeroForOne then Amount1Delta(target, current, liquidity, false)
    else Amount0Delta(current, target, liquidity, false)
  }

  function ComputeSwapStep(current: U160, target: U160, liquidity: U128, amountRemaining: I256, feePips: nat)
    : Result<Step>
    requires feePips < MAX_FEE
  {
    var feeComplement: U256 := MAX_FEE - feePips;
    var zeroForOne := current >= target;
    if amountRemaining >= 0 then
      var lessFee :- FloorMulDiv(amountRemaining, feeComplement, MAX_FEE);
      var needed :- AmountInFor(zeroForOne, current, target, liquidity);
      if lessFee >= needed then
        var feeAmount :- MulDivRoundingUp(needed, feePips, feeComplement);
        var amountOut :- AmountOutFor(zeroForOne, current, target, liquidity);
        Success(Step(target, needed, amountOut, feeAmount))
      else
        var next :- NextPriceFromInput(current, liquidity, lessFee, zeroForOne);
        var feeAmount := Wrap(amountRemaining - lessFee);
        var amountOut :- AmountOutFor(zeroForOne, current, next, liquidity);
        Success(Step(next, lessFee, amountOut, feeAmount))
    else
      var available :- AmountOutFor(zeroForOne, current, target, liquidity);
      var reached := 0 - amountRemaining >= available;
      var next :- if reached then Success(target)
                  else NextPriceFromOutput(current, liquidity, 0 - amountRemaining, zeroForOne);
      var amountIn :- AmountInFor(zeroForOne, current, next, liquidity);
      var feeAmount :- MulDivRoundingUp(amountIn, feePips, feeComplement);
      Success(Step(next, amountIn, if reached then available else 0 - amountRemaining, feeAmount))
  }

  // ---- What a step promises ----

  /** `x` lies between `a` and `b`, whichever order they are in. */
  predicate Between(a: int, x: int, b: int) {
    a <= x <= b || b <= x <= a
  }

  /** The payment `amountIn` covers the price move exactly computed (rounding favours the pool). */
  predicate PaidFor(zeroForOne: bool, from: int, to: int, liquidity: int, amountIn: int) {
    if zeroForOne then liquidity * Q96 * (from - to) <= to * (amountIn * from)
    else liquidity * (to - from) <= amountIn * Q96
  }

  /** The output `amountOut` is no more than the price move frees. */
  predicate Covered(zeroForOne: bool, from: int, to: int, liquidity: int, amountOut: int) {
    if zeroForOne then amountOut * Q96 <= liquidity * (from - to)
    else to * (amountOut * from) <= liquidity * Q96 * (to - from)
  }

  /** The fee is at least its rate of the gross input. */
  predicate FeeCharged(amountIn: int, feeAmount: int, feePips: int) {
    amountIn * feePips <= feeAmount * (MAX_FEE - feePips)
  }

  /** The price moved the way the step goes, and paid its way. */
  predicate Sound(current: U160, target: U160, liquidity: U128, feePips: nat, s: Step) {
    && Between(current, s.price, target)
    && PaidFor(current >= target, current, s.price, liquidity, s.amountIn)
    && Covered(current >= target, current, s.price, liquidity, s.amountOut)
    && FeeCharged(s.amountIn, s.feeAmount, feePips)
  }

  /** The specified side: never exceeded, and used up whenever the target is not reached. */
  predicate SpecifiedSide(target: U160, amountRemaining: I256, s: Step) {
    if amountRemaining >= 0 then
      && s.amountIn + s.feeAmount <= amountRemaining
      && (s.price != target ==> s.amountIn + s.feeAmount == amountRemaining)
    else
      && s.amountOut <= 0 - amountRemaining
      && (s.price != target ==> s.amountOut == 0 - amountRemaining)
  }

  // ---- Amounts between two prices ----

  /** What a step charges for a move, and what it pays, by name. */
  predicate Charges(zeroForOne: bool, from: U160, to: U160, liquidity: U128, v: U256) {
    AmountInFor(zeroForOne, from, to, liquidity) == Success(v)
  }

  predicate Pays(zeroForOne: bool, from: U160, to: U160, liquidity: U128, v: U256) {
    AmountOutFor(zeroForOne, from, to, liquidity) == Success(v)
  }

  /** The input for a move is the least payment that covers it. */
  lemma AmountInLeast(zeroForOne: bool, from: U160, to: U160, liquidity: U128, x: int)
    requires 0 < from && 0 < to && (if zeroForOne then to <= from else from <= to)
    ensures exists v: U256 :: Charges(zeroForOne, from, to, liquidity, v)
                              && (v <= x <==> PaidFor(zeroForOne, from, to, liquidity, x))
  {
    hide Amount0Delta, Amount1Delta, CeilDiv;
    if zeroForOne {
      Amount0Up(to, from, liquidity, x);
      Reassociate(x, to, from);
      Reassociate(to, x, from);
    } else {
      Amount1Value(from, to, liquidity, true);
      CeilLe(liquidity * (to - from), Q96, x);
    }
    assert Charges(zeroForOne, from, to, liquidity, AmountInFor(zeroForOne, from, to, liquidity).value);
  }

  /** The output for a move is the greatest one it covers. */
  lemma AmountOutGreatest(zeroForOne: bool, from: U160, to: U160, liquidity: U128, x: int)
    requires 0 < from && 0 < to && (if zeroForOne then to <= from else from <= to)
    ensures exists v: U256 :: Pays(zeroForOne, from, to, liquidity, v)
                              && (x <= v <==> Covered(zeroForOne, from, to, liquidity, x))
  {
    hide Amount0Delta, Amount1Delta;
    if zeroForOne {
      Amount1Value(to, from, liquidity, false);
      DivGe(liquidity * (from - to), Q96, x);
    } else {
      Amount0Down(from, to, liquidity, x);
      Reassociate(x, from, to);
      Reassociate(to, x, from);
    }
    assert Pays(zeroForOne, from, to, liquidity, AmountOutFor(zeroForOne, from, to, liquidity).value);
  }

  // ---- Fees ----

  lemma FeeOnNeeded(needed: int, remaining: int, f: int, m: int)
    requires 0 <= f < m && 0 <= needed && needed * m <= remaining * (m - f)
    ensures needed + CeilDiv(needed * f, m - f) <= remaining
    ensures needed * f <= CeilDiv(needed * f, m - f) * (m - f)
  {
    CeilBounds(needed * f, m - f);
    assert needed * f <= (remaining - needed) * (m - f) by {
      assert (remaining - needed) * (m - f) == remaining * (m - f) - needed * (m - f);
      assert needed * (m - f) == needed * m - needed * f;
    }
    CeilLe(needed * f, m - f, remaining - needed);
  }

  lemma FeeTheRest(remaining: int, lessFee: int, f: int, m: int)
    requires 0 <= f < m && 0 <= remaining && lessFee == remaining * (m - f) / m
    ensures 0 <= lessFee <= remaining
    ensures lessFee * f <= (remaining - lessFee) * (m - f)
  {
    MulNonneg(remaining, m - f);
    DivGe(remaining * (m - f), m, 0);
    DivBounds(remaining * (m - f), m);
    MulMono(m - f, m, remaining);
    MulCancel(lessFee, remaining, m);
    assert (remaining - lessFee) * (m - f) == remaining * (m - f) - lessFee * m + lessFee * f;
  }

  lemma FeeFits(amountIn: int, f: int, m: int, bound: int)
    requires 0 <= f < m && 0 <= amountIn < bound
    ensures 0 <= CeilDiv(amountIn * f, m - f) <= bound * m
  {
    MulNonneg(amountIn, f);
    CeilRange(amountIn * f, m - f);
    MulMono(amountIn, bound, f);
    MulMono(f, m, bound);
  }

  // ---- The moves ----

  lemma NoLiquidityNeedsNothing(zeroForOne: bool, from: U160, to: U160, x: int)
    requires 0 <= x && 0 < from && 0 < to
    ensures PaidFor(zeroForOne, from, to, 0, x)
    ensures 0 < x ==> !Covered(zeroForOne, from, to, 0, x)
  {
    MulNonneg(x, from);
    MulNonneg(to, x * from);
    if 0 < x {
      MulStrict(0, x, from);
      MulStrict(0, to, x * from);
    }
  }

  /** An input too small for the target moves the price part of the way, and pays for it. */
  lemma PartialInput(zeroForOne: bool, current: U160, target: U160, liquidity: U128, amount: U256)
    requires 0 < current && 0 < target && (if zeroForOne then target <= current else current <= target)
    requires !PaidFor(zeroForOne, current, target, liquidity, amount)
    ensures exists next: U160 :: InputMoves(current, liquidity, amount, zeroForOne, Success(next))
                           && Between(current, next, target) && 0 < next
                           && PaidFor(zeroForOne, current, next, liquidity, amount)
  {
    hide NextPriceFromInput;
    if liquidity == 0 {
      NoLiquidityNeedsNothing(zeroForOne, current, target, amount);
    } else if zeroForOne {
      InputToken0(current, liquidity, amount, target);
    } else {
      InputToken1(current, liquidity, amount, target);
    }
  }

  /** An output smaller than the target would free moves the price part of the way. */
  lemma PartialOutput(zeroForOne: bool, current: U160, target: U160, liquidity: U128, amount: U256)
    requires 0 < current && 0 < target && (if zeroForOne then target <= current else current <= target)
    requires 0 < amount && Covered(zeroForOne, current, target, liquidity, amount)
    ensures exists next: U160 :: OutputMoves(current, liquidity, amount, zeroForOne, Success(next))
                           && Between(current, next, target) && 0 < next
                           && Covered(zeroForOne, current, next, liquidity, amount)
  {
    hide NextPriceFromOutput;
    if liquidity == 0 {
      NoLiquidityNeedsNothing(zeroForOne, current, target, amount);
    } else if zeroForOne {
      OutputToken1(current, liquidity, amount, target);
    } else {
      OutputToken0(current, liquidity, amount, target);
    }
  }

  lemma LessFeeValue(remaining: I256, f: nat) returns (lessFee: U256)
    requires f < MAX_FEE && 0 <= remaining
    ensures FloorMulDiv(remaining, MAX_FEE - f, MAX_FEE) == Success(lessFee)
    ensures lessFee == remaining * (MAX_FEE - f) / MAX_FEE && lessFee <= remaining
    ensures lessFee * f <= (remaining - lessFee) * (MAX_FEE - f)
  {
    FeeTheRest(remaining, remaining * (MAX_FEE - f) / MAX_FEE, f, MAX_FEE);
    lessFee := remaining * (MAX_FEE - f) / MAX_FEE;
  }

  /** What a step answers, by name. */
  predicate Steps(current: U160, target: U160, liquidity: U128, remaining: I256, f: nat, s: Step)
    requires f < MAX_FEE
  {
    ComputeSwapStep(current, target, liquidity, remaining, f) == Success(s)
  }

  /** A target within reach of an exact input: the price is the target, at no more than the input. */
  lemma ExactInReaches(current: U160, target: U160, liquidity: U128, remaining: I256, f: nat)
    requires 0 < current && 0 < target && f < MAX_FEE && 0 <= remaining
    requires var lessFee := remaining * (MAX_FEE - f) / MAX_FEE;
             PaidFor(current >= target, current, target, liquidity, lessFee)
    ensures exists s: Step :: Steps(current, target, liquidity, remaining, f, s) && s.price == target
                              && Sound(current, target, liquidity, f, s) && SpecifiedSide(target, remaining, s)
  {
    hide AmountInFor, AmountOutFor, FloorMulDiv, MulDivRoundingUp, CeilDiv, PaidFor, Covered;
    var zeroForOne := current >= target;
    var c := MAX_FEE - f;
    var lessFee := LessFeeValue(remaining, f);
    AmountInLeast(zeroForOne, current, target, liquidity, lessFee);
    var needed := AmountInFor(zeroForOne, current, target, liquidity).value;
    AmountInLeast(zeroForOne, current, target, liquidity, needed);
    AmountOutGreatest(zeroForOne, current, target, liquidity, 0);
    var out := AmountOutFor(zeroForOne, current, target, liquidity).value;
    AmountOutGreatest(zeroForOne, current, target, liquidity, out);
    assert needed * MAX_FEE <= remaining * c by {
      DivGe(remaining * c, MAX_FEE, needed);
    }
    FeeOnNeeded(needed, remaining, f, MAX_FEE);
    FeeFits(needed, f, MAX_FEE, Q255);
    RoundingUpIsCeiling(needed, f, c);
    var fee := CeilDiv(needed * f, c);
    assert Steps(current, target, liquidity, remaining, f, Step(target, needed, out, fee));
  }

  /** Otherwise the price stops short, and the whole input is used. */
  lemma ExactInStops(current: U160, target: U160, liquidity: U128, remaining: I256, f: nat)
    requires 0 < current && 0 < target && f < MAX_FEE && 0 <= remaining
    requires var lessFee := remaining * (MAX_FEE - f) / MAX_FEE;
             !PaidFor(current >= target, current, target, liquidity, lessFee)
    ensures exists s: Step :: Steps(current, target, liquidity, remaining, f, s) && s.amountIn + s.feeAmount == remaining
                              && Sound(current, target, liquidity, f, s) && SpecifiedSide(target, remaining, s)
  {
    hide AmountInFor, AmountOutFor, FloorMulDiv, MulDivRoundingUp, CeilDiv, PaidFor, Covered, NextPriceFromInput;
    var zeroForOne := current >= target;
    var lessFee := LessFeeValue(remaining, f);
    AmountInLeast(zeroForOne, current, target, liquidity, lessFee);
    var needed := AmountInFor(zeroForOne, current, target, liquidity).value;
    PartialInput(zeroForOne, current, target, liquidity, lessFee);
    var next := NextPriceFromInput(current, liquidity, lessFee, zeroForOne).value;
    AmountOutGreatest(zeroForOne, current, next, liquidity, 0);
    var out := AmountOutFor(zeroForOne, current, next, liquidity).value;
    AmountOutGreatest(zeroForOne, current, next, liquidity, out);
    assert Steps(current, target, liquidity, remaining, f, Step(next, lessFee, out, remaining - lessFee));
  }

  /** An exact output never pays more than asked, and exactly that when it stops short. */
  lemma ExactOutStep(current: U160, target: U160, liquidity: U128, remaining: I256, f: nat)
    requires 0 < current && 0 < target && f < MAX_FEE && remaining < 0
    ensures exists s: Step :: Steps(current, target, liquidity, remaining, f, s)
                              && Sound(current, target, liquidity, f, s) && SpecifiedSide(target, remaining, s)
  {
    hide AmountInFor, AmountOutFor, FloorMulDiv, MulDivRoundingUp, CeilDiv, PaidFor, Covered, NextPriceFromOutput;
    var zeroForOne := current >= target;
    var asked := 0 - remaining;
    AmountOutGreatest(zeroForOne, current, target, liquidity, asked);
    var available := AmountOutFor(zeroForOne, current, target, liquidity).value;
    AmountOutGreatest(zeroForOne, current, target, liquidity, available);
    var next, out := target, available;
    if asked < available {
      PartialOutput(zeroForOne, current, target, liquidity, asked);
      next := NextPriceFromOutput(current, liquidity, asked, zeroForOne).value;
      out := asked;
    }
    AmountInBounded(zeroForOne, current, next, liquidity);
    var amountIn := AmountInFor(zeroForOne, current, next, liquidity).value;
    AmountInLeast(zeroForOne, current, next, liquidity, amountIn);
    CeilBounds(amountIn * f, MAX_FEE - f);
    FeeFits(amountIn, f, MAX_FEE, Q160 * Q96 / 0x100000000 + 1);
    RoundingUpIsCeiling(amountIn, f, MAX_FEE - f);
    var fee := CeilDiv(amountIn * f, MAX_FEE - f);
    assert Steps(current, target, liquidity, remaining, f, Step(next, amountIn, out, fee));
  }

  /** The input of a move is at most L * 2^96, and at most L * 2^64 for token1. */
  lemma AmountInBounded(zeroForOne: bool, from: U160, to: U160, liquidity: U128)
    requires 0 < from && 0 < to && (if zeroForOne then to <= from else from <= to)
    ensures exists v: U256 :: Charges(zeroForOne, from, to, liquidity, v) && v <= liquidity * Q96
  {
    var x := liquidity * Q96;
    if zeroForOne {
      Token0Within(x, from, to);
    } else {
      MulMono(to - from, Q160, liquidity);
    }
    AmountInLeast(zeroForOne, from, to, liquidity, x);
  }

  lemma Token0Within(x: int, from: int, to: int)
    requires 0 <= x && 0 < to <= from
    ensures x * (from - to) <= to * (x * from)
  {
    MulMono(from - to, from, x);
    MulNonneg(x, from);
    MulMono(1, to, x * from);
  }

  /**
   * One step, whatever its direction and mode: it never fails, never passes its target, never
   * exceeds the specified amount, uses all of it when it stops short, and is paid for.
   */
  lemma StepCorrect(current: U160, target: U160, liquidity: U128, remaining: I256, f: nat)
    requires 0 < current && 0 < target && f < MAX_FEE
    ensures exists s: Step :: Steps(current, target, liquidity, remaining, f, s)
                              && Sound(current, target, liquidity, f, s) && SpecifiedSide(target, remaining, s)
  {
    hide ComputeSwapStep, Sound, SpecifiedSide, PaidFor;
    if remaining < 0 {
      ExactOutStep(current, target, liquidity, remaining, f);
    } else if PaidFor(current >= target, current, target, liquidity, remaining * (MAX_FEE - f) / MAX_FEE) {
      ExactInReaches(current, target, liquidity, remaining, f);
    } else {
      ExactInStops(current, target, liquidity, remaining, f);
    }
  }

  // ---- Steps that cost nothing, and bounds on those that do ----

  /** A move that nothing need be paid for and that frees nothing reaches its target for free. */
  lemma FreeStep(current: U160, target: U160, liquidity: U128, remaining: I256, f: nat)
    requires 0 < current && 0 < target && f < MAX_FEE
    requires current == target || liquidity == 0
    ensures exists s: Step :: Steps(current, target, liquidity, remaining, f, s) && s == Step(target, 0, 0, 0)
  {
    hide AmountInFor, AmountOutFor, FloorMulDiv, CeilDiv, PaidFor, Covered, MulDivRoundingUp;
    var zeroForOne := current >= target;
    FreeMove(zeroForOne, current, target, liquidity);
    AmountInLeast(zeroForOne, current, target, liquidity, 0);
    var needed := AmountInFor(zeroForOne, current, target, liquidity).value;
    AmountOutGreatest(zeroForOne, current, target, liquidity, 1);
    var available := AmountOutFor(zeroForOne, current, target, liquidity).value;
    NoFee(f);
    if 0 <= remaining {
      var lessFee := LessFeeValue(remaining, f);
    }
    assert Steps(current, target, liquidity, remaining, f, Step(target, 0, 0, 0));
  }

  lemma FreeMove(zeroForOne: bool, current: U160, target: U160, liquidity: U128)
    requires 0 < current && 0 < target && (current == target || liquidity == 0)
    ensures PaidFor(zeroForOne, current, target, liquidity, 0)
    ensures !Covered(zeroForOne, current, target, liquidity, 1)
  {
    if liquidity == 0 {
      NoLiquidityNeedsNothing(zeroForOne, current, target, 0);
      NoLiquidityNeedsNothing(zeroForOne, current, target, 1);
    } else {
      MulStrict(0, target, 1 * current);
    }
  }

  lemma NoFee(f: nat)
    requires f < MAX_FEE
    ensures MulDivRoundingUp(0, f, MAX_FEE - f) == Success(0)
  {
    RoundingUpIsCeiling(0, f, MAX_FEE - f);
  }

  const AMOUNT_BOUND: int := 0x1_0000000000000000_0000000000000000_0000000000000000

  /** Between prices of at least 2^32, no amount of either token reaches 2^192. */
  lemma MoveBounded(zeroForOne: bool, from: U160, to: U160, liquidity: U128, out: int)
    requires 0x1_00000000 <= from && 0x1_00000000 <= to && (if zeroForOne then to <= from else from <= to)
    ensures PaidFor(zeroForOne, from, to, liquidity, AMOUNT_BOUND)
    ensures Covered(zeroForOne, from, to, liquidity, out) ==> out <= AMOUNT_BOUND
  {
    if zeroForOne {
      Token0Bound(from, to, liquidity * Q96);
      if AMOUNT_BOUND < out {
        MulMono(from - to, Q160, liquidity);
        MulMono(liquidity, Q128, Q160);
      }
    } else {
      MulMono(to - from, Q160, liquidity);
      MulMono(liquidity, Q128, Q160);
      if AMOUNT_BOUND < out {
        assert from * (AMOUNT_BOUND * to) == (AMOUNT_BOUND * from) * to;
        Token0Bound(to, from, liquidity * Q96);
        MulStrict(AMOUNT_BOUND, out, from);
        MulStrict(AMOUNT_BOUND * from, out * from, to);
      }
    }
  }

  lemma Token0Bound(high: int, low: int, n: int)
    requires 0x1_00000000 <= low <= high && 0 <= n < AMOUNT_BOUND * 0x1_00000000
    ensures n * (high - low) <= low * (AMOUNT_BOUND * high)
  {
    MulMono(high - low, high, n);
    MulMono(n, AMOUNT_BOUND * 0x1_00000000, high);
    MulMono(0x1_00000000, low, AMOUNT_BOUND * high);
    assert (AMOUNT_BOUND * 0x1_00000000) * high == 0x1_00000000 * (AMOUNT_BOUND * high);
  }

  /** An exact-output step costs less than 2^192 of input, and at most a million times that in fee. */
  lemma ExactOutCost(current: U160, target: U160, liquidity: U128, remaining: I256, f: nat)
    requires 0x1_00000000 <= current && 0x1_00000000 <= target && f < MAX_FEE && remaining < 0
    ensures exists s: Step :: Steps(current, target, liquidity, remaining, f, s)
                              && s.amountIn <= AMOUNT_BOUND && s.feeAmount <= (AMOUNT_BOUND + 1) * MAX_FEE
  {
    hide AmountInFor, AmountOutFor, MulDivRoundingUp, CeilDiv, NextPriceFromOutput, PaidFor, Covered;
    var zeroForOne := current >= target;
    StepCorrect(current, target, liquidity, remaining, f);
    var s := ComputeSwapStep(current, target, liquidity, remaining, f).value;
    assert Steps(current, target, liquidity, remaining, f, s);
    MoveBounded(zeroForOne, current, s.price, liquidity, 0);
    AmountInLeast(zeroForOne, current, s.price, liquidity, AMOUNT_BOUND);
    var v := AmountInFor(zeroForOne, current, s.price, liquidity).value;
    FeeFits(v, f, MAX_FEE, AMOUNT_BOUND + 1);
    RoundingUpIsCeiling(v, f, MAX_FEE - f);
  }

  /** From a zero price, no step upwards succeeds. */
  lemma NoPriceNoStep(target: U160, liquidity: U128, remaining: I256, f: nat)
    requires 0 < target && f < MAX_FEE
    ensures ComputeSwapStep(0, target, liquidity, remaining, f).Failure?
  {
    hide FloorMulDiv, MulDivRoundingUp, Amount1Delta;
  }
}

// src/v3/swap_math.rs: `v3_swap`, the loop of steps across initialized ticks
// (section 6.3.1 of the Uniswap v3 Core whitepaper for the crossing).
module SwapLoop {
  import opened Results
  import opened Arith
  import opened Words
  import opened SwapStep
  import opened Ticks
  import opened TickMath
  import opened TickInverse

  /** What a swap does not change: the pool's fee and ticks, the direction, mode and limit. */
  datatype Config = Config(
    fee: nat, ticks: TickMap, search: TickSearch, zeroForOne: bool, exactIn: bool, limit: U160)

  datatype SwapState = SwapState(
    remaining: I256, calculated: I256, price: U160, tick: int, liquidity: U128)

  /** One turn of the loop: the new state, the step taken, and whether the loop breaks. */
  datatype Turn = Turn(state: SwapState, step: Step, stop: bool)

  function ClampTick(tick: int): int {
    Max(MIN_TICK, Min(tick, MAX_TICK))
  }

  /** `checked_add_signed`. */
  function AddDelta(x: U128, y: int): Result<U128> {
    if 0 <= x + y < Q128 then Success(x + y) else Failure("Liquidity delta overflow")
  }

  /** `I256::from_raw` of a wrapping sum. */
  function WrapSigned(x: int): I256 {
    Signed(Wrap(x))
  }

  function StepTarget(c: Config, priceNext: U160): U160 {
    if c.zeroForOne then Max(priceNext, c.limit) else Min(priceNext, c.limit)
  }

  function Settle(c: Config, s: SwapState, step: Step): (I256, I256) {
    if c.exactIn then
      (WrapSigned(s.remaining - step.amountIn - step.feeAmount), WrapSigned(s.calculated - step.amountOut))
    else
      (WrapSigned(s.remaining + step.amountOut), WrapSigned(s.calculated + step.amountIn + step.feeAmount))
  }

  predicate NoProgress(c: Config, s: SwapState, step: Step, tickNext: int, priceNext: U160) {
    && step.amountIn == 0 && step.amountOut == 0 && step.feeAmount == 0
    && (step.price != priceNext || (!c.zeroForOne && tickNext <= s.tick))
  }

  function CrossLiquidity(c: Config, s: SwapState, tickNext: int, initialized: bool): Result<U128> {
    if !initialized then Success(s.liquidity)
    else
      var t :- GetTick(c.ticks, tickNext);
      AddDelta(s.liquidity, if c.zeroForOne then -t.liquidityNet else t.liquidityNet)
  }

  function AfterStep(c: Config, s: SwapState, step: Step, tickNext: int, initialized: bool, priceNext: U160)
    : Result<Turn>
  {
    var (remaining, calculated) := Settle(c, s, step);
    if NoProgress(c, s, step, tickNext, priceNext) then Failure("v3_swap: no progress")
    else if step.price == priceNext then
      var liquidity :- CrossLiquidity(c, s, tickNext, initialized);
      var tick := if c.zeroForOne then tickNext - 1 else tickNext;
      Success(Turn(SwapState(remaining, calculated, step.price, tick, liquidity), step, liquidity == 0))
    else
      var tick :- if step.price != s.price then TickAtSqrtRatio(step.price) else Success(s.tick);
      Success(Turn(SwapState(remaining, calculated, step.price, tick, s.liquidity), step, false))
  }

  function TakeTurn(c: Config, s: SwapState): Result<Turn>
    requires c.fee < MAX_FEE
  {
    var (found, initialized) :- NextInitializedTick(c.ticks, s.tick, c.zeroForOne, c.search);
    var tickNext := ClampTick(found);
    var priceNext :- SqrtRatioAtTick(tickNext);
    var step :- ComputeSwapStep(s.price, StepTarget(c, priceNext), s.liquidity, s.remaining, c.fee);
    AfterStep(c, s, step, tickNext, initialized, priceNext)
  }

  predicate Running(c: Config, s: SwapState) {
    s.remaining != 0 && s.price != c.limit
  }

  /** What the entry checks establish: a limit on the right side, and a remaining of the right sign. */
  predicate Admitted(c: Config, s: SwapState) {
    && c.fee < MAX_FEE
    && (if c.zeroForOne then MIN_SQRT_RATIO < c.limit <= s.price else s.price <= c.limit < MAX_SQRT_RATIO)
    && (if c.exactIn then 0 <= s.remaining else s.remaining <= 0)
  }

  // ---- One turn, in any pool ----

  /** A search never goes the wrong way, on any tick map. */
  lemma SearchBound(ticks: TickMap, tick: int, lte: bool, search: TickSearch)
    requires NextInitializedTick(ticks, tick, lte, search).Success?
    ensures var found := NextInitializedTick(ticks, tick, lte, search).value.0;
            && (if lte then found <= tick else tick <= found)
            && (!lte && found == tick ==> NextInitializedTick(ticks, tick, lte, search).value == (tick, false))
  {
    if search.WordBounded? {
      var spacing := search.tickSpacing;
      WordBounds(tick / spacing, spacing);
      WordBounds(tick / spacing + 1, spacing);
      MultipleBelow(0, tick, spacing);
    }
  }

  /** The specified side after a step: of the same sign, exact, and spent if the target was missed. */
  lemma SettledRemaining(c: Config, s: SwapState, step: Step, target: U160)
    requires if c.exactIn then 0 <= s.remaining else s.remaining < 0
    requires SpecifiedSide(target, s.remaining, step)
    ensures var r := Settle(c, s, step).0;
            && r == (if c.exactIn then s.remaining - step.amountIn - step.feeAmount else s.remaining + step.amountOut)
            && (if c.exactIn then 0 <= r <= s.remaining else s.remaining <= r <= 0)
            && (step.price != target ==> r == 0)
  {
    NoSignedWrap(if c.exactIn then s.remaining - step.amountIn - step.feeAmount else s.remaining + step.amountOut);
    hide WrapSigned;
  }

  lemma NoSignedWrap(x: int)
    requires 0 - Q255 <= x < Q255
    ensures WrapSigned(x) == x
  {
    if x < 0 {
      ModUnique(x, WORD, -1, x + WORD);
    } else {
      ModUnique(x, WORD, 0, x);
    }
  }

  /** The pieces of a successful turn. */
  lemma TurnParts(c: Config, s: SwapState)
    returns (found: int, initialized: bool, step: Step)
    requires Admitted(c, s) && Running(c, s) && TakeTurn(c, s).Success?
    ensures NextInitializedTick(c.ticks, s.tick, c.zeroForOne, c.search) == Success((found, initialized))
    ensures var tickNext := ClampTick(found);
            var target := StepTarget(c, PriceOf(tickNext));
            && step == TakeTurn(c, s).value.step
            && AfterStep(c, s, step, tickNext, initialized, PriceOf(tickNext)) == TakeTurn(c, s)
            && ComputeSwapStep(s.price, target, s.liquidity, s.remaining, c.fee) == Success(step)
            && 0 < s.price && 0 < target && Sound(s.price, target, s.liquidity, c.fee, step)
            && SpecifiedSide(target, s.remaining, step)
  {
    hide ComputeSwapStep, SqrtRatioAtTick, NextInitializedTick, Sound, SpecifiedSide, Settle, TickAtSqrtRatio,
         CrossLiquidity, NoProgress;
    var r := NextInitializedTick(c.ticks, s.tick, c.zeroForOne, c.search).value;
    found, initialized := r.0, r.1;
    var tickNext := ClampTick(found);
    RatioValue(tickNext);
    PricePositiveAt(tickNext);
    var target := StepTarget(c, PriceOf(tickNext));
    if s.price == 0 {
      NoPriceNoStep(target, s.liquidity, s.remaining, c.fee);
    }
    StepCorrect(s.price, target, s.liquidity, s.remaining, c.fee);
    step := ComputeSwapStep(s.price, target, s.liquidity, s.remaining, c.fee).value;
  }

  lemma PricePositiveAt(tick: int)
    requires MIN_TICK <= tick <= MAX_TICK
    ensures MIN_SQRT_RATIO <= PriceOf(tick) <= MAX_SQRT_RATIO
  {
    hide SqrtRatioAtTick;
    RatioEndpoints();
    if MIN_TICK < tick {
      RatioMonotone(MIN_TICK, tick);
    }
    if tick < MAX_TICK {
      RatioMonotone(tick, MAX_TICK);
    }
  }

  /** Admission survives every turn: the price never passes the limit. */
  lemma TurnAdmitted(c: Config, s: SwapState)
    requires Admitted(c, s) && Running(c, s) && TakeTurn(c, s).Success?
    ensures var n := TakeTurn(c, s).value;
            && Admitted(c, n.state)
            && n.state.price == n.step.price
            && (n.state.remaining, n.state.calculated) == Settle(c, s, n.step)
            && n.state.remaining == (if c.exactIn then s.remaining - n.step.amountIn - n.step.feeAmount
                                                  else s.remaining + n.step.amountOut)
  {
    hide TakeTurn, NextInitializedTick, ComputeSwapStep, SpecifiedSide, Settle, TickAtSqrtRatio, CrossLiquidity,
         NoProgress, PriceOf, PaidFor, Covered, FeeCharged;
    var found, initialized, step := TurnParts(c, s);
    var target := StepTarget(c, PriceOf(ClampTick(found)));
    SettledRemaining(c, s, step, target);
    PricePositiveAt(ClampTick(found));
  }

  // ---- Termination, on every tick map and amount ----

  function Measure(c: Config, s: SwapState): nat {
    if c.zeroForOne then Max(0, s.tick - MIN_TICK + 1)
    else 2 * Max(0, MAX_TICK - s.tick) + if s.price == PriceOf(ClampTick(s.tick)) then 0 else 1
  }

  /** The loop goes on only by crossing the tick it stepped to. */
  lemma GoesOnByCrossing(c: Config, s: SwapState) returns (found: int, initialized: bool)
    requires Admitted(c, s) && Running(c, s) && TakeTurn(c, s).Success? && Running(c, TakeTurn(c, s).value.state)
    ensures NextInitializedTick(c.ticks, s.tick, c.zeroForOne, c.search) == Success((found, initialized))
    ensures var tickNext, n := ClampTick(found), TakeTurn(c, s).value;
            && n.state.price == PriceOf(tickNext)
            && n.state.tick == (if c.zeroForOne then tickNext - 1 else tickNext)
            && (if c.zeroForOne then MIN_TICK < tickNext else tickNext < MAX_TICK)
            && 0 < s.price && !NoProgress(c, s, n.step, tickNext, PriceOf(tickNext))
            && ComputeSwapStep(s.price, StepTarget(c, PriceOf(tickNext)), s.liquidity, s.remaining, c.fee)
            == Success(n.step)
  {
    hide TakeTurn, NextInitializedTick, ComputeSwapStep, SpecifiedSide, Settle, TickAtSqrtRatio, CrossLiquidity,
         NoProgress, PriceOf, Sound;
    var step: Step;
    found, initialized, step := TurnParts(c, s);
    var tickNext := ClampTick(found);
    var target := StepTarget(c, PriceOf(tickNext));
    SettledRemaining(c, s, step, target);
    TurnAdmitted(c, s);
    assert step.price == target;
    EndPrices();
  }

  lemma EndPrices()
    ensures PriceOf(MIN_TICK) == MIN_SQRT_RATIO && PriceOf(MAX_TICK) == MAX_SQRT_RATIO
  {
    hide SqrtRatioAtTick;
    RatioEndpoints();
  }

  lemma TurnDecreases(c: Config, s: SwapState)
    requires Admitted(c, s) && Running(c, s) && TakeTurn(c, s).Success? && Running(c, TakeTurn(c, s).value.state)
    ensures Measure(c, TakeTurn(c, s).value.state) < Measure(c, s)
  {
    hide TakeTurn, NextInitializedTick, ComputeSwapStep, PriceOf;
    var found, initialized := GoesOnByCrossing(c, s);
    var tickNext := ClampTick(found);
    SearchBound(c.ticks, s.tick, c.zeroForOne, c.search);
    if !c.zeroForOne && tickNext <= s.tick {
      // the search found nothing ahead: from the tick's own price, the step would be a free one
      assert found == s.tick == tickNext;
      PricePositiveAt(tickNext);
      if s.price == PriceOf(tickNext) {
        FreeStep(s.price, s.price, s.liquidity, s.remaining, c.fee);
      }
    }
  }

  /** The state the loop leaves with. */
  function SwapRun(c: Config, s: SwapState): Result<SwapState>
    requires Admitted(c, s)
    decreases Measure(c, s)
  {
    if !Running(c, s) then Success(s)
    else
      var n :- TakeTurn(c, s);
      TurnAdmitted(c, s);
      if n.stop || !Running(c, n.state) then Success(n.state)
      else
        TurnDecreases(c, s);
        SwapRun(c, n.state)
  }

  /** The turns it takes on the way. */
  function SwapPath(c: Config, s: SwapState): (path: seq<Turn>)
    requires Admitted(c, s)
    decreases Measure(c, s)
  {
    if !Running(c, s) || TakeTurn(c, s).Failure? then []
    else
      var n := TakeTurn(c, s).value;
      TurnAdmitted(c, s);
      if n.stop || !Running(c, n.state) then [n]
      else
        TurnDecreases(c, s);
        [n] + SwapPath(c, n.state)
  }

  // ---- Any pool: what is conserved, and how a run ends ----

  /** Input and fee charged along a path. */
  function TakenIn(path: seq<Turn>): int {
    if path == [] then 0 else path[0].step.amountIn + path[0].step.feeAmount + TakenIn(path[1..])
  }

  /** Output paid along a path. */
  function PaidOut(path: seq<Turn>): int {
    if path == [] then 0 else path[0].step.amountOut + PaidOut(path[1..])
  }

  lemma PathOfOne(n: Turn)
    ensures TakenIn([n]) == n.step.amountIn + n.step.feeAmount && PaidOut([n]) == n.step.amountOut
  {
    assert [n][1..] == [];
  }

  /**
   * The specified side is what was moved plus what remains, of the same sign; the limit is not
   * passed; and the run ended with nothing remaining, at the limit, or with no liquidity.
   */
  predicate Conserved(c: Config, s: SwapState, path: seq<Turn>, end: SwapState) {
    && Admitted(c, end)
    && (if c.exactIn then 0 <= end.remaining && s.remaining == end.remaining + TakenIn(path)
        else end.remaining <= 0 && s.remaining == end.remaining - PaidOut(path))
    && (end.remaining == 0 || end.price == c.limit || end.liquidity == 0)
  }

  /** On every tick map, price, tick, liquidity and amount, a run that succeeds conserves the specified side. */
  lemma {:induction false} RunConserves(c: Config, s: SwapState)
    requires Admitted(c, s) && SwapRun(c, s).Success?
    ensures Conserved(c, s, SwapPath(c, s), SwapRun(c, s).value)
    decreases Measure(c, s)
  {
    hide TakeTurn, Measure, Settle;
    if Running(c, s) {
      TurnAdmitted(c, s);
      var n := TakeTurn(c, s).value;
      if n.stop || !Running(c, n.state) {
        if n.stop {
          StopsDry(c, s);
        }
        PathOfOne(n);
        assert SwapPath(c, s) == [n];
      } else {
        TurnDecreases(c, s);
        RunConserves(c, n.state);
        assert SwapPath(c, s)[1..] == SwapPath(c, n.state);
      }
    }
  }

  /** The loop is left early only with no liquidity. */
  lemma StopsDry(c: Config, s: SwapState)
    requires c.fee < MAX_FEE && TakeTurn(c, s).Success? && TakeTurn(c, s).value.stop
    ensures TakeTurn(c, s).value.state.liquidity == 0
  {
    hide NextInitializedTick, ComputeSwapStep, Settle, TickAtSqrtRatio, CrossLiquidity, SqrtRatioAtTick, NoProgress;
  }

  // ---- A pool whose ticks account for its liquidity ----

  /** Ticks where the pool may put them. */
  ghost predicate PoolTicks(c: Config) {
    Usable(c.ticks, c.search) && forall t | t in c.ticks :: MIN_TICK <= t <= MAX_TICK
  }

  /** The search has somewhere to go, or the step it falls back on is refused. */
  predicate TickAhead(c: Config, s: SwapState)
    requires MIN_TICK <= s.tick <= MAX_TICK
  {
    c.zeroForOne || c.search.WordBounded? || KeysAfter(c.ticks, s.tick) != {}
    || s.price == PriceOf(s.tick) || s.liquidity == 0
  }

  /** The tick brackets the price, and the liquidity is what the ticks at or below it add up to. */
  ghost predicate Consistent(c: Config, s: SwapState) {
    && MIN_TICK <= s.tick < MAX_TICK
    && PriceOf(s.tick) <= s.price <= PriceOf(s.tick + 1)
    && s.liquidity == NetUpTo(c.ticks, s.tick)
  }

  /** Price and tick in the trade direction, and the price not past the limit. */
  predicate Onward(c: Config, s: SwapState, n: SwapState) {
    if c.zeroForOne then c.limit <= n.price <= s.price && n.tick <= s.tick
    else s.price <= n.price <= c.limit && s.tick <= n.tick
  }

  /** The move of one turn: in the trade direction, not past the limit, and paid for. */
  ghost predicate FairTurn(c: Config, s: SwapState, n: Turn) {
    && Onward(c, s, n.state)
    && PaidFor(c.zeroForOne, s.price, n.state.price, s.liquidity, n.step.amountIn)
    && Covered(c.zeroForOne, s.price, n.state.price, s.liquidity, n.step.amountOut)
    && FeeCharged(n.step.amountIn, n.step.feeAmount, c.fee)
  }

  lemma PriceOrder(a: int, b: int)
    requires MIN_TICK <= a <= MAX_TICK && MIN_TICK <= b <= MAX_TICK
    ensures a < b <==> PriceOf(a) < PriceOf(b)
  {
    hide SqrtRatioAtTick;
    if a < b {
      RatioMonotone(a, b);
    } else if b < a {
      RatioMonotone(b, a);
    }
  }

  /** A map whose nets sum to zero always has a tick ahead of the liquidity it accounts for. */
  lemma CompleteHasTickAhead(c: Config, s: SwapState)
    requires Consistent(c, s) && SumNet(c.ticks, c.ticks.Keys) == 0
    ensures TickAhead(c, s)
  {
    if KeysAfter(c.ticks, s.tick) == {} {
      assert forall t | t in c.ticks :: t in KeysAfter(c.ticks, s.tick) || t <= s.tick;
      assert KeysUpTo(c.ticks, s.tick) == c.ticks.Keys;
    }
  }

  /** Where the search lands, clamped to the tick range: nothing initialized is skipped. */
  lemma SearchInPool(c: Config, s: SwapState) returns (found: int, initialized: bool)
    requires PoolTicks(c) && MIN_TICK <= s.tick < MAX_TICK
    ensures NextInitializedTick(c.ticks, s.tick, c.zeroForOne, c.search) == Success((found, initialized))
    ensures var tickNext := ClampTick(found);
            && (initialized <==> tickNext in c.ticks && !(tickNext == s.tick && !c.zeroForOne))
            && (if c.zeroForOne then tickNext <= s.tick && NoneBetween(c.ticks, tickNext, s.tick)
                else s.tick <= tickNext && NoneBetween(c.ticks, s.tick, tickNext - 1))
            && (!c.zeroForOne && tickNext == s.tick ==> !c.search.WordBounded? && KeysAfter(c.ticks, s.tick) == {})
  {
    hide NextInitializedTick;
    if c.zeroForOne {
      found, initialized := SearchDown(c.ticks, s.tick, c.search);
    } else {
      found, initialized := SearchUp(c.ticks, s.tick, c.search);
    }
  }

  /** With nothing ahead, a step that would be free is refused as no progress. */
  lemma FallbackRefused(c: Config, s: SwapState, found: int, initialized: bool)
    requires Admitted(c, s) && Running(c, s) && MIN_TICK <= s.tick <= MAX_TICK
    requires NextInitializedTick(c.ticks, s.tick, c.zeroForOne, c.search) == Success((found, initialized))
    requires !c.zeroForOne && ClampTick(found) == s.tick
    requires s.price == PriceOf(s.tick) || s.liquidity == 0
    ensures TakeTurn(c, s).Failure?
  {
    hide NextInitializedTick, ComputeSwapStep, Settle, Sound, SpecifiedSide, SqrtRatioAtTick, TakeTurn;
    if TakeTurn(c, s).Success? {
      var found, initialized, step := TurnParts(c, s);
      FreeStep(s.price, StepTarget(c, PriceOf(s.tick)), s.liquidity, s.remaining, c.fee);
    }
  }

  /** The step's target lies ahead: the search looks where the trade goes. */
  lemma TargetAhead(c: Config, s: SwapState) returns (found: int, initialized: bool)
    requires Admitted(c, s) && Running(c, s) && PoolTicks(c) && Consistent(c, s) && TickAhead(c, s)
    requires TakeTurn(c, s).Success?
    ensures NextInitializedTick(c.ticks, s.tick, c.zeroForOne, c.search) == Success((found, initialized))
    ensures var tickNext := ClampTick(found);
            && (initialized <==> tickNext in c.ticks)
            && (if c.zeroForOne then
                  tickNext <= s.tick && PriceOf(tickNext) <= s.price && NoneBetween(c.ticks, tickNext, s.tick)
                else
                  s.tick < tickNext && s.price <= PriceOf(tickNext) && NoneBetween(c.ticks, s.tick, tickNext - 1))
  {
    hide NextInitializedTick, TakeTurn, PriceOf;
    found, initialized := SearchInPool(c, s);
    var tickNext := ClampTick(found);
    if c.zeroForOne {
      PriceOrder(tickNext, s.tick);
      PriceOrder(s.tick, tickNext);
    } else {
      if tickNext == s.tick {
        FallbackRefused(c, s, found, initialized);
      }
      PriceOrder(tickNext, s.tick + 1);
    }
  }

  /** With no move, what is paid for and what is covered do not depend on the direction. */
  lemma StandsStill(price: int, liquidity: int, amountIn: int, amountOut: int)
    requires 0 < price && 0 <= amountIn
    ensures PaidFor(false, price, price, liquidity, amountIn) && PaidFor(true, price, price, liquidity, amountIn)
    ensures 0 <= amountOut && Covered(true, price, price, liquidity, amountOut)
        ==> Covered(false, price, price, liquidity, amountOut)
  {
    MulNonneg(amountIn, price);
    MulNonneg(price, amountIn * price);
    if amountOut == 0 {
      assert price * (amountOut * price) == 0;
    }
  }

  /**
   * An upward step aims behind the price exactly when an unbounded search finds no tick ahead and the
   * price is above its tick's own.
   */
  lemma UpwardTarget(c: Config, s: SwapState) returns (found: int, initialized: bool)
    requires Admitted(c, s) && !c.zeroForOne && Usable(c.ticks, c.search)
    requires MIN_TICK <= s.tick < MAX_TICK && PriceOf(s.tick) <= s.price <= PriceOf(s.tick + 1)
    ensures NextInitializedTick(c.ticks, s.tick, false, c.search) == Success((found, initialized))
    ensures s.price <= StepTarget(c, PriceOf(ClampTick(found)))
       <==> c.search.WordBounded? || KeysAfter(c.ticks, s.tick) != {} || s.price == PriceOf(s.tick)
  {
    hide NextInitializedTick, PriceOf;
    found, initialized := SearchUp(c.ticks, s.tick, c.search);
    PriceOrder(ClampTick(found), s.tick + 1);
  }

  lemma TurnFair(c: Config, s: SwapState, found: int, initialized: bool, step: Step)
    requires Admitted(c, s) && 0 < s.price
    requires var tickNext := ClampTick(found);
             var target := StepTarget(c, PriceOf(tickNext));
             && (if c.zeroForOne then PriceOf(tickNext) <= s.price else s.price <= PriceOf(tickNext))
             && Sound(s.price, target, s.liquidity, c.fee, step)
    ensures if c.zeroForOne then c.limit <= step.price <= s.price && PriceOf(ClampTick(found)) <= step.price
            else s.price <= step.price <= c.limit && step.price <= PriceOf(ClampTick(found))
    ensures PaidFor(c.zeroForOne, s.price, step.price, s.liquidity, step.amountIn)
    ensures Covered(c.zeroForOne, s.price, step.price, s.liquidity, step.amountOut)
    ensures FeeCharged(step.amountIn, step.feeAmount, c.fee)
  {
    hide PriceOf, PaidFor, Covered, FeeCharged;
    if s.price == StepTarget(c, PriceOf(ClampTick(found))) {
      StandsStill(s.price, s.liquidity, step.amountIn, step.amountOut);
    }
  }

  /** Crossing a tick: the liquidity changes by the tick's net, whichever way it is crossed. */
  lemma CrossingKeeps(c: Config, s: SwapState, tickNext: int, initialized: bool)
    requires Consistent(c, s) && MIN_TICK <= tickNext <= MAX_TICK && (initialized <==> tickNext in c.ticks)
    requires if c.zeroForOne then tickNext <= s.tick && NoneBetween(c.ticks, tickNext, s.tick)
             else s.tick < tickNext && NoneBetween(c.ticks, s.tick, tickNext - 1)
    requires CrossLiquidity(c, s, tickNext, initialized).Success?
    ensures CrossLiquidity(c, s, tickNext, initialized).value
         == NetUpTo(c.ticks, if c.zeroForOne then tickNext - 1 else tickNext)
  {
    hide PriceOf, NetUpTo;
    if c.zeroForOne {
      NetAcrossEmpty(c.ticks, tickNext, s.tick);
    } else {
      NetAcrossEmpty(c.ticks, s.tick, tickNext - 1);
    }
    if initialized {
      NetAcrossTick(c.ticks, tickNext);
    } else {
      NetAcrossEmpty(c.ticks, tickNext - 1, tickNext);
    }
  }

  /** Stopping short of the next tick: the tick of the price lies in the range just searched. */
  lemma StoppingKeeps(c: Config, s: SwapState, tickNext: int, price: U160) returns (tick: int)
    requires Consistent(c, s) && MIN_TICK <= tickNext <= MAX_TICK
    requires if c.zeroForOne then
               && tickNext <= s.tick && NoneBetween(c.ticks, tickNext, s.tick)
               && PriceOf(tickNext) < price < s.price
             else
               && s.tick < tickNext && NoneBetween(c.ticks, s.tick, tickNext - 1)
               && s.price < price < PriceOf(tickNext)
    ensures TickAtSqrtRatio(price) == Success(tick) && MIN_TICK <= tick < MAX_TICK
    ensures PriceOf(tick) <= price < PriceOf(tick + 1)
    ensures if c.zeroForOne then tickNext <= tick <= s.tick else s.tick <= tick < tickNext
    ensures NetUpTo(c.ticks, tick) == s.liquidity
  {
    hide PriceOf, NetUpTo, TickAtSqrtRatio;
    PricePositiveAt(s.tick);
    PricePositiveAt(s.tick + 1);
    PricePositiveAt(tickNext);
    tick := TickOfPrice(price);
    PriceOrder(tick, tickNext);
    PriceOrder(tickNext, tick + 1);
    PriceOrder(tick, s.tick + 1);
    PriceOrder(s.tick, tick + 1);
    if c.zeroForOne {
      NetAcrossEmpty(c.ticks, tick, s.tick);
    } else {
      NetAcrossEmpty(c.ticks, s.tick, tick);
    }
  }

  /** Every turn keeps a pool consistent and moves it fairly. */
  lemma TurnKeeps(c: Config, s: SwapState)
    requires Admitted(c, s) && Running(c, s) && PoolTicks(c) && Consistent(c, s) && TickAhead(c, s)
    requires TakeTurn(c, s).Success?
    ensures Consistent(c, TakeTurn(c, s).value.state) && FairTurn(c, s, TakeTurn(c, s).value)
    ensures Onward(c, s, TakeTurn(c, s).value.state)
  {
    hide TakeTurn, NextInitializedTick, ComputeSwapStep, SpecifiedSide, Settle, TickAtSqrtRatio, CrossLiquidity,
         NoProgress, PriceOf, PaidFor, Covered, FeeCharged, Sound, NetUpTo, PoolTicks;
    var found, initialized := TargetAhead(c, s);
    var _, _, step := TurnParts(c, s);
    var tickNext := ClampTick(found);
    TurnFair(c, s, found, initialized, step);
    TurnAdmitted(c, s);
    if step.price == PriceOf(tickNext) {
      EndPrices();
      CrossingKeeps(c, s, tickNext, initialized);
      if c.zeroForOne {
        PriceOrder(tickNext - 1, tickNext);
      } else {
        PriceOrder(tickNext, tickNext + 1);
      }
    } else if step.price != s.price {
      var tick := StoppingKeeps(c, s, tickNext, step.price);
    }
  }

  // ---- Whole runs ----

  /** Every state on the way is consistent, and every move fair. */
  ghost predicate FairPath(c: Config, s: SwapState, path: seq<Turn>)
    decreases path
  {
    path == [] || (
      && Consistent(c, path[0].state) && FairTurn(c, s, path[0])
      && FairPath(c, path[0].state, path[1..]))
  }

  /** No turn changes the calculated side by more than this. */
  const TURN_BOUND: int := (AMOUNT_BOUND + 1) * (MAX_FEE + 1)

  /** The calculated side stays far from the ends of a signed word. */
  predicate Room(c: Config, s: SwapState) {
    Max(s.calculated, 0 - s.calculated) + (Measure(c, s) + 1) * TURN_BOUND < Q255
  }

  /** What a turn adds to the calculated side, exactly. */
  function TurnCalculated(c: Config, step: Step): int {
    if c.exactIn then 0 - step.amountOut else step.amountIn + step.feeAmount
  }

  lemma TurnCost(c: Config, s: SwapState)
    requires Admitted(c, s) && Running(c, s) && PoolTicks(c) && Consistent(c, s) && TickAhead(c, s)
    requires TakeTurn(c, s).Success?
    ensures -TURN_BOUND <= TurnCalculated(c, TakeTurn(c, s).value.step) <= TURN_BOUND
  {
    hide TakeTurn, NextInitializedTick, ComputeSwapStep, SpecifiedSide, Settle, TickAtSqrtRatio, CrossLiquidity,
         NoProgress, PriceOf, PaidFor, Covered, FeeCharged, PoolTicks, Measure;
    var found, initialized, step := TurnParts(c, s);
    TurnAdmitted(c, s);
    TurnKeeps(c, s);
    var tickNext := ClampTick(found);
    PricePositiveAt(tickNext);
    PricePositiveAt(s.tick);
    var n := TakeTurn(c, s).value;
    PricePositiveAt(n.state.tick);
    if c.exactIn {
      MoveBounded(c.zeroForOne, s.price, step.price, s.liquidity, step.amountOut);
    } else {
      ExactOutCost(s.price, StepTarget(c, PriceOf(tickNext)), s.liquidity, s.remaining, c.fee);
    }
  }

  /** The calculated side of a turn, settled without wrapping. */
  lemma SettledCalculated(c: Config, s: SwapState, step: Step)
    requires 0 - Q255 <= s.calculated + TurnCalculated(c, step) < Q255
    ensures Settle(c, s, step).1 == s.calculated + TurnCalculated(c, step)
  {
    NoSignedWrap(s.calculated + TurnCalculated(c, step));
    hide WrapSigned;
  }

  lemma RoomForTurn(c: Config, s: SwapState)
    requires Admitted(c, s) && Running(c, s) && PoolTicks(c) && Consistent(c, s) && TickAhead(c, s)
    requires TakeTurn(c, s).Success?
    requires Room(c, s)
    ensures var n := TakeTurn(c, s).value;
            && n.state.calculated == s.calculated + TurnCalculated(c, n.step)
            && (Running(c, n.state) ==> Room(c, n.state))
  {
    hide TakeTurn, Consistent, PoolTicks, Settle, Measure, TurnCalculated;
    var n := TakeTurn(c, s).value;
    TurnAdmitted(c, s);
    TurnCost(c, s);
    SettledCalculated(c, s, n.step);
    if Running(c, n.state) {
      TurnDecreases(c, s);
      MulMono(Measure(c, n.state) + 2, Measure(c, s) + 1, TURN_BOUND);
    }
  }

  /** What a whole run owes its caller: the specified side conserved, and everything the pool adds to that. */
  ghost predicate RunCorrect(c: Config, s: SwapState, path: seq<Turn>, end: SwapState) {
    && Conserved(c, s, path, end)
    && Consistent(c, end) && FairPath(c, s, path)
    && Onward(c, s, end)
    && end.calculated == s.calculated + (if c.exactIn then 0 - PaidOut(path) else TakenIn(path))
  }

  /** A turn that goes on leaves a tick ahead again: it stands on the price of the tick it crossed. */
  lemma TickAheadKept(c: Config, s: SwapState)
    requires Admitted(c, s) && Running(c, s) && PoolTicks(c) && Consistent(c, s) && TickAhead(c, s)
    requires TakeTurn(c, s).Success? && Running(c, TakeTurn(c, s).value.state)
    ensures Consistent(c, TakeTurn(c, s).value.state) && TickAhead(c, TakeTurn(c, s).value.state)
  {
    hide TakeTurn, NextInitializedTick, ComputeSwapStep, PriceOf, NoProgress, PoolTicks;
    TurnKeeps(c, s);
    var found, initialized := GoesOnByCrossing(c, s);
  }

  /**
   * Every run of the loop over a consistent pool with a tick ahead: every state on the way is
   * consistent, the price only moves in the trade direction and never past the limit, both sides are
   * exact, and the run ends with the amount used up, the limit reached, or no liquidity left.
   */
  lemma {:induction false} RunKeeps(c: Config, s: SwapState)
    requires Admitted(c, s) && PoolTicks(c) && Consistent(c, s) && TickAhead(c, s) && Room(c, s)
    requires SwapRun(c, s).Success?
    ensures RunCorrect(c, s, SwapPath(c, s), SwapRun(c, s).value)
    decreases Measure(c, s)
  {
    hide TakeTurn, PoolTicks, FairTurn, Room, Measure, Conserved, TickAhead, PriceOf, NetUpTo;
    RunConserves(c, s);
    if Running(c, s) {
      TurnAdmitted(c, s);
      TurnKeeps(c, s);
      RoomForTurn(c, s);
      var n := TakeTurn(c, s).value;
      PathOfOne(n);
      if n.stop || !Running(c, n.state) {
        FairPathOfOne(c, s, n);
        assert SwapPath(c, s) == [n];
      } else {
        TurnDecreases(c, s);
        TickAheadKept(c, s);
        RunKeeps(c, n.state);
        assert SwapPath(c, s)[1..] == SwapPath(c, n.state);
      }
    }
  }

  lemma FairPathOfOne(c: Config, s: SwapState, n: Turn)
    requires Consistent(c, n.state) && FairTurn(c, s, n)
    ensures FairPath(c, s, [n])
  {
    hide Consistent, FairTurn;
    assert [n][1..] == [];
  }

  // ---- With no tick ahead ----

  /** The one turn that can succeed goes back to the tick's own price, or nowhere with the amount used up. */
  lemma TurnBehind(c: Config, s: SwapState)
    requires Admitted(c, s) && Running(c, s) && Usable(c.ticks, c.search) && MIN_TICK <= s.tick < MAX_TICK
    requires PriceOf(s.tick) <= s.price <= PriceOf(s.tick + 1) && !TickAhead(c, s) && TakeTurn(c, s).Success?
    ensures var n := TakeTurn(c, s).value;
            && PriceOf(s.tick) <= n.state.price <= s.price && (n.state.price == s.price ==> n.state.remaining == 0)
            && (n.stop || !Running(c, n.state) || TakeTurn(c, n.state).Failure?)
  {
    hide TakeTurn, NextInitializedTick, ComputeSwapStep, SpecifiedSide, Settle, TickAtSqrtRatio, CrossLiquidity,
         NoProgress, PriceOf, PaidFor, Covered, FeeCharged;
    var found, initialized := SearchUp(c.ticks, s.tick, c.search);
    var _, _, step := TurnParts(c, s);
    TurnAdmitted(c, s);
    SettledRemaining(c, s, step, StepTarget(c, PriceOf(s.tick)));
    var n := TakeTurn(c, s).value;
    if Running(c, n.state) {
      var _, _ := GoesOnByCrossing(c, s);
      FallbackRefused(c, n.state, found, initialized);
    }
  }

  /**
   * The converse of `RunKeeps`: with no tick ahead, an upward run that succeeds never moves the price
   * up, and leaves it where it was only by using the amount up.
   */
  lemma RunBehind(c: Config, s: SwapState)
    requires Admitted(c, s) && Running(c, s) && Usable(c.ticks, c.search) && MIN_TICK <= s.tick < MAX_TICK
    requires PriceOf(s.tick) <= s.price <= PriceOf(s.tick + 1) && !TickAhead(c, s) && SwapRun(c, s).Success?
    ensures var end := SwapRun(c, s).value;
            !c.zeroForOne && end.price <= s.price && (end.price == s.price ==> end.remaining == 0)
  {
    hide TakeTurn, PriceOf;
    TurnAdmitted(c, s);
    TurnBehind(c, s);
  }

  /** Such a pool: one tick below, one unit of liquidity, the price just above the tick's own. */
  const BEHIND := Config(0, map[0 := Tick(0, 1, 1)], NextInitialized, false, true, MAX_SQRT_RATIO - 1)

  const BEHIND_START := SwapState(1, 0, Q96 + 1, 0, 1)

  /** Selling token1 there lowers the price of token0. */
  lemma RunGoesBack()
    ensures Admitted(BEHIND, BEHIND_START) && PoolTicks(BEHIND) && Consistent(BEHIND, BEHIND_START)
    ensures !TickAhead(BEHIND, BEHIND_START)
    ensures SwapRun(BEHIND, BEHIND_START).Success? && SwapRun(BEHIND, BEHIND_START).value.price == Q96
  {
    var c, s := BEHIND, BEHIND_START;
    hide SqrtRatioAtTick, ComputeSwapStep, TickAtSqrtRatio, SumNet;
    PriceAtZero();
    PriceOrder(0, 1);
    NetOfOne(c.ticks);
    var found, initialized := SearchUp(c.ticks, 0, c.search);
    var step := BackStep();
    hide PriceOf, TakeTurn;
    BackTurn(step);
  }

  lemma PriceAtZero()
    ensures PriceOf(0) == Q96
  {
    AtZero();
    RatioValue(0);
    hide InverseRatio;
  }

  lemma NetOfOne(ticks: TickMap)
    requires ticks == map[0 := Tick(0, 1, 1)]
    ensures NetUpTo(ticks, 0) == 1 && KeysAfter(ticks, 0) == {}
  {
    assert KeysUpTo(ticks, 0) == {0};
    SumNetRemove(ticks, {0}, 0);
    assert {0} - {0} == {};
  }

  /** The step back: one unit in, and the price is the tick's. */
  lemma BackStep() returns (step: Step)
    ensures ComputeSwapStep(Q96 + 1, Q96, 1, 1, 0) == Success(step)
    ensures step.price == Q96 && step.amountIn == 1 && step.feeAmount == 0
  {
    hide ComputeSwapStep;
    ExactInReaches(Q96 + 1, Q96, 1, 1, 0);
    step := ComputeSwapStep(Q96 + 1, Q96, 1, 1, 0).value;
  }

  lemma BackTurn(step: Step)
    requires PriceOf(0) == Q96 && ComputeSwapStep(Q96 + 1, Q96, 1, 1, 0) == Success(step)
    requires step.price == Q96 && step.amountIn == 1 && step.feeAmount == 0
    ensures var n := TakeTurn(BEHIND, BEHIND_START);
            n.Success? && n.value.state.price == Q96 && n.value.state.remaining == 0
  {
    var c, s := BEHIND, BEHIND_START;
    NoSignedWrap(0);
    RatioOfPrice(0);
    assert KeysAfter(c.ticks, 0) == {};
    hide SqrtRatioAtTick, ComputeSwapStep, TickAtSqrtRatio, PriceOf, WrapSigned;
  }

  lemma RatioOfPrice(tick: int)
    requires MIN_TICK <= tick <= MAX_TICK
    ensures SqrtRatioAtTick(tick) == Success(PriceOf(tick))
  {
    RatioValue(tick);
  }

  // ---- The function itself ----

  /** The default limit is one unit inside the price range. */
  function LimitOr(limit: Option<U160>, zeroForOne: bool): U160 {
    match limit
    case Some(price) => price
    case None => if zeroForOne then MIN_SQRT_RATIO + 1 else MAX_SQRT_RATIO - 1
  }

  function EntryCheck(price: U160, limit: U160, zeroForOne: bool): Option<string> {
    if zeroForOne then
      if limit <= MIN_SQRT_RATIO then Some("RATIO_MIN")
      else if price <= limit then Some("RATIO_CURRENT")
      else None
    else
      if MAX_SQRT_RATIO <= limit then Some("RATIO_MAX")
      else if limit <= price then Some("RATIO_CURRENT")
      else None
  }

  function SwapConfig(fee: nat, ticks: TickMap, search: TickSearch, zeroForOne: bool, amount: I256, limit: Option<U160>)
    : Config
  {
    Config(fee, ticks, search, zeroForOne, amount >= 0, LimitOr(limit, zeroForOne))
  }

  function SwapFrom(price: U160, tick: int, liquidity: U128, amount: I256): SwapState {
    SwapState(amount, 0, price, tick, liquidity)
  }

  /** The body of the loop, updating the state field by field. */
  method RunTurn(c: Config, s: SwapState) returns (r: Result<Turn>)
    requires c.fee < MAX_FEE
    ensures r == TakeTurn(c, s)
  {
    hide ComputeSwapStep, SqrtRatioAtTick, TickAtSqrtRatio, NextInitializedTick;
    var state, stop := s, false;
    var next :- NextInitializedTick(c.ticks, state.tick, c.zeroForOne, c.search);
    var (found, initialized) := next;
    var tickNext := ClampTick(found);
    var priceNext :- GetSqrtRatioAtTick(tickNext);
    var step :- ComputeSwapStep(state.price, StepTarget(c, priceNext), state.liquidity, state.remaining, c.fee);
    state := state.(price := step.price);
    if c.exactIn {
      state := state.(remaining := WrapSigned(state.remaining - step.amountIn - step.feeAmount));
      state := state.(calculated := WrapSigned(state.calculated - step.amountOut));
    } else {
      state := state.(remaining := WrapSigned(state.remaining + step.amountOut));
      state := state.(calculated := WrapSigned(state.calculated + step.amountIn + step.feeAmount));
    }
    if step.amountIn == 0 && step.amountOut == 0 && step.feeAmount == 0 &&
       (state.price != priceNext || (!c.zeroForOne && tickNext <= state.tick)) {
      return Failure("v3_swap: no progress");
    }
    if state.price == priceNext {
      if initialized {
        var t :- GetTick(c.ticks, tickNext);
        var net := if c.zeroForOne then -t.liquidityNet else t.liquidityNet;
        var liquidity :- AddDelta(state.liquidity, net);
        state := state.(liquidity := liquidity);
      }
      state := state.(tick := if c.zeroForOne then tickNext - 1 else tickNext);
      stop := state.liquidity == 0;
    } else if state.price != s.price {
      var tick :- GetTickAtSqrtRatio(state.price);
      state := state.(tick := tick);
    }
    return Success(Turn(state, step, stop));
  }

  /**
   * `v3_swap`. It returns on every tick map, price, tick, liquidity and amount, and an Ok result
   * conserves the specified side. From a consistent pool it is that of a correct run if there is a
   * tick ahead, and with none it never raises the price.
   */
  method V3Swap(fee: nat, price: U160, tick: int, liquidity: U128, ticks: TickMap, search: TickSearch,
                zeroForOne: bool, amount: I256, limit: Option<U160>)
    returns (r: Result<SwapState>)
    requires fee < MAX_FEE
    ensures var c := SwapConfig(fee, ticks, search, zeroForOne, amount, limit);
            var s := SwapFrom(price, tick, liquidity, amount);
            var refused := EntryCheck(price, c.limit, zeroForOne);
            && (refused.Some? ==> r == Failure(refused.value))
            && (refused.None? ==> Admitted(c, s) && r == SwapRun(c, s))
            && (r.Success? ==> Conserved(c, s, SwapPath(c, s), r.value))
            && (r.Success? && PoolTicks(c) && Consistent(c, s) ==>
                  if TickAhead(c, s) then RunCorrect(c, s, SwapPath(c, s), r.value) else r.value.price <= price)
  {
    var c := SwapConfig(fee, ticks, search, zeroForOne, amount, limit);
    var refused := EntryCheck(price, c.limit, zeroForOne);
    if refused.Some? {
      return Failure(refused.value);
    }
    var state := SwapFrom(price, tick, liquidity, amount);
    ghost var s := state;
    r := RunLoop(c, state);
    if r.Success? {
      RunConserves(c, s);
      if PoolTicks(c) && Consistent(c, s) {
        SwapOutcome(c, s);
      }
    }
  }

  lemma SwapOutcome(c: Config, s: SwapState)
    requires Admitted(c, s) && PoolTicks(c) && Consistent(c, s) && s.calculated == 0 && SwapRun(c, s).Success?
    ensures if TickAhead(c, s) then RunCorrect(c, s, SwapPath(c, s), SwapRun(c, s).value)
            else SwapRun(c, s).value.price <= s.price
  {
    hide SwapPath, RunCorrect, TickAhead;
    FirstRoom(c, s);
    if TickAhead(c, s) {
      RunKeeps(c, s);
    } else if Running(c, s) {
      RunBehind(c, s);
    }
  }

  method RunLoop(c: Config, s: SwapState) returns (r: Result<SwapState>)
    requires Admitted(c, s)
    ensures r == SwapRun(c, s)
  {
    hide TakeTurn, Admitted, Measure;
    FeeBelow(c, s);
    var state := s;
    while state.remaining != 0 && state.price != c.limit
      invariant Admitted(c, state) && SwapRun(c, state) == SwapRun(c, s)
      decreases if Running(c, state) then Measure(c, state) + 1 else 0
    {
      var n :- RunTurn(c, state);
      TurnAdmitted(c, state);
      if Running(c, n.state) {
        TurnDecreases(c, state);
      }
      state := n.state;
      if n.stop {
        break;
      }
    }
    return Success(state);
  }

  lemma FeeBelow(c: Config, s: SwapState)
    requires Admitted(c, s)
    ensures c.fee < MAX_FEE
  {
  }

  /** From a zero start there is room for every turn a run can take. */
  lemma FirstRoom(c: Config, s: SwapState)
    requires MIN_TICK <= s.tick < MAX_TICK && s.calculated == 0
    ensures Room(c, s)
  {
    hide PriceOf;
    MulMono(Measure(c, s) + 1, 0x1000000, TURN_BOUND);
  }
}

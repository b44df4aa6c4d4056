// src/v3/sqrt_price_math.rs: price moves and token amounts with directed rounding.
module SqrtPriceMath {
  import opened Results
  import opened Arith
  import opened Words
  import opened FullMath

  const U160_MAX: U256 := Q160 - 1

  /** `Uint::from`, which panics on a value that does not fit. */
  function FromWord(x: U256): Result<U160> {
    if x < Q160 then Success(x) else Failure("panic: value too large for U160")
  }

  /** `Uint::uint_try_from`. */
  function TryFromWord(x: U256): Result<U160> {
    if x < Q160 then Success(x) else Failure("SafeCastToU160Overflow")
  }

  function DivCeil(a: U256, b: U256): Result<U256> {
    if b == 0 then Failure("panic: division by zero")
    else
      CeilRange(a, b);
      Success(CeilDiv(a, b))
  }

  lemma ShiftFitsWord(liquidity: U128)
    ensures 0 <= liquidity * Q96 < WORD
  {
  }

  function Numerator1(liquidity: U128): U256 {
    ShiftFitsWord(liquidity);
    liquidity * Q96
  }

  function NextPriceFromAmount0(price: U160, liquidity: U128, amount: U256, add: bool): Result<U160> {
    if amount == 0 then Success(price)
    else
      var numerator1 := Numerator1(liquidity);
      var product := Wrap(amount * price);
      if add then
        var denominator := Wrap(numerator1 + product);
        if product / amount == price && denominator >= numerator1 then
          var next :- MulDivRoundingUp(numerator1, price, denominator);
          FromWord(next)
        else
          var next :- if price == 0 then Failure("panic: division by zero")
                      else DivCeil(numerator1, Wrap(numerator1 / price + amount));
          FromWord(next)
      else if !(product / amount == price && numerator1 > product) then
        Failure("Price overflow")
      else
        var next :- MulDivRoundingUp(numerator1, price, numerator1 - product);
        TryFromWord(next)
  }

  /** floor or ceil of `amount * 2^96 / liquidity`, by a shift when the amount is narrow. */
  function Amount1Quotient(liquidity: U128, amount: U256, roundUp: bool): Result<U256> {
    if amount <= U160_MAX then
      if liquidity == 0 then Failure("panic: division by zero")
      else if roundUp then DivCeil(amount * Q96, liquidity)
      else
        DivRange(amount * Q96, liquidity);
        Success(amount * Q96 / liquidity)
    else if roundUp then MulDivRoundingUp(amount, Q96, liquidity)
    else FloorMulDiv(amount, Q96, liquidity)
  }

  function NextPriceFromAmount1(price: U160, liquidity: U128, amount: U256, add: bool): Result<U160> {
    var quotient :- Amount1Quotient(liquidity, amount, !add);
    if add then TryFromWord(Wrap(price + quotient))
    else if price > quotient then Success(price - quotient)
    else Failure("Insufficient liquidity")
  }

  function NextPriceFromInput(price: U160, liquidity: U128, amountIn: U256, zeroForOne: bool): Result<U160> {
    if price == 0 || liquidity == 0 then Failure("Invalid price or liquidity")
    else if zeroForOne then NextPriceFromAmount0(price, liquidity, amountIn, true)
    else NextPriceFromAmount1(price, liquidity, amountIn, true)
  }

  function NextPriceFromOutput(price: U160, liquidity: U128, amountOut: U256, zeroForOne: bool): Result<U160> {
    if price == 0 || liquidity == 0 then Failure("Invalid price or liquidity")
    else if zeroForOne then NextPriceFromAmount1(price, liquidity, amountOut, false)
    else NextPriceFromAmount0(price, liquidity, amountOut, false)
  }

  function Amount0Delta(ratioA: U160, ratioB: U160, liquidity: U128, roundUp: bool): Result<U256> {
    var (a, b) := if ratioA > ratioB then (ratioB, ratioA) else (ratioA, ratioB);
    if a == 0 then Failure("Invalid price")
    else if roundUp then
      var x :- MulDivRoundingUp(Numerator1(liquidity), b - a, b);
      DivCeil(x, a)
    else
      var x :- FloorMulDiv(Numerator1(liquidity), b - a, b);
      DivRange(x, a);
      Success(x / a)
  }

  function Amount1Delta(ratioA: U160, ratioB: U160, liquidity: U128, roundUp: bool): Result<U256> {
    var (a, b) := if ratioA > ratioB then (ratioB, ratioA) else (ratioA, ratioB);
    var amount1 :- MulDivQ96(liquidity, b - a);
    Success(Wrap(amount1 + if liquidity * (b - a) % Q96 > 0 && roundUp then 1 else 0))
  }

  // ---- What the code answers, as relations ----

  predicate InputMoves(price: U160, liquidity: U128, amount: U256, zeroForOne: bool, r: Result<U160>) {
    r == NextPriceFromInput(price, liquidity, amount, zeroForOne)
  }

  predicate OutputMoves(price: U160, liquidity: U128, amount: U256, zeroForOne: bool, r: Result<U160>) {
    r == NextPriceFromOutput(price, liquidity, amount, zeroForOne)
  }

  predicate Amount0Moves(price: U160, liquidity: U128, amount: U256, add: bool, r: Result<U160>) {
    r == NextPriceFromAmount0(price, liquidity, amount, add)
  }

  predicate Amount0Spans(a: U160, b: U160, liquidity: U128, roundUp: bool, v: U256) {
    Amount0Delta(a, b, liquidity, roundUp) == Success(v) == Amount0Delta(b, a, liquidity, roundUp)
  }

  predicate Amount1Spans(a: U160, b: U160, liquidity: U128, roundUp: bool, v: U256) {
    Amount1Delta(a, b, liquidity, roundUp) == Success(v) == Amount1Delta(b, a, liquidity, roundUp)
  }

  // ---- Overflow checks by division ----

  /** `(x * y mod m) / x == y` detects exactly the products that do not wrap. */
  lemma WrapDetected(x: int, y: int, m: int)
    requires 0 < x < m && 0 <= y
    ensures (x * y % m) / x == y <==> x * y < m
  {
    MulNonneg(x, y);
    if x * y < m {
      ModUnique(x * y, m, 0, x * y);
      DivUnique(x * y, x, y);
    } else {
      var w := x * y % m;
      DivGe(x * y, m, 1);
      DivBounds(x * y, m);
      MulMono(1, x * y / m, m);
      assert w <= x * y - m;
      DivGe(w, x, y);
    }
  }

  // ---- Token amounts: one rounding of one fraction ----

  lemma NestedCeil(n: int, b: int, a: int, x: int)
    requires 0 < a && 0 < b
    ensures CeilDiv(CeilDiv(n, b), a) <= x <==> n <= x * (a * b)
  {
    CeilLe(CeilDiv(n, b), a, x);
    CeilLe(n, b, x * a);
    assert x * a * b == x * (a * b);
  }

  lemma NestedFloor(n: int, b: int, a: int, x: int)
    requires 0 < a && 0 < b
    ensures x <= n / b / a <==> x * (a * b) <= n
  {
    DivGe(n / b, a, x);
    DivGe(n, b, x * a);
    assert x * a * b == x * (a * b);
  }

  lemma FractionFits(n: int, d: int, b: int)
    requires 0 <= n && 0 <= d <= b && 0 < b
    ensures 0 <= n * d && CeilDiv(n * d, b) <= n && 0 <= n * d / b <= n
  {
    MulNonneg(n, d);
    MulMono(d, b, n);
    CeilLe(n * d, b, n);
    DivGe(n * d, b, 0);
    DivBounds(n * d, b);
    MulCancel(n * d / b, n, b);
  }

  /** Rounded up, amount0 is the least x with x * a * b >= L * 2^96 * (b - a); never a failure. */
  lemma Amount0Up(a: U160, b: U160, liquidity: U128, x: int)
    requires 0 < a <= b
    ensures exists v: U256 :: Amount0Spans(a, b, liquidity, true, v)
                        && (v <= x <==> Numerator1(liquidity) * (b - a) <= x * (a * b))
  {
    var n := Numerator1(liquidity);
    FractionFits(n, b - a, b);
    RoundingUpIsCeiling(n, b - a, b);
    NestedCeil(n * (b - a), b, a, x);
    assert Amount0Spans(a, b, liquidity, true, Amount0Delta(a, b, liquidity, true).value);
  }

  /** Rounded down, amount0 is the greatest such x with `<=`; never a failure. */
  lemma Amount0Down(a: U160, b: U160, liquidity: U128, x: int)
    requires 0 < a <= b
    ensures exists v: U256 :: Amount0Spans(a, b, liquidity, false, v)
                        && (x <= v <==> x * (a * b) <= Numerator1(liquidity) * (b - a))
  {
    var n := Numerator1(liquidity);
    FractionFits(n, b - a, b);
    NestedFloor(n * (b - a), b, a, x);
    assert Amount0Spans(a, b, liquidity, false, Amount0Delta(a, b, liquidity, false).value);
  }

  lemma Amount1Fits(liquidity: int, d: int)
    requires 0 <= liquidity < Q128 && 0 <= d < Q160
    ensures 0 <= liquidity * d / Q96 < Q128 * 0x1_0000000000000000
  {
    MulMono(liquidity, Q128, d);
    MulMono(d, Q160, Q128);
    MulNonneg(liquidity, d);
  }

  lemma CeilByCarry(n: int, d: int)
    requires 0 < d
    ensures CeilDiv(n, d) == n / d + if n % d > 0 then 1 else 0
  {
  }

  /** Amount1 in one division, up or down, without failure or wrapping. */
  lemma Amount1Value(a: U160, b: U160, liquidity: U128, roundUp: bool)
    requires a <= b
    ensures exists v: U256 :: Amount1Spans(a, b, liquidity, roundUp, v)
              && v == if roundUp then CeilDiv(liquidity * (b - a), Q96) else liquidity * (b - a) / Q96
  {
    hide MulDivQ96, CeilDiv;
    Q96IsFloor(liquidity, b - a);
    Amount1Fits(liquidity, b - a);
    CeilByCarry(liquidity * (b - a), Q96);
    assert Amount1Spans(a, b, liquidity, roundUp, Amount1Delta(a, b, liquidity, roundUp).value);
  }

  // ---- Price moves ----
  //
  // A move of token0 from `price` to `next` with virtual reserves n = L * 2^96 is exactly
  // paid for by `amount` when  n * (price - next) == amount * price * next.  Below,
  // m == amount * price.

  lemma Expand(x: int, n: int, m: int)
    ensures x * (n + m) == x * n + x * m
  {
  }

  lemma Reassociate(x: int, y: int, z: int)
    ensures x * (y * z) == y * (x * z) == (x * z) * y
  {
  }

  /** The exact path of the token0 move: denominator n + m. The move is paid for. */
  lemma Add0Exact(price: int, n: int, m: int, next: int)
    requires 0 < price && 0 < n && 0 <= m
    requires next == CeilDiv(n * price, n + m)
    ensures 0 < next <= price
    ensures n * (price - next) <= next * m
  {
    var d := n + m;
    MulStrict(0, n, price);
    CeilBounds(n * price, d);
    Expand(price, n, m);
    MulNonneg(price, m);
    CeilLe(n * price, d, price);
    MulCancelStrict(0, next, d);
    Expand(next, n, m);
    Expand(n, price, -next);
  }

  /** No price that a larger payment would be needed for is passed. */
  lemma Add0ExactStops(price: int, n: int, m: int, next: int, target: int)
    requires 0 < price && 0 < n && 0 <= m
    requires next == CeilDiv(n * price, n + m)
    requires target * m <= n * (price - target)
    ensures target <= next
  {
    CeilBounds(n * price, n + m);
    Expand(target, n, m);
    Expand(n, price, -target);
    MulCancel(target, next, n + m);
  }

  /** The fallback path: denominator n / price + amount, when the exact one would not fit. */
  lemma Add0Fallback(price: int, n: int, amount: int, next: int)
    requires 0 < price && 0 < n && 0 < amount && 0 <= n / price
    requires next == CeilDiv(n, n / price + amount)
    ensures 0 < next <= price
    ensures n * (price - next) <= next * (amount * price)
  {
    var q := n / price;
    var d := q + amount;
    DivBounds(n, price);
    CeilBounds(n, d);
    Expand(price, q, amount);
    MulMono(1, amount, price);
    CeilLe(n, d, price);
    MulCancelStrict(0, next, d);
    MulMono(n, next * d, price);
    Reassociate(next, d, price);
    Expand(price, q, amount);
    Expand(next, q * price, amount * price);
    MulMono(q * price, n, next);
    Expand(n, price, -next);
  }

  lemma Add0FallbackStops(price: int, n: int, amount: int, next: int, target: int)
    requires 0 < price && 0 < n && 0 < amount && 0 <= n / price && 0 <= target
    requires next == CeilDiv(n, n / price + amount)
    requires target * (amount * price) <= n * (price - target)
    ensures target <= next
  {
    var q := n / price;
    var d := q + amount;
    DivBounds(n, price);
    CeilBounds(n, d);
    Reassociate(target, d, price);
    Expand(price, q, amount);
    Expand(target, q * price, amount * price);
    MulMono(q * price, n, target);
    Expand(n, price, -target);
    MulCancel(target * d, n, price);
    MulCancel(target, next, d);
  }

  /** The token0 removal: denominator n - m. What leaves is at most what the move frees. */
  lemma Remove0Exact(price: int, n: int, m: int, next: int)
    requires 0 < price && 0 < n && 0 <= m < n
    requires next == CeilDiv(n * price, n - m)
    ensures price <= next
    ensures next * m <= n * (next - price)
  {
    CeilBounds(n * price, n - m);
    Expand(price, n, -m);
    MulNonneg(price, m);
    MulCancel(price, next, n - m);
    Expand(next, n, -m);
    Expand(n, next, -price);
  }

  lemma Remove0ExactStops(price: int, n: int, m: int, next: int, target: int)
    requires 0 < price && 0 < n && 0 <= m < n
    requires next == CeilDiv(n * price, n - m)
    requires target * m <= n * (target - price)
    ensures next <= target
  {
    Expand(target, n, -m);
    Expand(n, target, -price);
    CeilLe(n * price, n - m, target);
  }

  /** On the exact path the code computes ceil(n * price / (n + m)). */
  lemma Add0TakesExactPath(price: U160, liquidity: U128, amount: U256, m: int, next: int)
    requires 0 < liquidity && 0 < amount && m == amount * price && 0 <= m
    requires Numerator1(liquidity) + m < WORD
    requires next == CeilDiv(Numerator1(liquidity) * price, Numerator1(liquidity) + m)
    requires 0 <= next < Q160
    ensures exists r: Result<U160> :: Amount0Moves(price, liquidity, amount, true, r) && r == Success(next)
  {
    var n := Numerator1(liquidity);
    WrapDetected(amount, price, WORD);
    RoundingUpIsCeiling(n, price, n + m);
    hide MulDivRoundingUp, CeilDiv;
    ModUnique(m, WORD, 0, m);
    ModUnique(n + m, WORD, 0, n + m);
    assert Amount0Moves(price, liquidity, amount, true, NextPriceFromAmount0(price, liquidity, amount, true));
  }

  /** Where that would wrap, it computes ceil(n / (n / price + amount)), in a sum that wraps in turn. */
  lemma Add0IsFallback(price: U160, liquidity: U128, amount: U256, m: int)
    requires 0 < price && 0 < liquidity && 0 < amount && m == amount * price && 0 <= m
    requires Numerator1(liquidity) + m >= WORD
    ensures exists r: Result<U160> ::
              && Amount0Moves(price, liquidity, amount, true, r)
              && (var next := DivCeil(Numerator1(liquidity), Wrap(Numerator1(liquidity) / price + amount));
                  r == if next.Success? then FromWord(next.value) else Failure(next.error))
  {
    var n := Numerator1(liquidity);
    WrapDetected(amount, price, WORD);
    hide MulDivRoundingUp, CeilDiv, DivCeil;
    if m < WORD {
      ModUnique(m, WORD, 0, m);
      ModUnique(n + m, WORD, 1, n + m - WORD);
    }
    assert Amount0Moves(price, liquidity, amount, true, NextPriceFromAmount0(price, liquidity, amount, true));
  }

  lemma Add0TakesFallback(price: U160, liquidity: U128, amount: U256, m: int, next: int)
    requires 0 < price && 0 < liquidity && 0 < amount && m == amount * price && 0 <= m
    requires Numerator1(liquidity) + m >= WORD
    requires 0 <= Numerator1(liquidity) / price && Numerator1(liquidity) / price + amount < WORD
    requires next == CeilDiv(Numerator1(liquidity), Numerator1(liquidity) / price + amount)
    requires 0 <= next < Q160
    ensures exists r: Result<U160> :: Amount0Moves(price, liquidity, amount, true, r) && r == Success(next)
  {
    var q := Numerator1(liquidity) / price;
    Add0IsFallback(price, liquidity, amount, m);
    ModUnique(q + amount, WORD, 0, q + amount);
    hide CeilDiv, NextPriceFromAmount0;
  }

  /**
   * Paying `amount` of token0 into a price that needs at least that much to reach `target`:
   * the new price stays between the two, and what was paid covers the move, on the exact
   * path and on the overflow fallback alike.
   */
  lemma InputToken0(price: U160, liquidity: U128, amount: U256, target: U160)
    requires 0 < target <= price && 0 < liquidity
    requires target * (amount * price) <= Numerator1(liquidity) * (price - target)
    ensures exists next: U160 :: InputMoves(price, liquidity, amount, true, Success(next)) && target <= next <= price
                           && Numerator1(liquidity) * (price - next) <= next * (amount * price)
  {
    hide CeilDiv, NextPriceFromAmount0;
    var n, m := Numerator1(liquidity), amount * price;
    MulNonneg(amount, price);
    var next: U160 := price;
    if amount == 0 {
      ZeroAmount0(price, liquidity, true);
    } else if n + m < WORD {
      var c := CeilDiv(n * price, n + m);
      Add0Exact(price, n, m, c);
      Add0ExactStops(price, n, m, c, target);
      next := c;
      Add0TakesExactPath(price, liquidity, amount, m, next);
    } else {
      DivRange(n, price);
      var c := CeilDiv(n, n / price + amount);
      Add0Fallback(price, n, amount, c);
      Add0FallbackStops(price, n, amount, c, target);
      LessThanVirtual(n, amount, price, target);
      next := c;
      Add0TakesFallback(price, liquidity, amount, m, next);
    }
    assert InputMoves(price, liquidity, amount, true, Success(next));
  }

  /** An input that does not pay for a target is less than the liquidity's own token0. */
  lemma LessThanVirtual(n: int, amount: int, price: int, target: int)
    requires 0 < target <= price && 0 <= n && 0 <= amount && target * (amount * price) <= n * (price - target)
    ensures amount <= n && 0 <= n / price <= n
  {
    MulNonneg(amount, price);
    MulMono(1, target, amount * price);
    MulMono(price - target, price, n);
    MulCancel(amount, n, price);
    DivRange(n, price);
  }

  /**
   * A token0 input in general: the price is one that did not go up exactly when the fallback's sum
   * fits a word; past that the sum wraps, and the answer is an error or a price above the one before.
   */
  lemma Token0InputOutcome(price: U160, liquidity: U128, amount: U256)
    requires 0 < price && 0 < liquidity
    ensures exists r: Result<U160> :: InputMoves(price, liquidity, amount, true, r)
                        && (r.Success? && r.value <= price <==> Numerator1(liquidity) / price + amount < WORD)
  {
    hide CeilDiv, NextPriceFromAmount0;
    var n, m := Numerator1(liquidity), amount * price;
    MulNonneg(amount, price);
    DivRange(n, price);
    MulMono(1, price, amount);
    if amount == 0 {
      ZeroAmount0(price, liquidity, true);
    } else if n + m < WORD {
      var c := CeilDiv(n * price, n + m);
      Add0Exact(price, n, m, c);
      Add0TakesExactPath(price, liquidity, amount, m, c);
    } else if n / price + amount < WORD {
      var c := CeilDiv(n, n / price + amount);
      Add0Fallback(price, n, amount, c);
      Add0TakesFallback(price, liquidity, amount, m, c);
    } else {
      Add0IsFallback(price, liquidity, amount, m);
      WrappedFallback(price, n, amount);
    }
    assert InputMoves(price, liquidity, amount, true, NextPriceFromInput(price, liquidity, amount, true));
  }

  lemma WrappedFallback(price: U160, n: U256, amount: U256)
    requires 0 < price && 0 <= n / price && WORD <= n / price + amount
    ensures var next := DivCeil(n, Wrap(n / price + amount)); next.Success? ==> price < next.value
  {
    var w := n / price + amount - WORD;
    ModUnique(n / price + amount, WORD, 1, w);
    DivBounds(n, price);
    if w != 0 {
      MulMono(w + 1, n / price, price);
      CeilLe(n, w, price);
    }
    hide CeilDiv;
  }

  lemma ZeroAmount0(price: U160, liquidity: U128, add: bool)
    ensures NextPriceFromAmount0(price, liquidity, 0, add) == Success(price)
  {
  }

  lemma Remove0Computes(price: U160, liquidity: U128, amount: U256, m: int, next: int)
    requires 0 < liquidity && 0 < amount && m == amount * price && 0 <= m < Numerator1(liquidity)
    requires next == CeilDiv(Numerator1(liquidity) * price, Numerator1(liquidity) - m)
    requires 0 <= next < Q160
    ensures exists r: Result<U160> :: Amount0Moves(price, liquidity, amount, false, r) && r == Success(next)
  {
    var n := Numerator1(liquidity);
    WrapDetected(amount, price, WORD);
    RoundingUpIsCeiling(n, price, n - m);
    hide MulDivRoundingUp, CeilDiv;
    ModUnique(m, WORD, 0, m);
    assert Amount0Moves(price, liquidity, amount, false, NextPriceFromAmount0(price, liquidity, amount, false));
  }

  /** Taking `amount` of token0 out, when a move to `target` would free at least that much. */
  lemma OutputToken0(price: U160, liquidity: U128, amount: U256, target: U160)
    requires 0 < price <= target && 0 < liquidity
    requires target * (amount * price) <= Numerator1(liquidity) * (target - price)
    ensures exists next: U160 :: OutputMoves(price, liquidity, amount, false, Success(next)) && price <= next <= target
                           && next * (amount * price) <= Numerator1(liquidity) * (next - price)
  {
    hide CeilDiv, NextPriceFromAmount0;
    var n, m := Numerator1(liquidity), amount * price;
    MulNonneg(amount, price);
    var next: U160 := price;
    if amount == 0 {
      ZeroAmount0(price, liquidity, false);
    } else {
      SmallerThanVirtual(n, m, price, target);
      var c := CeilDiv(n * price, n - m);
      Remove0Exact(price, n, m, c);
      Remove0ExactStops(price, n, m, c, target);
      next := c;
      Remove0Computes(price, liquidity, amount, m, next);
    }
    assert OutputMoves(price, liquidity, amount, false, Success(next));
  }

  lemma SmallerThanVirtual(n: int, m: int, price: int, target: int)
    requires 0 < price <= target && 0 < n && target * m <= n * (target - price)
    ensures m < n
  {
    MulStrict(target - price, target, n);
    MulCancelStrict(m, n, target);
  }

  /** Both widths of the token1 quotient are the one rounded quotient. */
  lemma Amount1QuotientValue(liquidity: U128, amount: U256, roundUp: bool, q: int)
    requires 0 < liquidity && q < WORD
    requires q == if roundUp then CeilDiv(amount * Q96, liquidity) else amount * Q96 / liquidity
    ensures Amount1Quotient(liquidity, amount, roundUp) == Success(q)
  {
    RoundingUpIsCeiling(amount, Q96, liquidity);
  }

  lemma FloorMove(n: int, l: int, d: int) returns (q: int)
    requires 0 <= n <= l * d && 0 < l
    ensures q == n / l && 0 <= q <= d && l * q <= n
  {
    q := n / l;
    DivRange(n, l);
    DivBounds(n, l);
    MulCancel(q, d, l);
  }

  /** Paying `amount` of token1 in. */
  lemma InputToken1(price: U160, liquidity: U128, amount: U256, target: U160)
    requires 0 < price <= target && 0 < liquidity
    requires amount * Q96 <= liquidity * (target - price)
    ensures exists next: U160 :: InputMoves(price, liquidity, amount, false, Success(next)) && price <= next <= target
                           && liquidity * (next - price) <= amount * Q96
  {
    var q := FloorMove(amount * Q96, liquidity, target - price);
    Amount1QuotientValue(liquidity, amount, false, q);
    var next: U160 := price + q;
    hide Amount1Quotient;
    assert Wrap(price + q) == price + q;
    assert InputMoves(price, liquidity, amount, false, Success(next));
  }

  /** Taking `amount` of token1 out. */
  lemma OutputToken1(price: U160, liquidity: U128, amount: U256, target: U160)
    requires 0 < target <= price && 0 < liquidity
    requires amount * Q96 <= liquidity * (price - target)
    ensures exists next: U160 :: OutputMoves(price, liquidity, amount, true, Success(next)) && target <= next <= price
                           && amount * Q96 <= liquidity * (price - next)
  {
    var q := CeilDiv(amount * Q96, liquidity);
    CeilRange(amount * Q96, liquidity);
    CeilLe(amount * Q96, liquidity, price - target);
    CeilBounds(amount * Q96, liquidity);
    Amount1QuotientValue(liquidity, amount, true, q);
    var next: U160 := price - q;
    hide Amount1Quotient, CeilDiv;
    assert OutputMoves(price, liquidity, amount, true, Success(next));
  }

  /**
   * The token1 move in general. Its sum is a plain wrapping `+` on 256-bit words, so an
   * input large enough to wrap it is answered with a price below the one it started from;
   * short of that, the move fails exactly when the price would leave 160 bits.
   */
  lemma Token1InputOutcome(price: U160, liquidity: U128, amount: U256)
    requires 0 < price && 0 < liquidity
    ensures var q := amount * Q96 / liquidity;
            var r := NextPriceFromInput(price, liquidity, amount, false);
            && (r.Failure? <==> Q160 <= price + q < WORD || WORD <= q)
            && (r.Success? && price <= r.value <==> price + q < Q160)
            && (r.Success? && r.value < price <==> q < WORD <= price + q)
  {
    var q := amount * Q96 / liquidity;
    DivRange(amount * Q96, liquidity);
    if q < WORD {
      Amount1QuotientValue(liquidity, amount, false, q);
    }
    hide Amount1Quotient;
    if WORD <= q {
      WideQuotientFails(liquidity, amount);
    } else if WORD <= price + q {
      assert Wrap(price + q) == price + q - WORD;
    } else {
      assert Wrap(price + q) == price + q;
    }
  }

  lemma WideQuotientFails(liquidity: U128, amount: U256)
    requires 0 < liquidity && WORD <= amount * Q96 / liquidity
    ensures Amount1Quotient(liquidity, amount, false).Failure?
  {
    DivRange(amount * Q96, liquidity);
  }

  /** The wrapping case is reached: one unit of liquidity, and 2^160 - 1 paid in. */
  lemma Token1InputWraps()
    ensures var r := NextPriceFromInput(Q96, 1, Q160 - 1, false);
            r.Success? && r.value < Q96
  {
    Token1InputOutcome(Q96, 1, Q160 - 1);
  }
}

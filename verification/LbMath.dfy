// src/lb/math.rs: 128.128 fixed-point powers, fees, and the directed-rounding pairs of the
// Liquidity Book bins.
module LbMath {
  import opened Arith
  import opened Words
  import opened RealPowers

  const SCALE: U256 := Q128
  const PRECISION: int := 1_000_000_000_000_000_000
  const MAX_FEE: int := 100_000_000_000_000_000
  const REAL_ID_SHIFT: int := 8_388_608

  // ---- Powers ----

  /** `mul_128x128`: the low 256 bits of the shifted 512-bit product. */
  function Mul128(a: U256, b: U256): U256 {
    Wrap(a * b / Q128)
  }

  /** The result after the remaining `bits` binary digits of the exponent, lowest first. */
  function PowerFrom(result: U256, squared: U256, digits: nat, bits: nat): U256
    decreases bits
  {
    if bits == 0 then result
    else
      PowerFrom(if digits % 2 == 1 then Mul128(result, squared) else result, Mul128(squared, squared), digits / 2, bits - 1)
  }

  function Power(x: U256, y: int): U256 {
    if y == 0 then SCALE
    else
      var abs := if y < 0 then -y else y;
      var squared := if x > SCALE then MAX_WORD / x else x;
      var invert := (y < 0) != (x > SCALE);
      var result := PowerFrom(SCALE, squared, abs, 20);
      if result == 0 then 0
      else if invert then (DivRange(MAX_WORD, result); MAX_WORD / result)
      else result
  }

  lemma ShiftDigits(y: nat, k: nat)
    ensures y / Pow2(k + 1) == y / Pow2(k) / 2
  {
    var p := Pow2(k);
    DivBounds(y, p);
    DivBounds(y / p, 2);
    MulMono(y / p / 2 * 2, y / p, p);
    MulMono(y / p + 1, y / p / 2 * 2 + 2, p);
    DivUnique(y, 2 * p, y / p / 2);
  }

  /** `pow_128x128`, testing and squaring bit by bit. */
  method Pow128(x: U256, y: int) returns (r: U256)
    ensures r == Power(x, y)
  {
    hide Mul128;
    if y == 0 {
      return SCALE;
    }
    var abs: nat := if y < 0 then -y else y;
    var invert := y < 0;
    var squared: U256 := x;
    if squared > SCALE {
      DivRange(MAX_WORD, squared);
      squared := MAX_WORD / squared;
      invert := !invert;
    }
    ghost var start := squared;
    var result := SCALE;
    assert abs / Pow2(0) == abs;
    for bit := 0 to 20
      invariant 0 <= abs / Pow2(bit)
      invariant PowerFrom(result, squared, abs / Pow2(bit), 20 - bit) == PowerFrom(SCALE, start, abs, 20)
    {
      ShiftDigits(abs, bit);
      if abs / Pow2(bit) % 2 != 0 {
        result := Mul128(result, squared);
      }
      squared := Mul128(squared, squared);
    }
    if result == 0 {
      return 0;
    }
    if invert {
      DivRange(MAX_WORD, result);
      return MAX_WORD / result;
    }
    return result;
  }

  /** The power of minus one of a base above one. */
  lemma InverseOf(base: U256)
    requires SCALE < base <= 2 * SCALE - 1
    ensures Power(base, -1) == MAX_WORD / base && Q128 / 2 <= MAX_WORD / base < Q128
  {
    hide PowerFrom;
    DivGe(MAX_WORD, base, Q128 / 2);
    DivGe(MAX_WORD, base, Q128);
    MulMono(Q128 + 1, base, Q128);
    MulMono(base, 2 * Q128 - 1, Q128 / 2);
    OneDigit(SCALE, MAX_WORD / base, 1, 20);
    MulOne(MAX_WORD / base);
  }

  predicate Powers(result: U256, squared: U256, digits: nat, bits: nat, r: U256) {
    PowerFrom(result, squared, digits, bits) == r
  }

  /** A power of one digit is the base itself. */
  lemma OneDigit(result: U256, squared: U256, digits: nat, bits: nat)
    requires digits == 1 && 0 < bits
    ensures exists r: U256 :: Powers(result, squared, digits, bits, r) && r == Mul128(result, squared)
  {
    assert Powers(result, squared, digits, bits, PowerFrom(result, squared, digits, bits));
    NoDigits(Mul128(result, squared), Mul128(squared, squared), bits - 1);
    hide Mul128;
    assert digits % 2 == 1 && digits / 2 == 0;
  }

  lemma {:induction false} NoDigits(result: U256, squared: U256, bits: nat)
    ensures PowerFrom(result, squared, 0, bits) == result
    decreases bits
  {
    hide Mul128;
    if bits != 0 {
      NoDigits(result, Mul128(squared, squared), bits - 1);
    }
  }

  lemma MulOne(x: U256)
    ensures Mul128(SCALE, x) == x
  {
    DivUnique(SCALE * x, Q128, x);
  }

  // ---- The error of a power ----

  ghost function RealPower(u: real, n: nat): real {
    if n == 0 then 1.0 else Times(u, RealPower(u, n - 1))
  }

  ghost const UNIT: real := Q128 as real

  /** 2^128 * u^n, the power in 128.128 without rounding. */
  ghost function Exact(u: real, n: nat): real {
    Times(UNIT, RealPower(u, n))
  }

  /** `v` is at most the exact power, and less than it by at most `error` units. */
  ghost predicate Within(v: int, u: real, n: nat, error: int) {
    Exact(u, n) - error as real <= v as real <= Exact(u, n)
  }

  lemma {:induction false} RealPowerRange(u: real, n: nat)
    requires 0.0 <= u <= 1.0
    ensures 0.0 <= RealPower(u, n) <= 1.0
  {
    hide Times;
    if n != 0 {
      var p := RealPower(u, n - 1);
      RealPowerRange(u, n - 1);
      TimesMono(0.0, u, 0.0, p);
      TimesMono(u, 1.0, p, 1.0);
      TimesOne(1.0);
      TimesOne(0.0);
      TimesMono(0.0, 0.0, 0.0, 1.0);
      NoTimes(0.0);
    }
  }

  lemma NoTimes(x: real)
    ensures Times(0.0, x) == 0.0 == Times(x, 0.0)
  {
  }

  lemma TimesAssociates(a: real, b: real, c: real)
    ensures Times(a, Times(b, c)) == Times(Times(a, b), c)
  {
  }

  lemma {:induction false} RealPowerAdd(u: real, m: nat, n: nat)
    ensures RealPower(u, m + n) == Times(RealPower(u, m), RealPower(u, n))
  {
    hide Times;
    if m == 0 {
      TimesOne(RealPower(u, n));
    } else {
      RealPowerAdd(u, m - 1, n);
      TimesAssociates(u, RealPower(u, m - 1), RealPower(u, n));
    }
  }

  lemma SplitDefect(a: real, b: real, x: real, y: real)
    ensures Times(x, y) - Times(a, b) == Times(x, y - b) + Times(x - a, b)
  {
  }

  lemma TimesSum(unit: real, a: real, b: real)
    ensures Times(unit, a + b) == Times(a, unit) + Times(unit, b)
  {
  }

  lemma TimesCancel(a: real, b: real, c: real)
    requires Times(a, c) <= Times(b, c) && 0.0 < c
    ensures a <= b
  {
    if b < a {
      StrictlyMore(b, a, c);
    }
  }

  lemma StrictlyMore(a: real, b: real, c: real)
    requires a < b && 0.0 < c
    ensures Times(a, c) < Times(b, c)
  {
  }

  /** The defect of a product of two values that fall short of exact ones. */
  lemma ProductDefect(a: real, x: real, ea: real, b: real, y: real, eb: real, unit: real)
    requires 0.0 <= a && 0.0 <= b && x - ea <= a <= x <= unit && y - eb <= b <= y <= unit
    ensures Times(x, y) - Times(unit, ea + eb) <= Times(a, b) <= Times(x, y)
  {
    hide Times;
    TimesMono(a, x, b, y);
    SplitDefect(a, b, x, y);
    TimesMono(x, unit, y - b, eb);
    TimesMono(x - a, ea, b, unit);
    TimesSum(unit, ea, eb);
  }

  lemma TimesOfInts(a: int, b: int)
    ensures (a * b) as real == Times(a as real, b as real)
  {
  }

  /** A truncated product of near powers is a near power: the errors add, and one more unit is lost. */
  lemma ProductWithin(a: U256, b: U256, u: real, n: nat, m: nat, ea: nat, eb: nat)
    requires 0.0 <= u <= 1.0 && Within(a, u, n, ea) && Within(b, u, m, eb)
    ensures Within(Mul128(a, b), u, n + m, ea + eb + 1)
  {
    RealPowerRange(u, n);
    RealPowerRange(u, m);
    RealPowerAdd(u, n, m);
    hide RealPower, Mul128, Times;
    var p, q := RealPower(u, n), RealPower(u, m);
    AtMostUnit(p);
    AtMostUnit(q);
    UnitProduct(UNIT, p, q);
    TruncatedProduct(a, b, Exact(u, n), ea as real, Exact(u, m), eb as real, Exact(u, n + m));
  }

  lemma AtMostUnit(p: real)
    requires 0.0 <= p <= 1.0
    ensures Times(UNIT, p) <= UNIT
  {
    hide Times;
    TimesMono(UNIT, UNIT, p, 1.0);
    TimesOne(UNIT);
  }

  lemma UnitProduct(unit: real, p: real, q: real)
    ensures Times(Times(unit, p), Times(unit, q)) == Times(Times(unit, Times(p, q)), unit)
  {
    assert (unit * p) * (unit * q) == (unit * (p * q)) * unit;
  }

  lemma TruncatedProduct(a: U256, b: U256, x: real, ea: real, y: real, eb: real, z: real)
    requires x - ea <= a as real <= x <= UNIT && y - eb <= b as real <= y <= UNIT
    requires Times(x, y) == Times(z, UNIT)
    ensures z - (ea + eb + 1.0) <= Mul128(a, b) as real <= z
  {
    hide Times;
    MulNonneg(a, b);
    DivRange(a * b, Q128);
    DivBounds(a * b, Q128);
    ProductDefect(a as real, x, ea, b as real, y, eb, UNIT);
    TimesOfInts(a, b);
    Quotient(a * b, a * b / Q128, z, ea + eb);
    TimesMono(x, UNIT, y, UNIT);
    TimesCancel(z, UNIT, UNIT);
    Unwrapped(a, b, a * b / Q128);
  }

  lemma Quotient(product: int, q: int, z: real, e: real)
    requires q * Q128 <= product < q * Q128 + Q128
    requires Times(z, UNIT) - Times(UNIT, e) <= product as real <= Times(z, UNIT)
    ensures z - e - 1.0 <= q as real <= z
  {
    hide Times;
    TimesOfInts(q, Q128);
    TimesCancel(q as real, z, UNIT);
    LowerEnd(z, e, UNIT);
    TimesCancel(z - e - 1.0, q as real, UNIT);
  }

  lemma LowerEnd(z: real, e: real, unit: real)
    ensures Times(z - e - 1.0, unit) == Times(z, unit) - Times(unit, e) - unit
  {
  }

  lemma Unwrapped(a: U256, b: U256, q: int)
    requires q == a * b / Q128 && 0 <= q && q as real <= UNIT
    ensures Mul128(a, b) == q
  {
  }

  lemma {:induction false} PowerFromWithin(result: U256, squared: U256, digits: nat, bits: nat, u: real, n: nat, m: nat)
    requires 0.0 <= u <= 1.0 && digits < Pow2(bits) && 0 < m
    requires Within(result, u, n, n) && Within(squared, u, m, m - 1)
    ensures Within(PowerFrom(result, squared, digits, bits), u, n + m * digits, n + m * digits)
    decreases bits
  {
    hide Within, Mul128;
    if bits != 0 {
      ProductWithin(squared, squared, u, m, m, m - 1, m - 1);
      var half := digits / 2;
      HalfDigits(n, m, digits);
      if digits % 2 == 1 {
        ProductWithin(result, squared, u, n, m, n, m - 1);
        PowerFromWithin(Mul128(result, squared), Mul128(squared, squared), half, bits - 1, u, n + m, 2 * m);
      } else {
        PowerFromWithin(result, Mul128(squared, squared), half, bits - 1, u, n, 2 * m);
      }
    }
  }

  lemma HalfDigits(n: int, m: int, digits: nat)
    ensures n + m * digits == (if digits % 2 == 1 then n + m else n) + (2 * m) * (digits / 2)
  {
    var h := digits / 2;
    assert m * (2 * h) == (2 * m) * h;
    assert m * (2 * h + 1) == (2 * m) * h + m;
  }

  /** Twenty truncated squarings and products lose at most one unit of the last place per factor. */
  lemma PowerError(x: U256, y: nat)
    requires x <= SCALE && y < 0x100000
    ensures Within(Power(x, y), x as real / UNIT, y, y)
  {
    var u := x as real / UNIT;
    StartWithin(x, u);
    TwentyBits();
    PowerFromWithin(SCALE, x, y, 20, u, 0, 1);
    hide PowerFrom, Within;
    StartWithin(x, u);
  }

  lemma StartWithin(x: U256, u: real)
    requires x <= SCALE && u == x as real / UNIT
    ensures 0.0 <= u <= 1.0 && Within(SCALE, u, 0, 0) && Within(x, u, 1, 0)
  {
    assert RealPower(u, 1) == Times(u, RealPower(u, 0));
    TimesOne(u);
    TimesOne(UNIT);
    assert UNIT * u == x as real;
  }

  lemma TwentyBits()
    ensures Pow2(20) == 0x100000
  {
    Pow2Square(1, 2);
    assert Pow2(2) == 4;
    assert Pow2(4) == 16;
    assert Pow2(5) == 32;
    Pow2Square(5, 32);
    Pow2Square(10, 1024);
  }

  /** Above one, or for a negative exponent, the same bound holds of the power that is inverted. */
  lemma PowerErrorInverted(x: U256, y: int) returns (u: real, core: U256)
    requires y != 0 && -0x100000 < y < 0x100000
    ensures u == (if x <= SCALE then x else MAX_WORD / x) as real / UNIT
    ensures var n := if y < 0 then -y else y;
            Within(core, u, n, n)
    ensures core == 0 ==> Power(x, y) == 0
    ensures core != 0 && (y < 0) == (x > SCALE) ==> Power(x, y) == core
    ensures core != 0 && (y < 0) != (x > SCALE) ==> Power(x, y) * core <= MAX_WORD < Power(x, y) * core + core
  {
    var squared: int := x;
    if x > SCALE {
      squared := MAX_WORD / x;
      DivGe(MAX_WORD, x, 0);
      DivBounds(MAX_WORD, x);
      if SCALE < squared {
        MulMono(SCALE, squared, x);
      }
    }
    var n := if y < 0 then -y else y;
    u := squared as real / UNIT;
    PowerError(squared, n);
    hide PowerFrom, Within;
    core := PowerFrom(SCALE, squared, n, 20);
    if core != 0 {
      DivBounds(MAX_WORD, core);
    }
  }

  // ---- Fees ----

  function BaseFee(baseFactor: nat, binStep: nat): nat {
    baseFactor * binStep * 10_000_000_000
  }

  function VariableFee(volatility: nat, binStep: nat, control: nat): nat {
    if control == 0 then 0
    else
      var prod := volatility * binStep;
      MulNonneg(prod * prod, control);
      (prod * prod * control + 99) / 100
  }

  function TotalFee(baseFactor: nat, binStep: nat, volatility: nat, control: nat): (fee: nat)
    ensures fee <= MAX_FEE
  {
    Min(BaseFee(baseFactor, binStep) + VariableFee(volatility, binStep, control), MAX_FEE)
  }

  /** The fee in an amount that includes it. */
  function FeeAmountFrom(gross: nat, fee: nat): (r: nat)
    requires fee <= MAX_FEE
    ensures r <= gross
  {
    FeeWithin(gross, fee, PRECISION);
    (gross * fee + PRECISION - 1) / PRECISION
  }

  /** The fee to add to an amount that does not. */
  function FeeAmount(net: nat, fee: nat): (r: nat)
    requires fee <= MAX_FEE
    ensures r <= net
  {
    FeeWithin(net, fee, PRECISION - fee);
    (net * fee + (PRECISION - fee - 1)) / (PRECISION - fee)
  }

  /** The `(n + d - 1) / d` idiom is the ceiling. */
  lemma RoundUpIdiom(n: int, d: int)
    requires 0 < d
    ensures (n + d - 1) / d == CeilDiv(n, d)
  {
    CeilBounds(n, d);
    DivUnique(n + d - 1, d, CeilDiv(n, d));
  }

  lemma FeeWithin(amount: nat, fee: nat, d: nat)
    requires fee <= d && 0 < d
    ensures 0 <= (amount * fee + d - 1) / d <= amount
  {
    RoundUpIdiom(amount * fee, d);
    MulNonneg(amount, fee);
    MulMono(fee, d, amount);
    CeilLe(amount * fee, d, amount);
    DivGe(amount * fee + d - 1, d, 0);
  }

  lemma FeeAmountLe(net: nat, fee: nat, x: int)
    requires fee <= MAX_FEE
    ensures FeeAmount(net, fee) <= x <==> net * fee <= x * (PRECISION - fee)
  {
    RoundUpIdiom(net * fee, PRECISION - fee);
    CeilLe(net * fee, PRECISION - fee, x);
  }

  lemma FeeFromLe(gross: nat, fee: nat, x: int)
    requires fee <= MAX_FEE
    ensures FeeAmountFrom(gross, fee) <= x <==> gross * fee <= x * PRECISION
  {
    RoundUpIdiom(gross * fee, PRECISION);
    CeilLe(gross * fee, PRECISION, x);
  }

  /**
   * The two fee directions are adjoint: taking the fee out of a gross amount leaves at least `net`
   * exactly when the gross amount covers `net` with its fee added.
   */
  lemma FeesAgree(gross: nat, net: nat, fee: nat)
    requires fee <= MAX_FEE
    ensures net <= gross - FeeAmountFrom(gross, fee) <==> net + FeeAmount(net, fee) <= gross
  {
    FeeAmountLe(net, fee, gross - net);
    FeeFromLe(gross, fee, gross - net);
    GrossAndNet(gross, net, fee, PRECISION);
    hide FeeAmount, FeeAmountFrom;
  }

  lemma GrossAndNet(gross: int, net: int, fee: int, m: int)
    ensures net * fee <= (gross - net) * (m - fee) <==> gross * fee <= (gross - net) * m
  {
    assert (gross - net) * (m - fee) == (gross - net) * m - gross * fee + net * fee;
  }

  lemma FeeMonotone(a: nat, b: nat, fee: nat)
    requires fee <= MAX_FEE && a <= b
    ensures FeeAmount(a, fee) <= FeeAmount(b, fee)
    ensures FeeAmountFrom(a, fee) <= FeeAmountFrom(b, fee)
    ensures a - FeeAmountFrom(a, fee) <= b - FeeAmountFrom(b, fee)
  {
    MulMono(a, b, fee);
    FeeAmountLe(a, fee, FeeAmount(b, fee));
    FeeAmountLe(b, fee, FeeAmount(b, fee));
    FeeFromLe(a, fee, FeeAmountFrom(b, fee));
    FeeFromLe(b, fee, FeeAmountFrom(b, fee));
    FeesAgree(a, a - FeeAmountFrom(a, fee), fee);
    FeesAgree(b, a - FeeAmountFrom(a, fee), fee);
    hide FeeAmount, FeeAmountFrom;
  }

  // ---- Shifted products and quotients, of which the low 256 bits are kept ----

  /** The floor of n / m, and its ceiling, as a word. */
  function FloorWord(n: nat, m: nat): U256
    requires 0 < m
  {
    Wrap(n / m)
  }

  function CeilWord(n: nat, m: nat): U256
    requires 0 < m
  {
    if n % m > 0 then Wrap(FloorWord(n, m) + 1) else FloorWord(n, m)
  }

  const DOUBLE: int := WORD * WORD

  function MulShiftRoundDown(x: U256, y: U256, offset: nat): U256 {
    FloorWord(x * y, Pow2(offset))
  }

  /** Above 511 bits the mask is empty, and nothing is rounded up. */
  function MulShiftRoundUp(x: U256, y: U256, offset: nat): U256 {
    if offset >= 512 then MulShiftRoundDown(x, y, offset) else CeilWord(x * y, Pow2(offset))
  }

  /** The shift keeps 512 bits. */
  function Shifted(x: U256, offset: nat): nat {
    MulNonneg(x, Pow2(offset));
    x * Pow2(offset) % DOUBLE
  }

  function ShiftDivRoundDown(x: U256, offset: nat, d: U256): U256 {
    if d == 0 then 0 else FloorWord(Shifted(x, offset), d)
  }

  function ShiftDivRoundUp(x: U256, offset: nat, d: U256): U256 {
    if d == 0 then 0 else CeilWord(Shifted(x, offset), d)
  }

  lemma CeilParts(n: nat, m: nat)
    requires 0 < m
    ensures 0 <= n / m && CeilDiv(n, m) == n / m + (if n % m > 0 then 1 else 0)
  {
    DivRange(n, m);
  }

  /** A word holds the quotient exactly when the quotient fits it. */
  lemma WordOfQuotient(n: nat, m: nat)
    requires 0 < m
    ensures FloorWord(n, m) == n / m <==> n / m < WORD
    ensures CeilWord(n, m) == CeilDiv(n, m) <==> CeilDiv(n, m) < WORD
  {
    CeilParts(n, m);
    if n / m < WORD {
      SmallWord(n / m);
    }
    if n / m + 1 < WORD {
      SmallWord(n / m + 1);
    }
    hide Wrap, CeilDiv;
  }

  lemma {:induction false} Pow2Grows(m: nat, n: nat)
    requires m <= n
    ensures Pow2(m) <= Pow2(n)
  {
    if m < n {
      Pow2Grows(m, n - 1);
    }
  }

  /**
   * For every word, word and shift: rounding down is exact when the quotient fits a word, rounding up
   * when the ceiling does, unless a shift of 512 or more leaves nothing of the mask.
   */
  lemma MulShiftRounds(x: U256, y: U256, offset: nat)
    ensures var p := x * y;
            && (MulShiftRoundDown(x, y, offset) == p / Pow2(offset) <==> p / Pow2(offset) < WORD)
            && (MulShiftRoundUp(x, y, offset) == CeilDiv(p, Pow2(offset))
                <==> CeilDiv(p, Pow2(offset)) < WORD && (offset < 512 || p == 0))
  {
    MulNonneg(x, y);
    WordOfQuotient(x * y, Pow2(offset));
    if 512 <= offset {
      DoubleIsPow2();
      Pow2Grows(512, offset);
      ProductBelowDouble(x, y);
      SmallQuotient(x * y, Pow2(offset));
    }
    hide Wrap, CeilDiv, FloorWord, CeilWord, Pow2;
  }

  lemma SmallQuotient(n: nat, m: nat)
    requires n < m
    ensures n / m == 0 && FloorWord(n, m) == 0 && CeilDiv(n, m) == if n == 0 then 0 else 1
  {
    DivUnique(n, m, 0);
  }

  lemma DoubleIsPow2()
    ensures Pow2(512) == DOUBLE
  {
    WordIsPow2();
    Pow2Square(256, WORD);
  }

  lemma ProductBelowDouble(x: U256, y: U256)
    ensures 0 <= x * y < DOUBLE
  {
    MulBounds(x, y, MAX_WORD, MAX_WORD);
  }

  /** The two shift-divide forms, by name. */
  predicate ShiftDivs(x: U256, offset: nat, d: U256, down: U256, up: U256) {
    ShiftDivRoundDown(x, offset, d) == down && ShiftDivRoundUp(x, offset, d) == up
  }

  /** For every word, shift and divisor: both roundings are exact exactly when the quotient fits a word. */
  lemma ShiftDivRounds(x: U256, offset: nat, d: U256)
    requires 0 < d
    ensures exists down: U256, up: U256 ::
              && ShiftDivs(x, offset, d, down, up)
              && (down == x * Pow2(offset) / d <==> x * Pow2(offset) / d < WORD)
              && (up == CeilDiv(x * Pow2(offset), d) <==> CeilDiv(x * Pow2(offset), d) < WORD)
  {
    var p := x * Pow2(offset);
    assert ShiftDivs(x, offset, d, ShiftDivRoundDown(x, offset, d), ShiftDivRoundUp(x, offset, d));
    MulNonneg(x, Pow2(offset));
    CeilParts(p, d);
    hide Pow2, CeilDiv;
    if p < DOUBLE {
      ModUnique(p, DOUBLE, 0, p);
      WordOfQuotient(p, d);
    } else {
      MulMono(d, WORD, WORD);
      DivGe(p, d, WORD);
    }
    hide Wrap, FloorWord, CeilWord;
  }

  // ---- Amounts across a bin: multiplying or dividing by a 128.128 price ----

  const SCALE_OFFSET: nat := 128

  function MulShiftDown(x: U256, y: U256): U256 {
    MulShiftRoundDown(x, y, SCALE_OFFSET)
  }

  function MulShiftUp(x: U256, y: U256): U256 {
    MulShiftRoundUp(x, y, SCALE_OFFSET)
  }

  function ShiftDivDown(x: U256, d: U256): U256 {
    ShiftDivRoundDown(x, SCALE_OFFSET, d)
  }

  function ShiftDivUp(x: U256, d: U256): U256 {
    ShiftDivRoundUp(x, SCALE_OFFSET, d)
  }

  lemma ProductFits(x: U128, y: U256)
    ensures CeilDiv(x * y, Q128) < WORD
  {
    MulNonneg(x, y);
    MulMono(x, Q128 - 1, y);
    MulMono(y, MAX_WORD, Q128 - 1);
    CeilLe(x * y, Q128, MAX_WORD);
  }

  lemma QuotientFits(x: U128, d: U256)
    requires 0 < d
    ensures CeilDiv(x * Q128, d) < WORD
  {
    MulMono(1, d, MAX_WORD);
    CeilLe(x * Q128, d, MAX_WORD);
  }

  /** At the scale of a price, on 128-bit amounts, the four are floors and ceilings. */
  lemma MulShiftIsExact(x: U128, y: U256)
    ensures MulShiftDown(x, y) == x * y / Q128 && MulShiftUp(x, y) == CeilDiv(x * y, Q128)
  {
    WordIsPow2();
    MulNonneg(x, y);
    ProductFits(x, y);
    CeilParts(x * y, Q128);
    MulShiftRounds(x, y, SCALE_OFFSET);
    hide Pow2, CeilDiv, MulShiftRoundDown, MulShiftRoundUp;
  }

  lemma ShiftDivIsExact(x: U128, d: U256)
    requires 0 < d
    ensures ShiftDivDown(x, d) == x * Q128 / d && ShiftDivUp(x, d) == CeilDiv(x * Q128, d)
  {
    WordIsPow2();
    QuotientFits(x, d);
    CeilParts(x * Q128, d);
    ShiftDivRounds(x, SCALE_OFFSET, d);
    hide Pow2, CeilDiv, ShiftDivRoundDown, ShiftDivRoundUp;
  }

  /** A zero price divides to nothing. */
  lemma ZeroPrice(x: U256)
    ensures ShiftDivDown(x, 0) == 0 && ShiftDivUp(x, 0) == 0
  {
  }

  /** Rounding an input up is adjoint to rounding the output down: selling X for Y. */
  lemma SellXAdjoint(paid: U128, out: U128, price: U256)
    requires 0 < price
    ensures out <= MulShiftDown(paid, price) <==> ShiftDivUp(out, price) <= paid
  {
    MulShiftIsExact(paid, price);
    ShiftDivIsExact(out, price);
    DivGe(paid * price, Q128, out);
    CeilLe(out * Q128, price, paid);
    hide *;
  }

  /** The same the other way: selling Y for X. */
  lemma SellYAdjoint(paid: U128, out: U128, price: U256)
    requires 0 < price
    ensures out <= ShiftDivDown(paid, price) <==> MulShiftUp(out, price) <= paid
  {
    MulShiftIsExact(out, price);
    ShiftDivIsExact(paid, price);
    DivGe(paid * Q128, price, out);
    CeilLe(out * price, Q128, paid);
    hide *;
  }
}

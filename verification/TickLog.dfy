// The logarithm of a price: every tabulated power, every tick price, in units of
// 2^-42 of a binary logarithm. The bounds are integers; no real logarithm is taken.
module TickLog {
  import opened Arith
  import opened Words
  import opened TickMath
  import opened RealPowers

  const J: nat := 42

  /** Bounds on 2^42 * log2(sqrt(1.0001)). */
  const LOG_LOW: int := 317236132
  const LOG_HIGH: int := 317236135

  ghost const EPSILON: real := 1.0 / 1152921504606846976.0

  /** A 128.128 number as a real. */
  ghost function Scaled(n: int): real {
    n as real / 340282366920938463463374607431768211456.0
  }

  // ---- Bounds on a repeated square, with 64-bit mantissas rounded outwards ----

  function SquareShift(m: nat): int {
    if m * m >= 0x80000000000000000000000000000000 then 64 else 63
  }

  function SquareUnit(m: nat): int {
    if m * m >= 0x80000000000000000000000000000000 then 0x10000000000000000 else 0x8000000000000000
  }

  /** An exponent E with (m * 2^e)^(2^j) <= 2^E. */
  function UpExponent(m: nat, e: int, j: nat): int
    decreases j
  {
    if j == 0 then e + 64
    else
      CeilRange(m * m, SquareUnit(m));
      UpExponent(CeilDiv(m * m, SquareUnit(m)), 2 * e + SquareShift(m), j - 1)
  }

  /** An exponent E with 2^E <= (m * 2^e)^(2^j). */
  function DownExponent(m: nat, e: int, j: nat): int
    decreases j
  {
    if j == 0 then e + 63 else DownExponent(m * m / SquareUnit(m), 2 * e + SquareShift(m), j - 1)
  }

  lemma UnitIsTwo(m: nat)
    ensures Two(SquareShift(m)) == SquareUnit(m) as real
  {
    Pow2Square(1, 2);
    Pow2Square(2, 4);
    Pow2Square(4, 16);
    Pow2Square(8, 256);
    Pow2Square(16, 0x10000);
    Pow2Square(32, 0x100000000);
    assert Pow2(64) == 2 * Pow2(63);
  }

  ghost function Mantissa(m: int, e: int): real {
    Times(m as real, Two(e))
  }

  lemma MantissaSquared(m: nat, e: int)
    ensures Times(Mantissa(m, e), Mantissa(m, e)) == Times((m * m) as real, Two(2 * e))
  {
    hide Two, Times;
    Interchange(m as real, Two(e), m as real, Two(e));
    TwoAdd(e, e);
    assert Times(m as real, m as real) == (m * m) as real by {
      TimesInt(m, m);
    }
  }

  lemma TimesInt(a: int, b: int)
    ensures Times(a as real, b as real) == (a * b) as real
  {
  }

  lemma MantissaShift(m: int, u: int, e: int, s: int)
    requires Two(s) == u as real
    ensures Mantissa(m, e + s) == Times((m * u) as real, Two(e))
  {
    hide Two;
    TwoAdd(e, s);
    var t, x := Two(e), m as real;
    assert x * (t * u as real) == (x * u as real) * t;
    assert x * u as real == (m * u) as real;
  }

  lemma UpStep(v: real, m: nat, e: int, m1: nat)
    requires 0.0 < v <= Mantissa(m, e) && m1 == CeilDiv(m * m, SquareUnit(m))
    ensures 0.0 < Times(v, v) <= Mantissa(m1, 2 * e + SquareShift(m))
  {
    hide Two, Times;
    var q, u, s := m * m, SquareUnit(m), SquareShift(m);
    MantissaSquared(m, e);
    UnitIsTwo(m);
    MantissaShift(m1, u, 2 * e, s);
    CeilBounds(q, u);
    TimesMono(v, Mantissa(m, e), v, Mantissa(m, e));
    TimesMono(q as real, (m1 * u) as real, Two(2 * e), Two(2 * e));
    TimesPositive(v, v);
  }

  lemma {:induction false} UpSound(v: real, m: nat, e: int, j: nat)
    requires 0.0 < v <= Mantissa(m, e) && m <= 0x10000000000000000
    ensures LogAtMost(j, v, UpExponent(m, e, j))
    decreases j
  {
    hide Mantissa, LogAtMost, CeilDiv, SquareShift, Times;
    if j == 0 {
      TopMantissa(m, e);
      AtMostPower(v, e + 64, Mantissa(m, e));
    } else {
      CeilRange(m * m, SquareUnit(m));
      var m1 := CeilDiv(m * m, SquareUnit(m));
      var e1 := 2 * e + SquareShift(m);
      UpStep(v, m, e, m1);
      SquareFits(m);
      UpUnfold(m, e, j, m1, e1);
      UpSound(Times(v, v), m1, e1, j - 1);
      AtMostSquare(j - 1, v, UpExponent(m1, e1, j - 1));
    }
  }

  lemma AtMostPower(v: real, e: int, w: real)
    requires 0.0 < v <= w <= Two(e)
    ensures LogAtMost(0, v, e)
  {
  }

  lemma TopMantissa(m: nat, e: int)
    requires m <= 0x10000000000000000
    ensures Mantissa(m, e) <= Two(e + 64)
  {
    hide Two;
    UnitIsTwo(0x10000000000000000);
    TwoAdd(64, e);
    TimesMono(m as real, Two(64), Two(e), Two(e));
  }

  lemma SquareFits(m: nat)
    requires m <= 0x10000000000000000
    ensures CeilDiv(m * m, SquareUnit(m)) <= 0x10000000000000000
  {
    MulMono(m, 0x10000000000000000, m);
    CeilLe(m * m, SquareUnit(m), 0x10000000000000000);
  }

  lemma {:induction false} DownSound(v: real, m: nat, e: int, j: nat)
    requires 0.0 < Mantissa(m, e) <= v && 0x8000000000000000 <= m
    ensures LogAtLeast(j, v, DownExponent(m, e, j))
    decreases j
  {
    if j == 0 {
      BottomMantissa(m, e);
    } else {
      hide Two, Times, Squared;
      var q, u, s := m * m, SquareUnit(m), SquareShift(m);
      var m1 := q / u;
      MantissaSquared(m, e);
      UnitIsTwo(m);
      MantissaShift(m1, u, 2 * e, s);
      DivBounds(q, u);
      SquareStays(m);
      TimesMono(Mantissa(m, e), v, Mantissa(m, e), v);
      TimesMono((m1 * u) as real, q as real, Two(2 * e), Two(2 * e));
      TimesPositive(m1 as real, Two(2 * e + s));
      DownSound(Times(v, v), m1, 2 * e + s, j - 1);
      AtLeastSquare(j - 1, v, DownExponent(m1, 2 * e + s, j - 1));
    }
  }

  lemma BottomMantissa(m: nat, e: int)
    requires 0x8000000000000000 <= m
    ensures Two(e + 63) <= Mantissa(m, e)
  {
    hide Two;
    UnitIsTwo(0);
    TwoAdd(63, e);
    TimesMono(Two(63), m as real, Two(e), Two(e));
  }

  lemma SquareStays(m: nat)
    requires 0x8000000000000000 <= m
    ensures 0x8000000000000000 <= m * m / SquareUnit(m)
  {
    MulMono(0x8000000000000000, m, m);
    DivGe(m * m, SquareUnit(m), 0x8000000000000000);
  }

  lemma UpUnfold(m: nat, e: int, j: nat, m1: nat, e1: int)
    requires 0 < j && m1 == CeilDiv(m * m, SquareUnit(m)) && e1 == 2 * e + SquareShift(m)
    ensures UpExponent(m, e, j) == UpExponent(m1, e1, j - 1)
  {
  }

  lemma DownUnfold(m: nat, e: int, j: nat, m1: nat, e1: int)
    requires 0 < j && m1 == m * m / SquareUnit(m) && e1 == 2 * e + SquareShift(m)
    ensures DownExponent(m, e, j) == DownExponent(m1, e1, j - 1)
  {
  }

  lemma FirstPowerUp(j: nat)
    requires j == J
    ensures UpExponent(0xfffcb933bd6fad38, -64, j) == -(LOG_LOW + 1)
  {
    hide UpExponent;
    UpUnfold(0xfffcb933bd6fad38, -64, 42, 0xfff97272373d4134, -64);
    UpUnfold(0xfff97272373d4134, -64, 41, 0xfff2e50f5f656937, -64);
    UpUnfold(0xfff2e50f5f656937, -64, 40, 0xffe5caca7e10e4ef, -64);
    UpUnfold(0xffe5caca7e10e4ef, -64, 39, 0xffcb9843d60f616c, -64);
    UpUnfold(0xffcb9843d60f616c, -64, 38, 0xff973b41fa98c0a6, -64);
    UpUnfold(0xff973b41fa98c0a6, -64, 37, 0xff2ea16466c96a82, -64);
    UpUnfold(0xff2ea16466c96a82, -64, 36, 0xfe5dee046a99a33c, -64);
    UpUnfold(0xfe5dee046a99a33c, -64, 35, 0xfcbe86c7900a89d5, -64);
    UpUnfold(0xfcbe86c7900a89d5, -64, 34, 0xf987a7253ac4155d, -64);
    UpUnfold(0xf987a7253ac4155d, -64, 33, 0xf3392b0822b70474, -64);
    UpUnfold(0xf3392b0822b70474, -64, 32, 0xe7159475a2c2a3e0, -64);
    UpUnfold(0xe7159475a2c2a3e0, -64, 31, 0xd097f3bdfd2031ed, -64);
    UpUnfold(0xd097f3bdfd2031ed, -64, 30, 0xa9f746462d8728a7, -64);
    UpUnfold(0xa9f746462d8728a7, -64, 29, 0xe1b0d342ada58540, -65);
    UpUnfold(0xe1b0d342ada58540, -65, 28, 0xc6f84d7e5f42b36f, -66);
    UpUnfold(0xc6f84d7e5f42b36f, -66, 27, 0x9aa508b5b7a9027c, -68);
    UpUnfold(0x9aa508b5b7a9027c, -68, 26, 0xbad5f1bdb703e6a5, -73);
    UpUnfold(0xbad5f1bdb703e6a5, -73, 25, 0x885b9613d7eaf6d3, -82);
    UpUnfold(0x885b9613d7eaf6d3, -82, 24, 0x9142e0723f00d3ba, -101);
    UpUnfold(0x9142e0723f00d3ba, -101, 23, 0xa4d9a773d61f1b07, -139);
    UpUnfold(0xa4d9a773d61f1b07, -139, 22, 0xd44f2f3374826247, -215);
    UpUnfold(0xd44f2f3374826247, -215, 21, 0xb0133eab636dca5e, -366);
    UpUnfold(0xb0133eab636dca5e, -366, 20, 0xf234ef3c0afe5ee9, -669);
    UpUnfold(0xf234ef3c0afe5ee9, -669, 19, 0xe5281f3f94be8d64, -1274);
    UpUnfold(0xe5281f3f94be8d64, -1274, 18, 0xcd20ce3187cbda52, -2484);
    UpUnfold(0xcd20ce3187cbda52, -2484, 17, 0xa45d8e6f85f22ec0, -4904);
    UpUnfold(0xa45d8e6f85f22ec0, -4904, 16, 0xd310015f5fcb0e15, -9745);
    UpUnfold(0xd310015f5fcb0e15, -9745, 15, 0xae03634363d694e1, -19426);
    UpUnfold(0xae03634363d694e1, -19426, 14, 0xec9135f62b9274be, -38789);
    UpUnfold(0xec9135f62b9274be, -38789, 13, 0xda9c0ddc0c933de9, -77514);
    UpUnfold(0xda9c0ddc0c933de9, -77514, 12, 0xbaae26bbaa5a2f51, -154964);
    UpUnfold(0xbaae26bbaa5a2f51, -154964, 11, 0x882186c16082df80, -309864);
    UpUnfold(0x882186c16082df80, -309864, 10, 0x90c74722f6a9e4a3, -619665);
    UpUnfold(0x90c74722f6a9e4a3, -619665, 9, 0xa3c1964e033e0de4, -1239267);
    UpUnfold(0xa3c1964e033e0de4, -1239267, 8, 0xd1802f96a402d9a8, -2478471);
    UpUnfold(0xd1802f96a402d9a8, -2478471, 7, 0xab728de39749531c, -4956878);
    UpUnfold(0xab728de39749531c, -4956878, 6, 0xe5a479a172e662a4, -9913693);
    UpUnfold(0xe5a479a172e662a4, -9913693, 5, 0xcdffab46e8356818, -19827322);
    UpUnfold(0xcdffab46e8356818, -19827322, 4, 0xa5c377a639bff0f7, -39654580);
    UpUnfold(0xa5c377a639bff0f7, -39654580, 3, 0xd6ab1af78b32b94e, -79309097);
    UpUnfold(0xd6ab1af78b32b94e, -79309097, 2, 0xb4028372e643fb37, -158618130);
    UpUnfold(0xb4028372e643fb37, -158618130, 1, 0xfd2711bfca33fb22, -317236197);
    UpEnds(0xfd2711bfca33fb22, -317236197);
  }

  lemma UpEnds(m: nat, e: int)
    ensures UpExponent(m, e, 0) == e + 64 && DownExponent(m, e, 0) == e + 63
  {
  }

  lemma FirstPowerDown(j: nat)
    requires j == J
    ensures DownExponent(0xfffcb933bd6fad37, -64, j) == -(LOG_HIGH - 1)
  {
    hide DownExponent;
    DownUnfold(0xfffcb933bd6fad37, -64, 42, 0xfff97272373d4131, -64);
    DownUnfold(0xfff97272373d4131, -64, 41, 0xfff2e50f5f656930, -64);
    DownUnfold(0xfff2e50f5f656930, -64, 40, 0xffe5caca7e10e4e0, -64);
    DownUnfold(0xffe5caca7e10e4e0, -64, 39, 0xffcb9843d60f614d, -64);
    DownUnfold(0xffcb9843d60f614d, -64, 38, 0xff973b41fa98c067, -64);
    DownUnfold(0xff973b41fa98c067, -64, 37, 0xff2ea16466c96a03, -64);
    DownUnfold(0xff2ea16466c96a03, -64, 36, 0xfe5dee046a99a23d, -64);
    DownUnfold(0xfe5dee046a99a23d, -64, 35, 0xfcbe86c7900a87da, -64);
    DownUnfold(0xfcbe86c7900a87da, -64, 34, 0xf987a7253ac41173, -64);
    DownUnfold(0xf987a7253ac41173, -64, 33, 0xf3392b0822b6fcd1, -64);
    DownUnfold(0xf3392b0822b6fcd1, -64, 32, 0xe7159475a2c2955d, -64);
    DownUnfold(0xe7159475a2c2955d, -64, 31, 0xd097f3bdfd2017b9, -64);
    DownUnfold(0xd097f3bdfd2017b9, -64, 30, 0xa9f746462d86fdf3, -64);
    DownUnfold(0xa9f746462d86fdf3, -64, 29, 0xe1b0d342ada513d7, -65);
    DownUnfold(0xe1b0d342ada513d7, -65, 28, 0xc6f84d7e5f41eb77, -66);
    DownUnfold(0xc6f84d7e5f41eb77, -66, 27, 0x9aa508b5b7a7cba3, -68);
    DownUnfold(0x9aa508b5b7a7cba3, -68, 26, 0xbad5f1bdb700f788, -73);
    DownUnfold(0xbad5f1bdb700f788, -73, 25, 0x885b9613d7e6ae75, -82);
    DownUnfold(0x885b9613d7e6ae75, -82, 24, 0x9142e0723ef7b3d0, -101);
    DownUnfold(0x9142e0723ef7b3d0, -101, 23, 0xa4d9a773d60a652f, -139);
    DownUnfold(0xa4d9a773d60a652f, -139, 22, 0xd44f2f33744d09de, -215);
    DownUnfold(0xd44f2f33744d09de, -215, 21, 0xb0133eab63154eef, -366);
    DownUnfold(0xb0133eab63154eef, -366, 20, 0xf234ef3c0a0af0dc, -669);
    DownUnfold(0xf234ef3c0a0af0dc, -669, 19, 0xe5281f3f92f1eca6, -1274);
    DownUnfold(0xe5281f3f92f1eca6, -1274, 18, 0xcd20ce318493325b, -2484);
    DownUnfold(0xcd20ce318493325b, -2484, 17, 0xa45d8e6f80c89e63, -4904);
    DownUnfold(0xa45d8e6f80c89e63, -4904, 16, 0xd310015f52890042, -9745);
    DownUnfold(0xd310015f52890042, -9745, 15, 0xae0363434dfa09b0, -19426);
    DownUnfold(0xae0363434dfa09b0, -19426, 14, 0xec9135f5f021b211, -38789);
    DownUnfold(0xec9135f5f021b211, -38789, 13, 0xda9c0ddb9eb7e82e, -77514);
    DownUnfold(0xda9c0ddb9eb7e82e, -77514, 12, 0xbaae26baeebab218, -154964);
    DownUnfold(0xbaae26baeebab218, -154964, 11, 0x882186c04edfd7f4, -309864);
    DownUnfold(0x882186c04edfd7f4, -309864, 10, 0x90c74720b0a01c63, -619665);
    DownUnfold(0x90c74720b0a01c63, -619665, 9, 0xa3c19648de93be01, -1239267);
    DownUnfold(0xa3c19648de93be01, -1239267, 8, 0xd1802f897b127099, -2478471);
    DownUnfold(0xd1802f897b127099, -2478471, 7, 0xab728dce0d42f350, -4956878);
    DownUnfold(0xab728dce0d42f350, -4956878, 6, 0xe5a47967bf8fc245, -9913693);
    DownUnfold(0xe5a47967bf8fc245, -9913693, 5, 0xcdffaadf6337dee1, -19827322);
    DownUnfold(0xcdffaadf6337dee1, -19827322, 4, 0xa5c376ff9ffc96f6, -39654580);
    DownUnfold(0xa5c376ff9ffc96f6, -39654580, 3, 0xd6ab194809f3f848, -79309097);
    DownUnfold(0xd6ab194809f3f848, -79309097, 2, 0xb402809f3960553d, -158618130);
    DownUnfold(0xb402809f3960553d, -158618130, 1, 0xfd2709cc5797f38f, -317236197);
    UpEnds(0xfd2709cc5797f38f, -317236197);
  }

  /** The first tabulated power, 2^128 / sqrt(1.0001). */
  lemma FirstLog()
    ensures LogAtMost(J, Scaled(Coefficient(0)), -(LOG_LOW + 1))
    ensures LogAtLeast(J, Scaled(Coefficient(0)), -(LOG_HIGH - 1))
  {
    hide UpExponent, DownExponent, Squared, Two, Coefficient, Scaled, Mantissa;
    var v := Scaled(Coefficient(0));
    FirstMantissa();
    FirstPowerUp(J);
    FirstPowerDown(J);
    UpSound(v, 0xfffcb933bd6fad38, -64, J);
    DownSound(v, 0xfffcb933bd6fad37, -64, J);
  }

  lemma FirstMantissa()
    ensures 0.0 < Mantissa(0xfffcb933bd6fad37, -64) <= Scaled(Coefficient(0)) <= Mantissa(0xfffcb933bd6fad38, -64)
  {
    Pow2Square(1, 2);
    Pow2Square(2, 4);
    Pow2Square(4, 16);
    Pow2Square(8, 256);
    Pow2Square(16, 0x10000);
    Pow2Square(32, 0x100000000);
    assert Two(-64) == 1.0 / 18446744073709551616.0;
  }

  // ---- Every tabulated power is the square of the one before, to one part in 2^60 ----

  const UNIT: int := 1152921504606846976

  lemma TableSquares(i: nat)
    requires i < 19
    ensures Coefficient(i + 1) * (UNIT - 1) * Q128 <= Coefficient(i) * Coefficient(i) * UNIT
    ensures Coefficient(i) * Coefficient(i) * (UNIT - 1) <= Coefficient(i + 1) * UNIT * Q128
  {
    match i
    case 0 =>
    case 1 =>
    case 2 =>
    case 3 =>
    case 4 =>
    case 5 =>
    case 6 =>
    case 7 =>
    case 8 =>
    case 9 =>
    case 10 =>
    case 11 =>
    case 12 =>
    case 13 =>
    case 14 =>
    case 15 =>
    case 16 =>
    case 17 =>
    case _ =>
  }

  lemma ScaledOrder(x: int, y: int, z: int)
    requires x * (UNIT - 1) * Q128 <= y * z * UNIT
    ensures Times(Scaled(x), 1.0 - EPSILON) <= Times(Scaled(y), Scaled(z))
  {
    var q, u := 340282366920938463463374607431768211456.0, 1152921504606846976.0;
    var xr, yz := x as real, (y * z) as real;
    assert (x * (UNIT - 1) * Q128) as real <= (y * z * UNIT) as real;
    assert xr * (u - 1.0) * q <= yz * u;
    assert Times(Scaled(x), 1.0 - EPSILON) == (xr * (u - 1.0) * q) / (q * q * u);
    assert Times(Scaled(y), Scaled(z)) == (yz * u) / (q * q * u) by {
      assert (y * z) as real == y as real * z as real;
    }
  }

  lemma ScaledOrderDown(y: int, z: int, w: int)
    requires y * z * (UNIT - 1) <= w * UNIT * Q128
    ensures Times(Times(Scaled(y), Scaled(z)), 1.0 - EPSILON) <= Scaled(w)
  {
    var q, u := 340282366920938463463374607431768211456.0, 1152921504606846976.0;
    var wr, yz := w as real, (y * z) as real;
    assert (y * z * (UNIT - 1)) as real <= (w * UNIT * Q128) as real;
    assert yz * (u - 1.0) <= wr * u * q;
    assert Times(Times(Scaled(y), Scaled(z)), 1.0 - EPSILON) == (yz * (u - 1.0)) / (q * q * u) by {
      assert (y * z) as real == y as real * z as real;
    }
    assert Scaled(w) == (wr * u * q) / (q * q * u);
  }

  lemma PowersOfTwo()
    ensures Pow2(J) == 0x40000000000 && Pow2(31) == 0x80000000 && Pow2(11) == 2048
  {
    Pow2Square(1, 2);
    Pow2Square(2, 4);
    Pow2Square(4, 16);
    Pow2Square(8, 256);
    assert Pow2(3) == 8;
    Pow2Add(8, 3);
    assert Pow2(5) == 32;
    Pow2Square(5, 32);
    Pow2Square(10, 1024);
    assert Pow2(21) == 2 * Pow2(20);
    Pow2Square(21, 2097152);
    Pow2Add(21, 10);
  }

  lemma EpsilonSmall()
    ensures 2.0 * Times(Pow2(J) as real, EPSILON) <= 1.0
  {
    PowersOfTwo();
  }

  /** A value that is below a bound after losing a factor d is within d's logarithm of it. */
  lemma LossyAtMost(v: real, d: real, w: real, e: int, f: int)
    requires 0.0 < v && Times(v, d) <= w && LogAtMost(J, w, e) && LogAtLeast(J, d, -f)
    ensures LogAtMost(J, v, e + f)
  {
    hide Squared, Two, Times, Inverse;
    TimesPositive(v, d);
    AtMostWeaken(J, Times(v, d), w, e, e);
    InverseAtMost(J, d, -f);
    AtMostMul(J, Times(v, d), e, Inverse(d), f);
    TimesInverse(d);
    Interchange(v, d, 1.0, Inverse(d));
    TimesOne(Inverse(d));
    TimesOne(v);
  }

  lemma AlmostAtMost(v: real, w: real, e: int)
    requires 0.0 < v && Times(v, 1.0 - EPSILON) <= w && LogAtMost(J, w, e)
    ensures LogAtMost(J, v, e + 1)
  {
    EpsilonSmall();
    NearlyOne(J, EPSILON);
    LossyAtMost(v, 1.0 - EPSILON, w, e, 1);
  }

  lemma AlmostAtLeast(v: real, w: real, e: int)
    requires Times(v, 1.0 - EPSILON) <= w && LogAtLeast(J, v, e)
    ensures LogAtLeast(J, w, e - 1)
  {
    hide Squared, Two, Times, Inverse;
    EpsilonSmall();
    NearlyOne(J, EPSILON);
    AtLeastMul(J, v, e, 1.0 - EPSILON, -1);
    AtLeastWeaken(J, Times(v, 1.0 - EPSILON), w, e - 1, e - 1);
  }

  lemma ScaledPositive(n: int)
    requires 0 < n
    ensures 0.0 < Scaled(n)
  {
  }

  predicate Tabulated(i: nat, c: nat)
    requires i < 20
  {
    c == Coefficient(i)
  }

  /** Every tabulated power lies between the two bounds. */
  lemma {:induction false} CoefficientLog(i: nat) returns (low: int, high: int)
    requires i < 20
    ensures low == -(LOG_HIGH - 1) * Pow2(i) - (Pow2(i) - 1)
    ensures high == -(LOG_LOW + 1) * Pow2(i) + (Pow2(i) - 1)
    ensures exists c: nat :: Tabulated(i, c) && LogAtLeast(J, Scaled(c), low) && LogAtMost(J, Scaled(c), high)
  {
    hide Squared, Two, Times, Scaled, Coefficient;
    if i == 0 {
      FirstLog();
      low, high := -LOG_HIGH + 1, -LOG_LOW - 1;
    } else {
      var l, h := CoefficientLog(i - 1);
      TableSquares(i - 1);
      var c, d := Coefficient(i - 1), Coefficient(i);
      ScaledPositive(d);
      ScaledOrder(d, c, c);
      AtMostMul(J, Scaled(c), h, Scaled(c), h);
      AlmostAtMost(Scaled(d), Times(Scaled(c), Scaled(c)), 2 * h);
      ScaledOrderDown(c, c, d);
      AtLeastMul(J, Scaled(c), l, Scaled(c), l);
      AlmostAtLeast(Times(Scaled(c), Scaled(c)), Scaled(d), 2 * l);
      low, high := 2 * l - 1, 2 * h + 1;
    }
    assert Tabulated(i, Coefficient(i));
  }

  // ---- The logarithm of an accumulated ratio ----

  lemma ScaledProduct(r: nat, c: nat)
    ensures Scaled(Product(r, c)) <= Times(Scaled(r), Scaled(c))
    ensures UNIT <= Product(r, c) ==> Times(Times(Scaled(r), Scaled(c)), 1.0 - EPSILON) <= Scaled(Product(r, c))
  {
    ProductBounds(r, c);
    var q := 340282366920938463463374607431768211456.0;
    var p := Product(r, c);
    assert Times(Scaled(r), Scaled(c)) == (r * c) as real / (q * q) by {
      assert (r * c) as real == r as real * c as real;
    }
    assert (p * Q128) as real == p as real * q;
    if UNIT <= p {
      assert r * c * (UNIT - 1) <= p * UNIT * Q128;
      ScaledOrderDown(r, c, p);
    }
  }

  lemma Exponents(a: nat, p: int, e: int, l: int)
    ensures a % 2 == 0 ==> e - a / 2 * (2 * p) * l == e - a * p * l
    ensures a % 2 == 1 ==> e - p * l - a / 2 * (2 * p) * l == e - a * p * l
  {
    var h := a / 2;
    assert a == 2 * h + a % 2;
    assert h * (2 * p) * l == (2 * h) * p * l;
    assert (2 * h + 1) * p * l == (2 * h) * p * l + p * l;
  }

  lemma MultipliedAtMost(r: nat, i: nat, e: int)
    requires i < 20 && LogAtMost(J, Scaled(r), e) && 0 < Product(r, Coefficient(i))
    ensures LogAtMost(J, Scaled(Product(r, Coefficient(i))), e - Pow2(i) * LOG_LOW)
  {
    hide Squared, Two, Times, Scaled, Coefficient, Product;
    var c, p := Coefficient(i), Pow2(i);
    var low, high := CoefficientLog(i);
    ScaledProduct(r, c);
    AtMostMul(J, Scaled(r), e, Scaled(c), high);
    ScaledPositive(Product(r, c));
    AtMostWeaken(J, Scaled(Product(r, c)), Times(Scaled(r), Scaled(c)), e + high, e - p * LOG_LOW);
  }

  /** Multiplying in the digits of `a` from place i on takes at least a * 2^i * LOG_LOW off. */
  lemma {:induction false} AccumulatedAtMost(r: nat, a: nat, i: nat, e: int)
    requires i <= 20 && 0 < RatioFrom(r, a, i) && LogAtMost(J, Scaled(r), e) && a < Pow2(20 - i)
    ensures LogAtMost(J, Scaled(RatioFrom(r, a, i)), e - a * Pow2(i) * LOG_LOW)
    decreases 20 - i
  {
    hide Squared, Two, Times, Scaled, Coefficient, Product;
    if i < 20 {
      var c, p := Coefficient(i), Pow2(i);
      Exponents(a, p, e, LOG_LOW);
      assert Pow2(20 - i) == 2 * Pow2(20 - i - 1);
      if a % 2 == 1 {
        RatioAtMost(Product(r, c), a / 2, i + 1);
        MultipliedAtMost(r, i, e);
        AccumulatedAtMost(Product(r, c), a / 2, i + 1, e - p * LOG_LOW);
      } else {
        AccumulatedAtMost(r, a / 2, i + 1, e);
      }
    }
  }

  lemma MultipliedAtLeast(r: nat, i: nat, e: int)
    requires i < 20 && LogAtLeast(J, Scaled(r), e) && UNIT <= Product(r, Coefficient(i))
    ensures LogAtLeast(J, Scaled(Product(r, Coefficient(i))), e - Pow2(i) * LOG_HIGH - 1)
  {
    hide Squared, Two, Times, Scaled, Coefficient, Product;
    var c, p := Coefficient(i), Pow2(i);
    var low, high := CoefficientLog(i);
    ScaledProduct(r, c);
    AtLeastMul(J, Scaled(r), e, Scaled(c), low);
    AtLeastWeaken(J, Times(Scaled(r), Scaled(c)), Times(Scaled(r), Scaled(c)), e + low, e - p * LOG_HIGH);
    AlmostAtLeast(Times(Scaled(r), Scaled(c)), Scaled(Product(r, c)), e - p * LOG_HIGH);
  }

  /** And at most a * 2^i * LOG_HIGH, plus one unit for each truncation. */
  lemma {:induction false} AccumulatedAtLeast(r: nat, a: nat, i: nat, e: int)
    requires i <= 20 && UNIT <= RatioFrom(r, a, i) && LogAtLeast(J, Scaled(r), e) && a < Pow2(20 - i)
    ensures LogAtLeast(J, Scaled(RatioFrom(r, a, i)), e - a * Pow2(i) * LOG_HIGH - (20 - i))
    decreases 20 - i
  {
    hide Squared, Two, Times, Scaled, Coefficient, Product;
    if i < 20 {
      var c, p := Coefficient(i), Pow2(i);
      Exponents(a, p, e - 1, LOG_HIGH);
      assert Pow2(20 - i) == 2 * Pow2(20 - i - 1);
      if a % 2 == 1 {
        RatioAtMost(Product(r, c), a / 2, i + 1);
        MultipliedAtLeast(r, i, e);
        AccumulatedAtLeast(Product(r, c), a / 2, i + 1, e - p * LOG_HIGH - 1);
      } else {
        AtLeastWeaken(J, Scaled(r), Scaled(r), e, e - 1);
        AccumulatedAtLeast(r, a / 2, i + 1, e - 1);
      }
    } else {
      AtLeastWeaken(J, Scaled(r), Scaled(r), e, e);
    }
  }

  // ---- The logarithm of a tick's price ----

  /** A Q64.96 number as a real. */
  ghost function Price(p: int): real {
    p as real / 79228162514264337593543950336.0
  }

  const ROUNDING: int := 2048
  ghost const ROUNDING_LOSS: real := 1.0 / 4294967296.0

  lemma RoundingSmall()
    ensures 2.0 * Times(Pow2(31) as real, ROUNDING_LOSS) <= 1.0 && Pow2(11) == ROUNDING
  {
    PowersOfTwo();
  }

  lemma OneLog()
    ensures LogAtMost(J, Scaled(Q128), 0) && LogAtLeast(J, Scaled(Q128), 0)
  {
    assert Scaled(Q128) == 1.0;
    SquaredOne(J);
    TwoZero();
  }

  lemma InverseRatioLog(a: nat)
    requires a <= MAX_TICK
    ensures LogAtMost(J, Scaled(InverseRatio(a)), 0 - a * LOG_LOW)
    ensures LogAtLeast(J, Scaled(InverseRatio(a)), 0 - a * LOG_HIGH - 20)
  {
    hide Squared, Two, Scaled, RatioFrom;
    OneLog();
    TickBits();
    RatioAtLeast(a);
    AccumulatedAtMost(Q128, a, 0, 0);
    AccumulatedAtLeast(Q128, a, 0, 0);
    assert Pow2(0) == 1;
  }

  /** Rounding up to 96 fractional bits adds at most one part in 2^32. */
  lemma PriceRounds(d: int, p: int)
    requires 0x1_0000000000000000 <= d && p == (d + 0xffffffff) / 0x1_00000000
    ensures Scaled(d) <= Price(p) && Times(Price(p), 1.0 - ROUNDING_LOSS) <= Scaled(d)
  {
    var g, h := 4294967296.0, 79228162514264337593543950336.0;
    var pr, dr := p as real, d as real;
    assert d <= p * 0x1_00000000 <= d + 0xffffffff;
    assert dr <= pr * g <= dr + g - 1.0;
    assert Scaled(d) == dr / (g * h) && Price(p) == (pr * g) / (g * h);
    assert pr * g * (g - 1.0) <= dr * g;
    assert Times(Price(p), 1.0 - ROUNDING_LOSS) == (pr * g * (g - 1.0)) / (g * h * g);
    assert Scaled(d) == (dr * g) / (g * h * g);
  }

  lemma CrossMultiply(x: real, y: real, z: real)
    requires 0.0 < z && x * z <= y * z
    ensures x <= y
  {
  }

  /** The positive ticks' quotient is the inverse, to one part in 2^60. */
  lemma QuotientInverts(r: int)
    requires 0 < r <= Q128
    ensures 0.0 < Scaled(r)
    ensures Scaled(MAX_WORD / r) <= Inverse(Scaled(r))
    ensures Times(Inverse(Scaled(r)), 1.0 - EPSILON) <= Scaled(MAX_WORD / r)
  {
    var q := 340282366920938463463374607431768211456.0;
    var d := MAX_WORD / r;
    DivBounds(MAX_WORD, r);
    assert WORD - r <= d * r <= WORD;
    var s, t := Scaled(r), Scaled(d);
    assert (d * r) as real == d as real * r as real;
    assert t * s == (d * r) as real / (q * q);
    assert 1.0 - 1.0 / q <= t * s <= 1.0;
    InverseBounds(s, t, EPSILON);
  }

  lemma InverseBounds(s: real, t: real, epsilon: real)
    requires 0.0 < s && 1.0 - epsilon <= t * s <= 1.0
    ensures t <= Inverse(s) && Times(Inverse(s), 1.0 - epsilon) <= t
  {
    var i := 1.0 / s;
    assert i * s == 1.0;
    CrossMultiply(t, i, s);
    assert i * (1.0 - epsilon) * s == 1.0 - epsilon;
    CrossMultiply(i * (1.0 - epsilon), t, s);
  }

  function LogCeiling(tick: int): int {
    if tick > 0 then tick * LOG_HIGH + 20 + ROUNDING else tick * LOG_LOW + ROUNDING
  }

  function LogFloor(tick: int): int {
    if tick > 0 then tick * LOG_LOW - 1 else tick * LOG_HIGH - 20
  }

  /** Every tick's price, between two integers that differ by a few units per tick. */
  lemma PriceLog(tick: int)
    requires MIN_TICK <= tick <= MAX_TICK
    ensures LogAtMost(J, Price(PriceOf(tick)), LogCeiling(tick))
    ensures LogAtLeast(J, Price(PriceOf(tick)), LogFloor(tick))
  {
    hide Squared, Two, Times, Inverse, Scaled, Price, InverseRatio, SqrtRatioAtTick;
    var a := Abs(tick);
    var r, p := InverseRatio(a), PriceOf(tick);
    RatioValue(tick);
    RatioAtLeast(a);
    RatioBelowOne(a);
    InverseRatioLog(a);
    if tick > 0 {
      var d := MAX_WORD / r;
      WideQuotient(r);
      QuotientInverts(r);
      InverseAtMost(J, Scaled(r), 0 - a * LOG_HIGH - 20);
      InverseAtLeast(J, Scaled(r), 0 - a * LOG_LOW);
      ScaledPositive(d);
      AtMostWeaken(J, Scaled(d), Inverse(Scaled(r)), a * LOG_HIGH + 20, a * LOG_HIGH + 20);
      AlmostAtLeast(Inverse(Scaled(r)), Scaled(d), a * LOG_LOW);
      PriceFromDirected(d, p, tick * LOG_HIGH + 20, tick * LOG_LOW - 1);
    } else {
      PriceFromDirected(r, p, tick * LOG_LOW, tick * LOG_HIGH - 20);
    }
  }

  lemma PriceFromDirected(d: int, p: int, e: int, f: int)
    requires 0x1_0000000000000000 <= d && p == (d + 0xffffffff) / 0x1_00000000
    requires LogAtMost(J, Scaled(d), e) && LogAtLeast(J, Scaled(d), f)
    ensures LogAtMost(J, Price(p), e + ROUNDING) && LogAtLeast(J, Price(p), f)
  {
    hide Squared, Two, Times;
    PriceRounds(d, p);
    RoundingSmall();
    NearlyOneCoarse(31, 11, ROUNDING_LOSS);
    LossyAtMost(Price(p), 1.0 - ROUNDING_LOSS, Scaled(d), e, ROUNDING);
    AtLeastWeaken(J, Scaled(d), Price(p), f, f);
  }

  lemma WideQuotient(r: int)
    requires 0 < r <= Q128
    ensures 0x1_0000000000000000 <= MAX_WORD / r
  {
    MulMono(r, Q128, 0x1_0000000000000000);
    DivGe(MAX_WORD, r, 0x1_0000000000000000);
  }
}

// src/v3/tick_math.rs: the price of a tick, 2^96 * sqrt(1.0001)^tick, by truncated
// products of tabulated powers.
module TickMath {
  import opened Results
  import opened Arith
  import opened Words

  const MAX_TICK: int := 887272
  const MIN_TICK: int := -887272
  const MIN_SQRT_RATIO: U160 := 4295128739
  const MAX_SQRT_RATIO: U160 := 1461446703485210103287273052203988822378723970342

  /** 2^128 / sqrt(1.0001)^(2^i), as tabulated for the bits of the tick. */
  function Coefficient(i: nat): (c: nat)
    requires i < 20
    ensures 0 < c < Q128
  {
    match i
    case 0 => 0xfffcb933bd6fad37aa2d162d1a594001
    case 1 => 0xfff97272373d413259a46990580e213a
    case 2 => 0xfff2e50f5f656932ef12357cf3c7fdcc
    case 3 => 0xffe5caca7e10e4e61c3624eaa0941cd0
    case 4 => 0xffcb9843d60f6159c9db58835c926644
    case 5 => 0xff973b41fa98c081472e6896dfb254c0
    case 6 => 0xff2ea16466c96a3843ec78b326b52861
    case 7 => 0xfe5dee046a99a2a811c461f1969c3053
    case 8 => 0xfcbe86c7900a88aedcffc83b479aa3a4
    case 9 => 0xf987a7253ac413176f2b074cf7815e54
    case 10 => 0xf3392b0822b70005940c7a398e4b70f3
    case 11 => 0xe7159475a2c29b7443b29c7fa6e889d9
    case 12 => 0xd097f3bdfd2022b8845ad8f792aa5825
    case 13 => 0xa9f746462d870fdf8a65dc1f90e061e5
    case 14 => 0x70d869a156d2a1b890bb3df62baf32f7
    case 15 => 0x31be135f97d08fd981231505542fcfa6
    case 16 => 0x9aa508b5b7a84e1c677de54f3e99bc9
    case 17 => 0x5d6af8dedb81196699c329225ee604
    case 18 => 0x2216e584f5fa1ea926041bedfe98
    case _ => 0x48a170391f7dc42444e8fa2
  }

  function Product(ratio: nat, c: nat): nat {
    ratio * c / Q128
  }

  /** `ratio` after the conditional steps for bits i .. 19, with `a` the tick's digits from i on. */
  function RatioFrom(ratio: nat, a: nat, i: nat): nat
    requires i <= 20
    decreases 20 - i
  {
    if i == 20 then ratio
    else RatioFrom(if a % 2 == 1 then Product(ratio, Coefficient(i)) else ratio, a / 2, i + 1)
  }

  /** The 128.128 value of sqrt(1.0001)^-a. */
  function InverseRatio(a: nat): nat {
    RatioFrom(Q128, a, 0)
  }

  function Abs(x: int): nat {
    if x < 0 then -x else x
  }

  function SqrtRatioAtTick(tick: int): Result<U160> {
    if Abs(tick) > MAX_TICK then Failure("Invalid tick")
    else
      var ratio := InverseRatio(Abs(tick));
      if ratio == 0 then Failure("panic: division by zero")
      else
        var directed := if tick > 0 then MAX_WORD / ratio else ratio;
        ToU160(Wrap(directed + 0xffffffff) / 0x1_00000000)
  }

  function ToU160(x: nat): Result<U160> {
    if x < Q160 then Success(x) else Failure("panic: value too large for U160")
  }

  /** The conditional multiplications, one per binary digit of the tick. */
  method AccumulateRatio(absTick: nat) returns (ratio: nat)
    ensures ratio == InverseRatio(absTick)
  {
    hide Coefficient, Product;
    ratio := Q128;
    var digits: nat := absTick;
    for i := 0 to 20
      invariant RatioFrom(ratio, digits, i) == InverseRatio(absTick)
    {
      if digits % 2 == 1 {
        ratio := Product(ratio, Coefficient(i));
      }
      digits := digits / 2;
    }
  }

  method GetSqrtRatioAtTick(tick: int) returns (r: Result<U160>)
    ensures r == SqrtRatioAtTick(tick)
  {
    hide InverseRatio, Wrap;
    var absTick := Abs(tick);
    if absTick > MAX_TICK {
      return Failure("Invalid tick");
    }
    var ratio := AccumulateRatio(absTick);
    if ratio == 0 {
      return Failure("panic: division by zero");
    }
    if tick > 0 {
      DivRange(MAX_WORD, ratio);
      ratio := MAX_WORD / ratio;
    }
    var shifted := Wrap(ratio + 0xffffffff) / 0x1_00000000;
    if shifted < Q160 {
      return Success(shifted);
    } else {
      return Failure("panic: value too large for U160");
    }
  }

  // ---- The tabulated powers dominate one another ----

  /** The truncated product of the first k coefficients: the ratio of a tick 2^k - 1. */
  function Prefix(k: nat): nat
    requires k <= 20
  {
    if k == 0 then Q128 else Product(Prefix(k - 1), Coefficient(k - 1))
  }

  function PrefixTable(k: nat): nat
    requires k <= 20
  {
    match k
    case 0 => 0x100000000000000000000000000000000
    case 1 => 0xfffcb933bd6fad37aa2d162d1a594001
    case 2 => 0xfff62bbb6d458ec3c792106391dc463e
    case 3 => 0xffe9114b9cf28d394c3203dbd44eb085
    case 4 => 0xffcede6f1d8be90b88f350424e84e5b7
    case 5 => 0xff9a80c1ada7480b1daa871d7c4d9b36
    case 6 => 0xff31e58d5a53c84fc142023ec1b1dfd7
    case 7 => 0xfe612f8183b1ea21b72fb71b03542ae4
    case 8 => 0xfcc1c2f380536bc67ee1ff564d1080b2
    case 9 => 0xf98ad8c8d7ecc0a3f8a42c9724cffb6a
    case 10 => 0xf33c480189b415235ad119427d89a1f6
    case 11 => 0xe71889a85903fd03cb7cc40bdf371a9c
    case 12 => 0xd09a9f3e93db5812d4820c2fc67a3e3a
    case 13 => 0xa9f973345b9e647c4163af91d00b255f
    case 14 => 0x70d9db6485f04ddd567e07c7b89f8e7c
    case 15 => 0x31beb65d91af63ae717a760be3b374dc
    case 16 => 0x9aa7036fd2355429c4030b032e1cf71
    case 17 => 0x5d6c2af97aaa8de0e5a6bf23f5e547
    case 18 => 0x221755388a6658e120f4a3c503cf
    case 19 => 0x48a25e36942a4fc0c1f899f
    case _ => 0x149b7873d84d48
  }

  lemma TableStep(k: nat)
    requires k < 20
    ensures Product(PrefixTable(k), Coefficient(k)) == PrefixTable(k + 1)
    ensures PrefixTable(k) * 20001 >= Coefficient(k) * 20002
  {
    match k
    case 0 =>
    case 1 =>
    case 2 =>
    case 3 =>
    case 4 =>
    case 5 =>
    case 6 =>
    case 7 =>
    case 8 =>
    case 9 =>
    case 10 =>
    case 11 =>
    case 12 =>
    case 13 =>
    case 14 =>
    case 15 =>
    case 16 =>
    case 17 =>
    case 18 =>
    case _ =>
  }

  lemma {:induction false} PrefixValue(k: nat)
    requires k <= 20
    ensures Prefix(k) == PrefixTable(k)
  {
    if k != 0 {
      PrefixValue(k - 1);
      TableStep(k - 1);
    }
  }

  lemma Unfold(ratio: nat, a: nat, i: nat, next: nat)
    requires i < 20
    requires next == if a % 2 == 1 then Product(ratio, Coefficient(i)) else ratio
    ensures RatioFrom(ratio, a, i) == RatioFrom(next, a / 2, i + 1)
  {
  }

  // ---- One tick apart, after all the truncations ----

  /** `x` exceeds `y` by one part in 20001, give or take `slack` units. */
  predicate Dominates(x: int, y: int, slack: int) {
    20002 * y <= 20001 * (x + slack)
  }

  lemma ProductBounds(ratio: nat, c: nat)
    ensures Product(ratio, c) * Q128 <= ratio * c < Product(ratio, c) * Q128 + Q128
  {
    DivBounds(ratio * c, Q128);
  }

  /** A truncated multiplication keeps the dominance, at the cost of one unit. */
  lemma DominanceStep(x: int, y: int, slack: int, c: int, q: int, x1: int, y1: int)
    requires 0 < q && 0 <= c <= q && 0 <= slack && Dominates(x, y, slack)
    requires x * c < x1 * q + q && y1 * q <= y * c
    ensures Dominates(x1, y1, slack + 1)
  {
    MulMono(20002 * y, 20001 * (x + slack), c);
    assert 20002 * y * c == 20002 * (y * c);
    assert 20001 * (x + slack) * c == 20001 * (x * c) + 20001 * (slack * c);
    MulMono(c, q, slack);
    assert (20002 * y1) * q == 20002 * (y1 * q);
    assert (20001 * (x1 + slack + 1)) * q == 20001 * (x1 * q) + 20001 * (slack * q) + 20001 * q;
    MulCancel(20002 * y1, 20001 * (x1 + slack + 1), q);
  }

  lemma {:induction false} DominanceKept(x: nat, y: nat, a: nat, i: nat, slack: nat)
    requires i <= 20 && Dominates(x, y, slack)
    ensures Dominates(RatioFrom(x, a, i), RatioFrom(y, a, i), slack + (20 - i))
    decreases 20 - i
  {
    if i < 20 {
      var c := Coefficient(i);
      if a % 2 == 1 {
        ProductBounds(x, c);
        ProductBounds(y, c);
        DominanceStep(x, y, slack, c, Q128, Product(x, c), Product(y, c));
        DominanceKept(Product(x, c), Product(y, c), a / 2, i + 1, slack + 1);
      } else {
        DominanceKept(x, y, a / 2, i + 1, slack + 1);
      }
    }
  }

  lemma PrefixStep(i: nat)
    requires i < 20
    ensures Dominates(Prefix(i), Coefficient(i), 0)
    ensures Product(Q128, Coefficient(i)) == Coefficient(i)
    ensures Prefix(i + 1) == Product(Prefix(i), Coefficient(i))
  {
    PrefixValue(i);
    TableStep(i);
    hide PrefixTable, Coefficient;
  }

  /** Adding one to the tick carries through its trailing one digits. */
  lemma {:induction false} Carry(a: nat, i: nat)
    requires i < 20 && a + 1 < Pow2(20 - i)
    ensures Dominates(RatioFrom(Prefix(i), a, i), RatioFrom(Q128, a + 1, i), 20)
    decreases 20 - i
  {
    hide PrefixTable, Coefficient, RatioFrom, Dominates, Product, Prefix;
    PrefixStep(i);
    var c := Coefficient(i);
    if a % 2 == 0 {
      Unfold(Prefix(i), a, i, Prefix(i));
      Unfold(Q128, a + 1, i, c);
      assert (a + 1) / 2 == a / 2;
      DominanceKept(Prefix(i), c, a / 2, i + 1, 0);
      DominatesMore(RatioFrom(Prefix(i), a, i), RatioFrom(Q128, a + 1, i), 20 - i - 1);
    } else {
      Unfold(Prefix(i), a, i, Prefix(i + 1));
      Unfold(Q128, a + 1, i, Q128);
      assert Pow2(20 - i) == 2 * Pow2(20 - i - 1);
      assert (a + 1) / 2 == a / 2 + 1;
      if i < 19 {
        Carry(a / 2, i + 1);
      }
    }
  }

  lemma DominatesMore(x: int, y: int, slack: int)
    requires slack <= 20 && Dominates(x, y, slack)
    ensures Dominates(x, y, 20)
  {
  }

  lemma TickBits()
    ensures MAX_TICK < Pow2(20)
  {
    assert Pow2(4) == 16;
    Pow2Add(4, 4);
    Pow2Add(8, 8);
    Pow2Add(16, 4);
  }

  lemma RatioDominates(a: nat)
    requires a < MAX_TICK
    ensures Dominates(InverseRatio(a), InverseRatio(a + 1), 20)
  {
    TickBits();
    Carry(a, 0);
  }

  // ---- Every ratio is large enough for the dominance to survive the final shift ----

  const LEAST_RATIO: nat := 0x1000276a221a17501

  lemma LeastRatio()
    ensures InverseRatio(MAX_TICK) == LEAST_RATIO
  {
    hide RatioFrom;
    Unfold(Q128, 887272, 0, Q128);
    Unfold(Q128, 443636, 1, Q128);
    Unfold(Q128, 221818, 2, Q128);
    Unfold(Q128, 110909, 3, 0xffe5caca7e10e4e61c3624eaa0941cd0);
    Unfold(0xffe5caca7e10e4e61c3624eaa0941cd0, 55454, 4, 0xffe5caca7e10e4e61c3624eaa0941cd0);
    Unfold(0xffe5caca7e10e4e61c3624eaa0941cd0, 27727, 5, 0xff7d10c63a977157da4140deb6f31a7b);
    Unfold(0xff7d10c63a977157da4140deb6f31a7b, 13863, 6, 0xfeac1d4052f7714818b490c1138ea058);
    Unfold(0xfeac1d4052f7714818b490c1138ea058, 6931, 7, 0xfd0c3654da9e033741d1a9f93707f6f6);
    Unfold(0xfd0c3654da9e033741d1a9f93707f6f6, 3465, 8, 0xf9d459c5817dbafa9e376ae84dcfeb8b);
    Unfold(0xf9d459c5817dbafa9e376ae84dcfeb8b, 1732, 9, 0xf9d459c5817dbafa9e376ae84dcfeb8b);
    Unfold(0xf9d459c5817dbafa9e376ae84dcfeb8b, 866, 10, 0xf9d459c5817dbafa9e376ae84dcfeb8b);
    Unfold(0xf9d459c5817dbafa9e376ae84dcfeb8b, 433, 11, 0xe183ac4e25d5949966242a64e9c80e2f);
    Unfold(0xe183ac4e25d5949966242a64e9c80e2f, 216, 12, 0xe183ac4e25d5949966242a64e9c80e2f);
    Unfold(0xe183ac4e25d5949966242a64e9c80e2f, 108, 13, 0xe183ac4e25d5949966242a64e9c80e2f);
    Unfold(0xe183ac4e25d5949966242a64e9c80e2f, 54, 14, 0xe183ac4e25d5949966242a64e9c80e2f);
    Unfold(0xe183ac4e25d5949966242a64e9c80e2f, 27, 15, 0x2bd1a4c5d2a1181aca1ef15e64c2e3cf);
    Unfold(0x2bd1a4c5d2a1181aca1ef15e64c2e3cf, 13, 16, 0x1a785cbbdc050483e3be5812760be73);
    Unfold(0x1a785cbbdc050483e3be5812760be73, 6, 17, 0x1a785cbbdc050483e3be5812760be73);
    Unfold(0x1a785cbbdc050483e3be5812760be73, 3, 18, 0x3865a6455d07d2bc87c5956d2e);
    Unfold(0x3865a6455d07d2bc87c5956d2e, 1, 19, 0x1000276a221a17501);
    EndsAt(LEAST_RATIO);
  }

  lemma EndsAt(ratio: nat)
    ensures RatioFrom(ratio, 0, 20) == ratio
  {
  }

  lemma {:induction false} RatioAtLeast(a: nat)
    requires a <= MAX_TICK
    ensures LEAST_RATIO <= InverseRatio(a)
    decreases MAX_TICK - a
  {
    if a == MAX_TICK {
      LeastRatio();
    } else {
      RatioAtLeast(a + 1);
      RatioDominates(a);
    }
  }

  lemma {:induction false} RatioAtMost(ratio: nat, a: nat, i: nat)
    requires i <= 20
    ensures RatioFrom(ratio, a, i) <= ratio
    decreases 20 - i
  {
    if i < 20 {
      var c := Coefficient(i);
      var next := if a % 2 == 1 then Product(ratio, c) else ratio;
      ProductBounds(ratio, c);
      MulMono(c, Q128, ratio);
      MulCancel(Product(ratio, c), ratio, Q128);
      RatioAtMost(next, a / 2, i + 1);
    }
  }

  /** The price before the 32 fractional bits are rounded up and dropped. */
  function Directed(tick: int): int
    requires Abs(tick) <= MAX_TICK && InverseRatio(Abs(tick)) != 0
  {
    var ratio := InverseRatio(Abs(tick));
    if tick > 0 then MAX_WORD / ratio else ratio
  }

  const NARROW: int := 0x1_0000000000000000_0000000000000000_0000000000000000 - 0xffffffff

  lemma ShiftedFits(d: int)
    requires 0 < d < NARROW
    ensures Wrap(d + 0xffffffff) == d + 0xffffffff
    ensures 0 <= (d + 0xffffffff) / 0x1_00000000 < Q160
  {
  }

  lemma DirectedFits(tick: int)
    requires Abs(tick) <= MAX_TICK
    ensures InverseRatio(Abs(tick)) != 0
    ensures 0 < Directed(tick) < NARROW
  {
    var ratio := InverseRatio(Abs(tick));
    RatioAtLeast(Abs(tick));
    RatioAtMost(Q128, Abs(tick), 0);
    hide InverseRatio;
    QuotientBounds(ratio);
  }

  /** No tick in range fails, and the price is the directed ratio shifted with rounding up. */
  lemma RatioValue(tick: int)
    requires Abs(tick) <= MAX_TICK
    ensures InverseRatio(Abs(tick)) != 0
    ensures SqrtRatioAtTick(tick) == Success((Directed(tick) + 0xffffffff) / 0x1_00000000)
  {
    DirectedFits(tick);
    hide InverseRatio;
    ShiftedFits(Directed(tick));
    hide Wrap;
  }

  lemma QuotientBounds(ratio: int)
    requires LEAST_RATIO <= ratio <= Q128
    ensures 0 < MAX_WORD / ratio < NARROW
  {
    DivGe(MAX_WORD, ratio, 1);
    DivGe(MAX_WORD, ratio, NARROW);
    MulMono(LEAST_RATIO, ratio, NARROW);
  }

  lemma ShiftUpStrict(x: int, y: int)
    requires x + 0x1_00000000 <= y
    ensures (x + 0xffffffff) / 0x1_00000000 < (y + 0xffffffff) / 0x1_00000000
  {
  }

  lemma InvertedGap(r0: int, r1: int, m: int, g: int)
    requires 0 < r1 && 0 < g && Dominates(r0, r1, 20) && 20001 * 40 <= r1
    requires r0 * (120009 * g) <= m
    ensures m / r0 + g <= m / r1
  {
    var q := m / r0;
    DivBounds(m, r0);
    DivGe(m, r0, 120009 * g);
    assert 40003 * r1 <= 40002 * r0;
    MulMono(40003 * r1, 40002 * r0, q + g);
    MulMono(120009 * g, q, r0);
    var rq, rg := r0 * q, r0 * g;
    assert r0 * (120009 * g) == 120009 * rg;
    assert 40002 * r0 * (q + g) == 40002 * rq + 40002 * rg;
    assert 40003 * r1 * (q + g) == 40003 * (r1 * (q + g));
    DivGe(m, r1, q + g);
  }

  lemma AtZero()
    ensures InverseRatio(0) == Q128 && Directed(0) == MAX_WORD / Q128 + 1
  {
    hide Coefficient;
    ZeroKeeps(Q128, 0);
  }

  lemma {:induction false} ZeroKeeps(ratio: nat, i: nat)
    requires i <= 20
    ensures RatioFrom(ratio, 0, i) == ratio
    decreases 20 - i
  {
    if i < 20 {
      ZeroKeeps(ratio, i + 1);
    }
  }

  lemma DownwardGap(r0: int, r1: int)
    requires Dominates(r0, r1, 20) && LEAST_RATIO <= r1
    ensures r1 + 0x1_00000000 <= r0
  {
  }

  /** Consecutive ticks have different prices: the price strictly increases with the tick. */
  lemma RatioIncreases(tick: int)
    requires MIN_TICK <= tick < MAX_TICK
    ensures SqrtRatioAtTick(tick).Success? && SqrtRatioAtTick(tick + 1).Success?
    ensures SqrtRatioAtTick(tick).value < SqrtRatioAtTick(tick + 1).value
  {
    hide InverseRatio, SqrtRatioAtTick, Dominates;
    RatioValue(tick);
    RatioValue(tick + 1);
    if tick < 0 {
      var a := Abs(tick + 1);
      assert Abs(tick) == a + 1;
      RatioDominates(a);
      RatioAtLeast(a + 1);
      DownwardGap(InverseRatio(a), InverseRatio(a + 1));
      if a == 0 {
        AtZero();
      }
    } else {
      var r0, r1 := InverseRatio(tick), InverseRatio(tick + 1);
      RatioDominates(tick);
      RatioAtLeast(tick + 1);
      RatioBelowOne(tick);
      MulMono(r0, Q128, 120009 * 0x1_00000001);
      InvertedGap(r0, r1, MAX_WORD, 0x1_00000001);
      if tick == 0 {
        AtZero();
      }
    }
    ShiftUpStrict(Directed(tick), Directed(tick + 1));
  }

  lemma RatioBelowOne(a: nat)
    ensures InverseRatio(a) <= Q128
  {
    RatioAtMost(Q128, a, 0);
  }

  /** Over the whole range. */
  lemma {:induction false} RatioMonotone(low: int, high: int)
    requires MIN_TICK <= low < high <= MAX_TICK
    ensures SqrtRatioAtTick(low).Success? && SqrtRatioAtTick(high).Success?
    ensures SqrtRatioAtTick(low).value < SqrtRatioAtTick(high).value
    decreases high - low
  {
    hide SqrtRatioAtTick;
    RatioIncreases(low);
    if low + 1 < high {
      RatioMonotone(low + 1, high);
    }
  }

  /** The two ends of the range are the documented price bounds. */
  lemma RatioEndpoints()
    ensures SqrtRatioAtTick(MIN_TICK) == Success(MIN_SQRT_RATIO)
    ensures SqrtRatioAtTick(MAX_TICK) == Success(MAX_SQRT_RATIO)
  {
    hide InverseRatio, SqrtRatioAtTick;
    LeastRatio();
    RatioValue(MIN_TICK);
    RatioValue(MAX_TICK);
  }

  /** The price of a tick, where it has one. */
  function PriceOf(tick: int): U160
    requires MIN_TICK <= tick <= MAX_TICK
  {
    RatioValue(tick);
    SqrtRatioAtTick(tick).value
  }
}

// src/lb/pool.rs: the two walks over the bins of a Liquidity Book pair, exact input and exact output.
module LbWalk {
  import opened Results
  import opened Arith
  import opened Words
  import opened LbMath
  import Ticks

  datatype Pair = Pair(
    binStep: nat, activeId: int, bins: map<int, (U128, U128)>,
    baseFactor: nat, filterPeriod: nat, decayPeriod: nat, reductionFactor: nat, variableFeeControl: nat,
    maxVolatility: nat, volatility: nat, volatilityReference: nat, idReference: int, lastUpdate: nat)

  /** A walk in one direction, with the references fixed before its first bin. */
  datatype Walk = Walk(pair: Pair, forY: bool, volatilityReference: nat, idReference: int)

  /** What a walk sees of a bin: the reserve it can pay out, its price and its fee. */
  datatype Bin = Bin(reserve: U128, price: U256, fee: nat)

  /** What a bin takes and gives. */
  datatype Taken = Taken(amountIn: U128, fee: U128, amountOut: U128)

  /** The running totals of a walk: what is left to move, what has moved, and the fees. */
  datatype Totals = Totals(left: U128, moved: U128, fee: U128)

  function ToU128(x: int): Result<U128> {
    if 0 <= x < Q128 then Success(x) else Failure("panic: value does not fit u128")
  }

  function UpdateReferences(p: Pair, timestamp: nat): (nat, int) {
    var dt := Max(timestamp - p.lastUpdate, 0);
    if dt < p.filterPeriod then (p.volatilityReference, p.idReference)
    else if dt < p.decayPeriod then
      MulNonneg(p.volatility, p.reductionFactor);
      (p.volatility * p.reductionFactor / 10_000 % 0x1_00000000, p.activeId)
    else (0, p.activeId)
  }

  function AbsDiff(a: int, b: int): nat {
    if a < b then b - a else a - b
  }

  function VolatilityAt(w: Walk, id: int): nat {
    Min(w.volatilityReference + AbsDiff(id, w.idReference) * 10_000, w.pair.maxVolatility)
  }

  function PriceFromId(id: int, binStep: nat): U256 {
    Power(Wrap(SCALE + binStep * Q128 / 10_000), id - REAL_ID_SHIFT)
  }

  function ReserveOut(w: Walk, id: int): U128 {
    if id !in w.pair.bins then 0 else if w.forY then w.pair.bins[id].1 else w.pair.bins[id].0
  }

  function BinAt(w: Walk, id: int): (r: Option<Bin>)
    ensures r.Some? <==> 0 < ReserveOut(w, id)
    ensures r.Some? ==> r.value.reserve == ReserveOut(w, id) && r.value.fee <= MAX_FEE
  {
    if ReserveOut(w, id) == 0 then None
    else
      Some(Bin(ReserveOut(w, id), PriceFromId(id, w.pair.binStep),
               TotalFee(w.pair.baseFactor, w.pair.binStep, VolatilityAt(w, id), w.pair.variableFeeControl)))
  }

  /** The stored bins still ahead of `id` in the walk's direction. */
  function Ahead(w: Walk, id: int): set<int> {
    set k | k in w.pair.bins && (if w.forY then k < id else id < k)
  }

  function NextBin(w: Walk, id: int): (r: Option<int>)
    ensures r.None? <==> Ahead(w, id) == {}
    ensures r.Some? ==> r.value in Ahead(w, id) && Ahead(w, id) == Ahead(w, r.value) + {r.value}
    ensures r.Some? ==> |Ahead(w, r.value)| < |Ahead(w, id)|
  {
    if w.forY then Ticks.Last(Ahead(w, id)) else Ticks.First(Ahead(w, id))
  }

  function StartWalk(p: Pair, forY: bool, timestamp: nat): Walk {
    var (volatilityReference, idReference) := UpdateReferences(p, timestamp);
    Walk(p, forY, volatilityReference, idReference)
  }

  // ---- One bin ----

  function RawIn(forY: bool, out: U128, price: U256): U256 {
    if forY then ShiftDivUp(out, price) else MulShiftUp(out, price)
  }

  function RawOut(forY: bool, paid: U128, price: U256): U256 {
    if forY then MulShiftDown(paid, price) else ShiftDivDown(paid, price)
  }

  function TakeOut(forY: bool, b: Bin, left: U128): (r: Result<Taken>)
    requires b.fee <= MAX_FEE
    ensures r.Success? ==> r.value.amountIn <= left
  {
    var maxIn :- ToU128(RawIn(forY, b.reserve, b.price));
    var maxFee := FeeAmount(maxIn, b.fee);
    var maxGross := Min(maxIn + maxFee, Q128 - 1);
    if left >= maxGross then Success(Taken(maxGross, maxFee, b.reserve))
    else
      var fee := FeeAmountFrom(left, b.fee);
      var out :- ToU128(RawOut(forY, left - fee, b.price));
      Success(Taken(left, fee, Min(out, b.reserve)))
  }

  function TakeIn(forY: bool, b: Bin, wanted: U128): (r: Result<Taken>)
    requires b.fee <= MAX_FEE
    ensures r.Success? ==> r.value.amountOut <= wanted
  {
    var out := Min(b.reserve, wanted);
    var net :- ToU128(RawIn(forY, out, b.price));
    var fee := FeeAmount(net, b.fee);
    var gross :- ToU128(net + fee);
    Success(Taken(gross, fee, out))
  }

  // ---- The walks ----

  function AddUp(left: U128, moved: int, fee: int): Result<Totals> {
    var m :- ToU128(moved);
    var f :- ToU128(fee);
    Success(Totals(left, m, f))
  }

  function StepOut(w: Walk, id: int, t: Totals): Result<Totals> {
    match BinAt(w, id)
    case None => Success(t)
    case Some(b) =>
      var k :- TakeOut(w.forY, b, t.left);
      AddUp(t.left - k.amountIn, t.moved + k.amountOut, t.fee + k.fee)
  }

  function SwapOutFrom(w: Walk, id: int, t: Totals): Result<Totals>
    decreases |Ahead(w, id)|
  {
    var n :- StepOut(w, id, t);
    var next := NextBin(w, id);
    if n.left == 0 || next.None? then Success(n) else SwapOutFrom(w, next.value, n)
  }

  function StepIn(w: Walk, id: int, t: Totals): Result<Totals> {
    match BinAt(w, id)
    case None => Success(t)
    case Some(b) =>
      var k :- TakeIn(w.forY, b, t.left);
      AddUp(t.left - k.amountOut, t.moved + k.amountIn, t.fee + k.fee)
  }

  function SwapInFrom(w: Walk, id: int, t: Totals): Result<Totals>
    decreases |Ahead(w, id)|
  {
    var n :- StepIn(w, id, t);
    var next := NextBin(w, id);
    if n.left == 0 || next.None? then Success(n) else SwapInFrom(w, next.value, n)
  }

  /** `simulate_swap_out_at`: (input left, output, fee). */
  function SwapOutAt(p: Pair, amountIn: U128, forY: bool, timestamp: nat): Result<Totals> {
    SwapOutFrom(StartWalk(p, forY, timestamp), p.activeId, Totals(amountIn, 0, 0))
  }

  /** `simulate_swap_in_at`: (output left, input, fee). */
  function SwapInAt(p: Pair, amountOut: U128, forY: bool, timestamp: nat): Result<Totals> {
    SwapInFrom(StartWalk(p, forY, timestamp), p.activeId, Totals(amountOut, 0, 0))
  }

  // ---- One bin, both ways ----

  /** What an input buys at a price, and what an output costs, by name. */
  predicate Buys(forY: bool, paid: U128, price: U256, out: U256) {
    RawOut(forY, paid, price) == out
  }

  predicate Costs(forY: bool, out: U128, price: U256, paid: U256) {
    RawIn(forY, out, price) == paid
  }

  lemma RawAdjoint(forY: bool, paid: U128, out: U128, price: U256)
    requires 0 < price
    ensures exists got: U256, need: U256 ::
              Buys(forY, paid, price, got) && Costs(forY, out, price, need) && (out <= got <==> need <= paid)
  {
    assert Buys(forY, paid, price, RawOut(forY, paid, price)) && Costs(forY, out, price, RawIn(forY, out, price));
    if forY {
      SellXAdjoint(paid, out, price);
    } else {
      SellYAdjoint(paid, out, price);
    }
  }

  /** Short of the gross price of `out`, what is left after the fee buys less than `out`. */
  lemma ShortBuysLess(forY: bool, b: Bin, x: U128, out: U128)
    requires 0 < b.price && b.fee <= MAX_FEE
    requires var net := RawIn(forY, out, b.price); x < net + FeeAmount(net, b.fee)
    ensures RawOut(forY, x - FeeAmountFrom(x, b.fee), b.price) < out
  {
    hide RawIn, RawOut, FeeAmount, FeeAmountFrom;
    FeesAgree(x, RawIn(forY, out, b.price), b.fee);
    RawAdjoint(forY, x - FeeAmountFrom(x, b.fee), out, b.price);
  }

  lemma EnoughBuys(forY: bool, b: Bin, x: U128, out: U128, net: U256, left: U128)
    requires 0 < b.price && b.fee <= MAX_FEE && left == x - FeeAmountFrom(x, b.fee)
    requires net == RawIn(forY, out, b.price) && net + FeeAmount(net, b.fee) <= x
    ensures out <= RawOut(forY, left, b.price)
  {
    hide RawIn, RawOut, FeeAmount, FeeAmountFrom;
    FeesAgree(x, net, b.fee);
    RawAdjoint(forY, left, out, b.price);
  }

  /** A larger output needs no smaller input, fee included. */
  lemma GrossMonotone(forY: bool, b: Bin, a: U128, c: U128)
    requires 0 < b.price && b.fee <= MAX_FEE && a <= c && RawIn(forY, c, b.price) < Q128
    ensures RawIn(forY, a, b.price) <= RawIn(forY, c, b.price)
    ensures FeeAmount(RawIn(forY, a, b.price), b.fee) <= FeeAmount(RawIn(forY, c, b.price), b.fee)
  {
    hide RawIn, RawOut, FeeAmount;
    RawAdjoint(forY, RawIn(forY, c, b.price), c, b.price);
    RawAdjoint(forY, RawIn(forY, c, b.price), a, b.price);
    FeeMonotone(RawIn(forY, a, b.price), RawIn(forY, c, b.price), b.fee);
  }

  lemma SomethingCosts(forY: bool, b: Bin, out: U128)
    requires 0 < b.price && 0 < out
    ensures 0 < RawIn(forY, out, b.price)
  {
    hide RawIn;
    RawAdjoint(forY, 0, out, b.price);
    NothingBuysNothing(forY, b.price);
  }

  lemma NothingBuysNothing(forY: bool, price: U256)
    ensures RawOut(forY, 0, price) == 0
  {
    hide MulShiftDown, ShiftDivDown;
    if forY {
      MulShiftIsExact(0, price);
    } else if price == 0 {
      ZeroPrice(0);
    } else {
      ShiftDivIsExact(0, price);
    }
  }

  lemma ToU128Value(x: int)
    ensures ToU128(x).Success? <==> 0 <= x < Q128
    ensures ToU128(x).Success? ==> ToU128(x).value == x
  {
  }

  lemma PartialFits(forY: bool, b: Bin, x: U128)
    requires b.fee <= MAX_FEE
    requires var maxIn := RawIn(forY, b.reserve, b.price); x < maxIn + FeeAmount(maxIn, b.fee)
    ensures RawOut(forY, x - FeeAmountFrom(x, b.fee), b.price) < Q128
  {
    if b.price == 0 {
      MulShiftIsExact(b.reserve, 0);
      FreeIsFree(b.fee);
    } else {
      ShortBuysLess(forY, b, x, b.reserve);
    }
  }

  lemma FreeIsFree(fee: nat)
    requires fee <= MAX_FEE
    ensures FeeAmount(0, fee) == 0
  {
    FeeAmountLe(0, fee, 0);
  }

  /** What the exact-input computation on a bin answers. */
  predicate TakesOut(forY: bool, b: Bin, x: U128, r: Result<Taken>)
    requires b.fee <= MAX_FEE
  {
    r == TakeOut(forY, b, x)
  }

  /** It answers, whatever the input, exactly when the bin's whole reserve has a price. */
  lemma BinOutAnswers(forY: bool, b: Bin, x: U128)
    requires b.fee <= MAX_FEE
    ensures exists r: Result<Taken> ::
              && TakesOut(forY, b, x, r) && (r.Success? <==> RawIn(forY, b.reserve, b.price) < Q128)
              && (r.Success? ==> r.value.fee <= r.value.amountIn)
  {
    assert TakesOut(forY, b, x, TakeOut(forY, b, x));
    hide RawIn, RawOut, FeeAmount, FeeAmountFrom, ToU128;
    var maxIn := RawIn(forY, b.reserve, b.price);
    ToU128Value(maxIn);
    ToU128Value(RawOut(forY, x - FeeAmountFrom(x, b.fee), b.price));
    if maxIn < Q128 && x < maxIn + FeeAmount(maxIn, b.fee) {
      PartialFits(forY, b, x);
    }
  }

  /** A bin in the input walk: never more than its reserve, always at a cost. */
  lemma BinIn(forY: bool, b: Bin, wanted: U128)
    requires 0 < b.price && b.fee <= MAX_FEE && TakeIn(forY, b, wanted).Success?
    ensures var k := TakeIn(forY, b, wanted).value;
            k.amountOut == Min(b.reserve, wanted) && (0 < wanted && 0 < b.reserve ==> 0 < k.amountIn)
  {
    hide RawIn;
    var out: U128 := Min(b.reserve, wanted);
    if 0 < out {
      SomethingCosts(forY, b, out);
    }
  }

  /**
   * What the input walk asks of a bin is the least input with which the output walk gets that much
   * from it; with exactly that much, the output walk leaves nothing over.
   */
  lemma BinInIsLeast(forY: bool, b: Bin, wanted: U128, x: U128)
    requires 0 < b.price && b.fee <= MAX_FEE && RawIn(forY, b.reserve, b.price) < Q128
    requires TakeIn(forY, b, wanted).Success?
    ensures TakeOut(forY, b, x).Success?
    ensures var k, o := TakeIn(forY, b, wanted).value, TakeOut(forY, b, x).value;
            && (k.amountIn <= x <==> k.amountOut <= o.amountOut)
            && (x <= k.amountIn ==> o.amountIn == x)
            && (b.reserve <= wanted && k.amountIn <= x ==> o.amountIn == k.amountIn && o.amountOut == b.reserve)
  {
    hide RawIn, RawOut, FeeAmount, FeeAmountFrom;
    var out: U128 := Min(b.reserve, wanted);
    BinOutAnswers(forY, b, x);
    GrossMonotone(forY, b, out, b.reserve);
    var net := RawIn(forY, out, b.price);
    if x < net + FeeAmount(net, b.fee) {
      ShortBuysLess(forY, b, x, out);
    } else {
      EnoughBuys(forY, b, x, out, net, x - FeeAmountFrom(x, b.fee));
    }
  }

  // ---- Whole walks ----

  ghost predicate PositivePrices(w: Walk) {
    forall id :: BinAt(w, id).Some? ==> 0 < BinAt(w, id).value.price
  }

  lemma {:induction false} OutGrows(w: Walk, id: int, t: Totals)
    requires SwapOutFrom(w, id, t).Success?
    ensures var r := SwapOutFrom(w, id, t).value; r.moved >= t.moved && r.left <= t.left && r.fee >= t.fee
    decreases |Ahead(w, id)|
  {
    hide BinAt, TakeOut, NextBin;
    var n, next := StepOut(w, id, t).value, NextBin(w, id);
    if n.left != 0 && next.Some? {
      OutGrows(w, next.value, n);
    }
  }

  /** Asking for something costs something. */
  lemma {:induction false} InGrows(w: Walk, id: int, t: Totals)
    requires PositivePrices(w) && SwapInFrom(w, id, t).Success?
    ensures var r := SwapInFrom(w, id, t).value;
            r.moved >= t.moved && (r.left == 0 < t.left ==> r.moved > t.moved)
    decreases |Ahead(w, id)|
  {
    hide BinAt, TakeIn, NextBin;
    var n, next := StepIn(w, id, t).value, NextBin(w, id);
    if BinAt(w, id).Some? {
      BinIn(w.forY, BinAt(w, id).value, t.left);
    }
    if n.left != 0 && next.Some? {
      InGrows(w, next.value, n);
    }
  }

  /** One bin of both walks at once. */
  lemma StepsAgree(w: Walk, id: int, ti: Totals, to: Totals, ni: Totals, no: Totals)
    requires PositivePrices(w) && StepIn(w, id, ti) == Success(ni) && StepOut(w, id, to) == Success(no)
    ensures var need := ni.moved - ti.moved;
            && ni.left <= ti.left && 0 <= need
            && (need <= to.left <==> ti.left - ni.left <= no.moved - to.moved)
            && (to.left <= need ==> no.left == 0)
            && (0 < ni.left && need <= to.left ==>
                  no.left == to.left - need && no.moved - to.moved == ti.left - ni.left)
  {
    hide BinAt, TakeIn, TakeOut;
    if BinAt(w, id).Some? {
      var b := BinAt(w, id).value;
      BinIn(w.forY, b, ti.left);
      BinOutAnswers(w.forY, b, to.left);
      BinInIsLeast(w.forY, b, ti.left, to.left);
    }
  }

  /** The two walks match wherever both answer. */
  lemma {:induction false} WalksMatch(w: Walk, id: int, ti: Totals, to: Totals)
    requires PositivePrices(w)
    requires SwapInFrom(w, id, ti).Success? && SwapInFrom(w, id, ti).value.left == 0
    requires SwapOutFrom(w, id, to).Success?
    ensures var ri, ro := SwapInFrom(w, id, ti).value, SwapOutFrom(w, id, to).value;
            && (ri.moved - ti.moved <= to.left <==> ti.left <= ro.moved - to.moved)
            && (to.left == ri.moved - ti.moved ==> ro.left == 0)
    decreases |Ahead(w, id)|
  {
    hide StepIn, StepOut, NextBin, PositivePrices;
    var ni, no, next := StepIn(w, id, ti).value, StepOut(w, id, to).value, NextBin(w, id);
    StepsAgree(w, id, ti, to, StepIn(w, id, ti).value, StepOut(w, id, to).value);
    OutGrows(w, id, to);
    var ri, ro := SwapInFrom(w, id, ti).value, SwapOutFrom(w, id, to).value;
    if next.Some? {
      if no.left != 0 {
        OutGrows(w, next.value, no);
      }
      if ni.left != 0 {
        InGrows(w, next.value, ni);
        if no.left != 0 {
          WalksMatch(w, next.value, ni, no);
        }
      }
    }
  }

  /** No total of `a` exceeds that of `b`. */
  predicate AtMost(a: Totals, b: Totals) {
    a.left <= b.left && a.moved <= b.moved && a.fee <= b.fee
  }

  /** Less taken in, and no more of anything; all the same if not everything was taken. */
  predicate NoMoreTaken(x: U128, p: Taken, y: U128, q: Taken) {
    && p.amountIn <= x && q.amountIn <= y && x - p.amountIn <= y - q.amountIn
    && p.fee <= q.fee && p.amountOut <= q.amountOut
    && (p.amountIn < x ==> p == q)
  }

  lemma BinMonotone(forY: bool, b: Bin, x: U128, y: U128)
    requires b.fee <= MAX_FEE && x <= y
    ensures exists p: Result<Taken>, q: Result<Taken> ::
              && TakesOut(forY, b, x, p) && TakesOut(forY, b, y, q)
              && (q.Success? ==> p.Success? && NoMoreTaken(x, p.value, y, q.value))
  {
    hide RawIn, RawOut, FeeAmount, FeeAmountFrom, ToU128;
    var maxIn := RawIn(forY, b.reserve, b.price);
    ToU128Value(maxIn);
    var maxFee := FeeAmount(maxIn, b.fee);
    var netX := x - FeeAmountFrom(x, b.fee);
    FeeMonotone(x, y, b.fee);
    RawOutMonotone(forY, netX, y - FeeAmountFrom(y, b.fee), b.price);
    ToU128Value(RawOut(forY, netX, b.price));
    ToU128Value(RawOut(forY, y - FeeAmountFrom(y, b.fee), b.price));
    if x < Min(maxIn + maxFee, Q128 - 1) {
      PartialFee(x, maxIn, b.fee);
      PartialFits(forY, b, x);
    }
    assert TakesOut(forY, b, x, TakeOut(forY, b, x)) && TakesOut(forY, b, y, TakeOut(forY, b, y));
  }

  /** Less than the gross amount carries less than its fee. */
  lemma PartialFee(x: nat, net: nat, fee: nat)
    requires fee <= MAX_FEE && x < net + FeeAmount(net, fee)
    ensures FeeAmountFrom(x, fee) <= FeeAmount(net, fee)
  {
    hide FeeAmount, FeeAmountFrom;
    FeesAgree(net + FeeAmount(net, fee), net, fee);
    FeeMonotone(x, net + FeeAmount(net, fee), fee);
  }

  lemma RawOutMonotone(forY: bool, x: U128, y: U128, price: U256)
    requires x <= y
    ensures RawOut(forY, x, price) <= RawOut(forY, y, price)
  {
    hide Wrap;
    if forY {
      MulShiftIsExact(x, price);
      MulShiftIsExact(y, price);
      MulMono(x, y, price);
      DivMono(x * price, y * price, Q128);
    } else if price != 0 {
      ShiftDivIsExact(x, price);
      ShiftDivIsExact(y, price);
      DivMono(x * Q128, y * Q128, price);
    }
  }

  lemma AddUpValue(left: U128, moved: int, fee: int)
    ensures AddUp(left, moved, fee).Success? <==> 0 <= moved < Q128 && 0 <= fee < Q128
    ensures AddUp(left, moved, fee).Success? ==> AddUp(left, moved, fee).value == Totals(left, moved, fee)
  {
  }

  predicate StepsOut(w: Walk, id: int, t: Totals, r: Result<Totals>) {
    StepOut(w, id, t) == r
  }

  lemma StepMonotone(w: Walk, id: int, a: Totals, b: Totals)
    requires AtMost(a, b)
    ensures exists m: Result<Totals>, n: Result<Totals> ::
              && StepsOut(w, id, a, m) && StepsOut(w, id, b, n)
              && (n.Success? ==> m.Success? && AtMost(m.value, n.value))
  {
    hide BinAt, TakeOut, AddUp;
    if BinAt(w, id).Some? {
      var bin := BinAt(w, id).value;
      BinMonotone(w.forY, bin, a.left, b.left);
      var p, q := TakeOut(w.forY, bin, a.left), TakeOut(w.forY, bin, b.left);
      if q.Success? {
        AddUpValue(a.left - p.value.amountIn, a.moved + p.value.amountOut, a.fee + p.value.fee);
        AddUpValue(b.left - q.value.amountIn, b.moved + q.value.amountOut, b.fee + q.value.fee);
      }
    }
    assert StepsOut(w, id, a, StepOut(w, id, a)) && StepsOut(w, id, b, StepOut(w, id, b));
  }

  /** More input never gives less output, over any number of bins; nor a smaller fee. */
  lemma {:induction false} OutMonotone(w: Walk, id: int, a: Totals, b: Totals)
    requires AtMost(a, b) && SwapOutFrom(w, id, b).Success?
    ensures SwapOutFrom(w, id, a).Success? && AtMost(SwapOutFrom(w, id, a).value, SwapOutFrom(w, id, b).value)
    decreases |Ahead(w, id)|
  {
    hide StepOut, BinAt, NextBin;
    StepMonotone(w, id, a, b);
    var m, n, next := StepOut(w, id, a).value, StepOut(w, id, b).value, NextBin(w, id);
    if n.left != 0 && next.Some? {
      if m.left != 0 {
        OutMonotone(w, next.value, m, n);
      } else {
        OutGrows(w, next.value, n);
      }
    }
  }

  // ---- Draining ----

  /** The bins a walk from `id` passes, its own included. */
  function Passed(w: Walk, id: int): set<int>
    decreases |Ahead(w, id)|
  {
    {id} + match NextBin(w, id)
           case None => {}
           case Some(next) => Passed(w, next)
  }

  /** The walk passes every stored bin in its direction, and no other. */
  lemma {:induction false} PassesAllAhead(w: Walk, id: int)
    ensures Passed(w, id) == {id} + Ahead(w, id)
    decreases |Ahead(w, id)|
  {
    hide NextBin;
    var next := NextBin(w, id);
    if next.Some? {
      PassesAllAhead(w, next.value);
    }
  }

  /** All the walk could pay out from `id` on. */
  function Reserves(w: Walk, id: int): nat
    decreases |Ahead(w, id)|
  {
    ReserveOut(w, id) + match NextBin(w, id)
                        case None => 0
                        case Some(next) => Reserves(w, next)
  }

  lemma BinOut(forY: bool, b: Bin, left: U128)
    requires b.fee <= MAX_FEE
    ensures exists r: Result<Taken> ::
              && TakesOut(forY, b, left, r)
              && (r.Success? ==> r.value.amountIn <= left && r.value.amountOut <= b.reserve
                                 && (r.value.amountIn < left ==> r.value.amountOut == b.reserve))
  {
    assert TakesOut(forY, b, left, TakeOut(forY, b, left));
    hide RawIn, RawOut, FeeAmount, FeeAmountFrom;
  }

  /** Output is never more than the reserves ahead; input is left over only when all of them are drained. */
  lemma {:induction false} OutWithinReserves(w: Walk, id: int, t: Totals)
    requires SwapOutFrom(w, id, t).Success?
    ensures var r := SwapOutFrom(w, id, t).value;
            && r.moved - t.moved <= Reserves(w, id)
            && (0 < r.left ==> r.moved - t.moved == Reserves(w, id))
    decreases |Ahead(w, id)|
  {
    hide BinAt, TakeOut, NextBin;
    if BinAt(w, id).Some? {
      BinOut(w.forY, BinAt(w, id).value, t.left);
    }
    var n, next := StepOut(w, id, t).value, NextBin(w, id);
    if n.left != 0 && next.Some? {
      OutWithinReserves(w, next.value, n);
    }
  }

  // ---- When the exact-input walk answers ----

  /** The bin's whole reserve has a price in 128 bits, or it pays nothing out. */
  predicate PricedAt(w: Walk, id: int) {
    BinAt(w, id).None? || RawIn(w.forY, BinAt(w, id).value.reserve, BinAt(w, id).value.price) < Q128
  }

  /** The input that drains a bin, fee included, up to the largest amount. */
  function Gross(w: Walk, id: int): nat {
    match BinAt(w, id)
    case None => 0
    case Some(b) =>
      var net := RawIn(w.forY, b.reserve, b.price);
      Min(net + FeeAmount(net, b.fee), Q128 - 1)
  }

  /** The bins that an input gets to, from `id` on: each past the first by draining the one before. */
  predicate Reaches(w: Walk, id: int, left: nat, k: int)
    decreases |Ahead(w, id)|
  {
    k == id || (Gross(w, id) < left && NextBin(w, id).Some? && Reaches(w, NextBin(w, id).value, left - Gross(w, id), k))
  }

  /** The walk's totals stay within 128 bits. */
  predicate Roomy(w: Walk, id: int, t: Totals) {
    t.moved + Reserves(w, id) < Q128 && t.fee + t.left < Q128
  }

  /** One bin of the exact-input walk: it answers exactly when the bin is priced, and takes up to its gross price. */
  lemma StepOutAnswers(w: Walk, id: int, t: Totals)
    requires Roomy(w, id, t)
    ensures exists r: Result<Totals> ::
              && StepsOut(w, id, t, r) && (r.Success? <==> PricedAt(w, id))
              && (r.Success? ==> r.value.moved - t.moved <= ReserveOut(w, id) && r.value.fee + r.value.left <= t.fee + t.left
                                 && r.value.left == Max(t.left - Gross(w, id), 0))
  {
    assert StepsOut(w, id, t, StepOut(w, id, t));
    hide BinAt, TakeOut, RawIn, NextBin, AddUp, Reserves, FeeAmount;
    if BinAt(w, id).Some? {
      var b := BinAt(w, id).value;
      BinOutAnswers(w.forY, b, t.left);
      BinOut(w.forY, b, t.left);
      BinTakes(w.forY, b, t.left);
      ReservesHere(w, id);
      if TakeOut(w.forY, b, t.left).Success? {
        var k := TakeOut(w.forY, b, t.left).value;
        AddUpValue(t.left - k.amountIn, t.moved + k.amountOut, t.fee + k.fee);
      }
    }
  }

  lemma BinTakes(forY: bool, b: Bin, x: U128)
    requires b.fee <= MAX_FEE
    ensures exists r: Result<Taken> ::
              && TakesOut(forY, b, x, r)
              && (r.Success? ==> (var net := RawIn(forY, b.reserve, b.price);
                                  r.value.amountIn == Min(x, Min(net + FeeAmount(net, b.fee), Q128 - 1))))
  {
    assert TakesOut(forY, b, x, TakeOut(forY, b, x));
    hide RawIn, RawOut, FeeAmount, FeeAmountFrom;
  }

  lemma ReservesHere(w: Walk, id: int)
    ensures Reserves(w, id) == ReserveOut(w, id) + (if NextBin(w, id).None? then 0 else Reserves(w, NextBin(w, id).value))
  {
  }

  /** Where the totals fit, the exact-input walk answers exactly when every bin the input gets to is priced. */
  lemma {:induction false} OutAnswers(w: Walk, id: int, t: Totals)
    requires Roomy(w, id, t)
    ensures SwapOutFrom(w, id, t).Success? <==> forall k | Reaches(w, id, t.left, k) :: PricedAt(w, k)
    decreases |Ahead(w, id)|
  {
    hide StepOut, NextBin, PricedAt, Gross;
    StepOutAnswers(w, id, t);
    ReservesHere(w, id);
    assert Reaches(w, id, t.left, id);
    var next := NextBin(w, id);
    if PricedAt(w, id) && Gross(w, id) < t.left && next.Some? {
      var n := StepOut(w, id, t).value;
      OutAnswers(w, next.value, n);
      ReachesOn(w, id, t.left);
    }
  }

  lemma ReachesOn(w: Walk, id: int, left: nat)
    requires Gross(w, id) < left && NextBin(w, id).Some?
    ensures forall k :: Reaches(w, id, left, k) <==> k == id || Reaches(w, NextBin(w, id).value, left - Gross(w, id), k)
  {
    hide Gross, NextBin;
  }

  // ---- The round trip ----

  /** Where the reserves from `id` on first add up to what is wanted. */
  function StopBin(w: Walk, id: int, wanted: nat): int
    decreases |Ahead(w, id)|
  {
    if wanted <= ReserveOut(w, id) || NextBin(w, id).None? then id
    else StopBin(w, NextBin(w, id).value, wanted - ReserveOut(w, id))
  }

  /** One bin of the exact-output walk: drained, it was priced whole. */
  lemma StepInDrains(w: Walk, id: int, t: Totals, n: Totals)
    requires StepIn(w, id, t) == Success(n)
    ensures n.left == Max(t.left - ReserveOut(w, id), 0)
    ensures 0 < n.left ==> PricedAt(w, id)
  {
    hide BinAt, RawIn, FeeAmount;
  }

  /**
   * The round trip fails in one way: the exact-input walk answers the input that the exact-output walk
   * found exactly when the bin that one stopped in is priced whole.
   */
  lemma {:induction false} StopAnswers(w: Walk, id: int, ti: Totals, to: Totals, r: Totals)
    requires PositivePrices(w) && Roomy(w, id, to)
    requires SwapInFrom(w, id, ti) == Success(r) && r.left == 0 && to.left == r.moved - ti.moved
    ensures SwapOutFrom(w, id, to).Success? <==> PricedAt(w, StopBin(w, id, ti.left))
    decreases |Ahead(w, id)|
  {
    hide StepIn, StepOut, NextBin, PositivePrices, PricedAt, Gross, ReserveOut;
    var ni, next := StepIn(w, id, ti).value, NextBin(w, id);
    StepInDrains(w, id, ti, ni);
    StepOutAnswers(w, id, to);
    if StepOut(w, id, to).Success? {
      var no := StepOut(w, id, to).value;
      StepsAgree(w, id, ti, to, ni, no);
      if ni.left != 0 {
        InGrows(w, next.value, ni);
        ReservesHere(w, id);
        StopAnswers(w, next.value, ni, no, r);
      }
    }
  }

  /**
   * The exact-output walk finds the least input: wherever the exact-input walk answers, it gets at
   * least the output asked for exactly when it starts with at least that input; with exactly that it
   * leaves nothing, and it answers, as it does for any less, exactly when the bin stopped in is priced.
   */
  lemma WalksAgree(w: Walk, id: int, ti: Totals, to: Totals, r: Totals)
    requires PositivePrices(w) && Roomy(w, id, to)
    requires SwapInFrom(w, id, ti) == Success(r) && r.left == 0
    ensures to.left == r.moved - ti.moved ==>
              (SwapOutFrom(w, id, to).Success? <==> PricedAt(w, StopBin(w, id, ti.left)))
    ensures to.left <= r.moved - ti.moved && PricedAt(w, StopBin(w, id, ti.left)) && to.fee + (r.moved - ti.moved) < Q128 ==>
              SwapOutFrom(w, id, to).Success?
    ensures SwapOutFrom(w, id, to).Success? ==>
              (var ro := SwapOutFrom(w, id, to).value;
               && (r.moved - ti.moved <= to.left <==> ti.left <= ro.moved - to.moved)
               && (to.left == r.moved - ti.moved ==> ro.left == 0))
  {
    hide PositivePrices, PricedAt, StopBin, Reserves, SwapOutFrom, SwapInFrom;
    if SwapOutFrom(w, id, to).Success? {
      WalksMatch(w, id, ti, to);
    }
    InOnwards(w, id, ti);
    var exact := Totals(r.moved - ti.moved, to.moved, to.fee);
    if to.fee + exact.left < Q128 {
      StopAnswers(w, id, ti, exact, r);
      if SwapOutFrom(w, id, exact).Success? && to.left <= exact.left {
        OutMonotone(w, id, to, exact);
      }
    }
  }

  lemma InOnwards(w: Walk, id: int, t: Totals)
    requires PositivePrices(w) && SwapInFrom(w, id, t).Success?
    ensures t.moved <= SwapInFrom(w, id, t).value.moved
  {
    hide PositivePrices;
    InGrows(w, id, t);
  }

  // ---- The pair's own statements ----

  /** Where a quote for an output stops, as the pair's reserves say. */
  function QuoteStops(p: Pair, amountOut: U128, forY: bool, timestamp: nat): int {
    StopBin(StartWalk(p, forY, timestamp), p.activeId, amountOut)
  }

  /**
   * Round trip: the input quoted for an output is answered, with at least that output and nothing left
   * over, exactly when the bin the quote stops in is priced whole; then so is every smaller input, with
   * less than that output. An input of any size that is answered gets the output exactly when it is at
   * least the one quoted.
   */
  lemma QuotedInputIsLeast(p: Pair, amountOut: U128, amountIn: U128, forY: bool, timestamp: nat, quoted: Totals)
    requires var w := StartWalk(p, forY, timestamp); PositivePrices(w) && Reserves(w, p.activeId) < Q128
    requires SwapInAt(p, amountOut, forY, timestamp) == Success(quoted) && quoted.left == 0
    ensures var priced := PricedAt(StartWalk(p, forY, timestamp), QuoteStops(p, amountOut, forY, timestamp));
            && (SwapOutAt(p, quoted.moved, forY, timestamp).Success? <==> priced)
            && (priced && amountIn <= quoted.moved ==> SwapOutAt(p, amountIn, forY, timestamp).Success?)
    ensures SwapOutAt(p, amountIn, forY, timestamp).Success? ==>
              (var got := SwapOutAt(p, amountIn, forY, timestamp).value;
               && (quoted.moved <= amountIn <==> amountOut <= got.moved)
               && (amountIn == quoted.moved ==> got.left == 0))
  {
    hide UpdateReferences, PositivePrices, PricedAt, StopBin, Reserves;
    var w := StartWalk(p, forY, timestamp);
    WalksAgree(w, p.activeId, Totals(amountOut, 0, 0), Totals(amountIn, 0, 0), quoted);
    WalksAgree(w, p.activeId, Totals(amountOut, 0, 0), Totals(quoted.moved, 0, 0), quoted);
  }

  /** One bin, just below the price of one, that holds as much of token Y as there may be. */
  const DEEP := Pair(100, 8_388_607, map[8_388_607 := (0, Q128 - 1)], 0, 0, 0, 0, 0, 0, 0, 0, 0, 0)

  /** Its quote for one unit of Y is two of X, and no input of X whatever is answered. */
  lemma QuotePanics(x: U128, timestamp: nat)
    ensures SwapInAt(DEEP, 1, true, timestamp) == Success(Totals(0, 2, 0))
    ensures SwapOutAt(DEEP, x, true, timestamp).Failure?
  {
    var w := StartWalk(DEEP, true, timestamp);
    var b := DeepBin(w);
    DeepCosts(b);
    BinOutAnswers(true, b, x);
    NoFeeAdded(2);
    hide RawIn, RawOut, FeeAmount, FeeAmountFrom, UpdateReferences, BinAt, TakeOut;
  }

  lemma DeepBin(w: Walk) returns (b: Bin)
    requires w.pair == DEEP && w.forY
    ensures BinAt(w, 8_388_607) == Some(b)
    ensures b.reserve == Q128 - 1 && b.fee == 0 && Q128 / 2 <= b.price < Q128
  {
    hide Power;
    DeepPrice();
    b := BinAt(w, 8_388_607).value;
  }

  /** The price just below one, of a bin step of one per cent. */
  lemma DeepPrice()
    ensures Q128 / 2 <= PriceFromId(8_388_607, 100) < Q128
  {
    hide Power;
    var base: U256 := SCALE + 100 * Q128 / 10_000;
    InverseOf(base);
  }

  lemma DeepCosts(b: Bin)
    requires b.reserve == Q128 - 1 && Q128 / 2 <= b.price < Q128
    ensures RawIn(true, 1, b.price) == 2 && Q128 <= RawIn(true, b.reserve, b.price)
  {
    ShiftDivIsExact(1, b.price);
    ShiftDivIsExact(b.reserve, b.price);
    hide ShiftDivUp, CeilDiv;
    CeilLe(1 * Q128, b.price, 2);
    CeilLe(1 * Q128, b.price, 1);
    MulStrict(b.price, Q128, Q128 - 1);
    CeilLe((Q128 - 1) * Q128, b.price, Q128 - 1);
  }

  lemma NoFeeAdded(net: nat)
    ensures FeeAmount(net, 0) == 0
  {
    FeeAmountLe(net, 0, 0);
  }

  /** More input never gets less output, a smaller fee or less left over. */
  lemma MoreInMoreOut(p: Pair, less: U128, more: U128, forY: bool, timestamp: nat)
    requires less <= more && SwapOutAt(p, more, forY, timestamp).Success?
    ensures SwapOutAt(p, less, forY, timestamp).Success?
    ensures AtMost(SwapOutAt(p, less, forY, timestamp).value, SwapOutAt(p, more, forY, timestamp).value)
  {
    hide UpdateReferences;
    OutMonotone(StartWalk(p, forY, timestamp), p.activeId, Totals(less, 0, 0), Totals(more, 0, 0));
  }
}

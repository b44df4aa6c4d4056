// src/v3/pool.rs: the replica that mint, burn and swap events keep of a pool's tick map.
module V3Pool {
  import opened Results
  import opened Arith
  import opened Words
  import opened Ticks

  const Q127: int := 0x80000000000000000000000000000000

  datatype PoolState = PoolState(price: U160, tick: int, liquidity: U128, ticks: TickMap)

  // ---- The code's integer conversions ----

  /** `amount as i128`. */
  function AsI128(x: U128): int {
    if x < Q127 then x else x - Q128
  }

  function SatI128(x: int): int {
    if x < -Q127 then -Q127 else if x < Q127 then x else Q127 - 1
  }

  function SatU128(x: int): U128 {
    if x < 0 then 0 else if x < Q128 then x else Q128 - 1
  }

  /** `-(amount as i128)`, which wraps at the least value. */
  function NegI128(x: int): int {
    if x == -Q127 then x else -x
  }

  // ---- The events ----

  function UpdateTick(ticks: TickMap, index: int, net: int, gross: U128): TickMap {
    if gross == 0 then ticks - {index} else ticks[index := Tick(index, net, gross)]
  }

  function MintEnd(ticks: TickMap, index: int, upper: bool, amount: U128): TickMap {
    var signed := AsI128(amount);
    if index in ticks then
      var t := ticks[index];
      ticks[index := Tick(t.index, SatI128(if upper then t.liquidityNet - signed else t.liquidityNet + signed),
                          SatU128(t.liquidityGross + amount))]
    else UpdateTick(ticks, index, if upper then NegI128(signed) else signed, amount)
  }

  function BurnEnd(ticks: TickMap, index: int, upper: bool, amount: U128): TickMap
    requires index in ticks
  {
    var signed, t := AsI128(amount), ticks[index];
    var gross := SatU128(t.liquidityGross - amount);
    if gross == 0 then ticks - {index}
    else
      ticks[index := Tick(t.index, SatI128(if upper then t.liquidityNet + signed else t.liquidityNet - signed), gross)]
  }

  predicate InRange(lower: int, tick: int, upper: int) {
    lower <= tick < upper
  }

  function Mint(s: PoolState, lower: int, upper: int, amount: U128): Result<PoolState> {
    if lower >= upper then Failure("Invalid tick range")
    else
      var ticks := MintEnd(MintEnd(s.ticks, lower, false, amount), upper, true, amount);
      var liquidity := if InRange(lower, s.tick, upper) then SatU128(s.liquidity + amount) else s.liquidity;
      Success(s.(ticks := ticks, liquidity := liquidity))
  }

  function Burn(s: PoolState, lower: int, upper: int, amount: U128): Result<PoolState> {
    if lower >= upper then Failure("Invalid tick range")
    else if lower !in s.ticks then Failure("Burn attempted on uninitialized tick_lower")
    else if upper !in s.ticks then Failure("Burn attempted on uninitialized tick_upper")
    else
      var ticks := BurnEnd(BurnEnd(s.ticks, lower, false, amount), upper, true, amount);
      var liquidity := if InRange(lower, s.tick, upper) then SatU128(s.liquidity - amount) else s.liquidity;
      Success(s.(ticks := ticks, liquidity := liquidity))
  }

  function UpdateState(s: PoolState, price: U160, tick: int, liquidity: U128): Result<PoolState> {
    if price == 0 then Failure("Invalid sqrt_price_x96: zero")
    else if tick < -887272 || 887272 < tick then Failure("Invalid tick: out of bounds")
    else Success(s.(price := price, tick := tick, liquidity := liquidity))
  }

  // ---- The pool as the code holds it: fields updated in place ----

  class Pool {
    var price: U160
    var tick: int
    var liquidity: U128
    var ticks: TickMap

    function State(): PoolState
      reads this
    {
      PoolState(price, tick, liquidity, ticks)
    }

    constructor (price: U160, tick: int, liquidity: U128)
      ensures State() == PoolState(price, tick, liquidity, map[])
    {
      this.price, this.tick, this.liquidity, this.ticks := price, tick, liquidity, map[];
    }

    /** A tick is kept exactly while something refers to it; no other tick changes. */
    method SetTick(index: int, net: int, gross: U128)
      modifies this`ticks
      ensures index in ticks <==> gross != 0
      ensures index in ticks ==> ticks[index] == Tick(index, net, gross)
      ensures forall t | t != index :: (t in ticks <==> t in old(ticks)) && (t in ticks ==> ticks[t] == old(ticks)[t])
      ensures ticks == UpdateTick(old(ticks), index, net, gross)
    {
      if gross == 0 {
        ticks := ticks - {index};
      } else {
        ticks := ticks[index := Tick(index, net, gross)];
      }
    }

    method ApplySwapEvent(price: U160, tick: int, liquidity: U128) returns (r: Result<()>)
      modifies this`price, this`tick, this`liquidity
      ensures UpdateState(old(State()), price, tick, liquidity) == if r.Success? then Success(State()) else Failure(r.error)
      ensures r.Failure? ==> State() == old(State())
    {
      if price == 0 {
        return Failure("Invalid sqrt_price_x96: zero");
      }
      if tick < -887272 || tick > 887272 {
        return Failure("Invalid tick: out of bounds");
      }
      this.price, this.tick, this.liquidity := price, tick, liquidity;
      return Success(());
    }

    method ApplyMintEvent(lower: int, upper: int, amount: U128) returns (r: Result<()>)
      modifies this`ticks, this`liquidity
      ensures Mint(old(State()), lower, upper, amount) == if r.Success? then Success(State()) else Failure(r.error)
      ensures r.Failure? ==> State() == old(State())
    {
      if lower >= upper {
        return Failure("Invalid tick range");
      }
      if lower in ticks {
        var t := ticks[lower];
        ticks := ticks[lower := Tick(t.index, SatI128(t.liquidityNet + AsI128(amount)), SatU128(t.liquidityGross + amount))];
      } else {
        SetTick(lower, AsI128(amount), amount);
      }
      if upper in ticks {
        var t := ticks[upper];
        ticks := ticks[upper := Tick(t.index, SatI128(t.liquidityNet - AsI128(amount)), SatU128(t.liquidityGross + amount))];
      } else {
        SetTick(upper, NegI128(AsI128(amount)), amount);
      }
      if tick >= lower && tick < upper {
        liquidity := SatU128(liquidity + amount);
      }
      return Success(());
    }

    method ApplyBurnEvent(lower: int, upper: int, amount: U128) returns (r: Result<()>)
      modifies this`ticks, this`liquidity
      ensures Burn(old(State()), lower, upper, amount) == if r.Success? then Success(State()) else Failure(r.error)
      ensures r.Failure? ==> State() == old(State())
    {
      if lower >= upper {
        return Failure("Invalid tick range");
      }
      if lower !in ticks {
        return Failure("Burn attempted on uninitialized tick_lower");
      }
      if upper !in ticks {
        return Failure("Burn attempted on uninitialized tick_upper");
      }
      DebitTick(lower, false, amount);
      DebitTick(upper, true, amount);
      if tick >= lower && tick < upper {
        liquidity := SatU128(liquidity - amount);
      }
      return Success(());
    }

    /** Debits one end of a burn, removing the tick once nothing refers to it. */
    method DebitTick(index: int, upper: bool, amount: U128)
      requires index in ticks
      modifies this`ticks
      ensures ticks == BurnEnd(old(ticks), index, upper, amount)
    {
      var t := ticks[index];
      var net := SatI128(if upper then t.liquidityNet + AsI128(amount) else t.liquidityNet - AsI128(amount));
      ticks := ticks[index := Tick(t.index, net, SatU128(t.liquidityGross - amount))];
      if ticks[index].liquidityGross == 0 {
        SetTick(index, t.liquidityNet, 0);
      }
    }
  }

  // ---- Burn undoes mint ----

  /** Nothing in a mint of `amount` saturates or wraps. */
  predicate Fits(s: PoolState, lower: int, upper: int, amount: U128) {
    && amount < Q127
    && (lower in s.ticks ==> s.ticks[lower].liquidityNet + amount < Q127 && s.ticks[lower].liquidityGross + amount < Q128)
    && (upper in s.ticks ==> -Q127 <= s.ticks[upper].liquidityNet - amount && s.ticks[upper].liquidityGross + amount < Q128)
    && (InRange(lower, s.tick, upper) ==> s.liquidity + amount < Q128)
  }

  /** Ticks no position refers to are not kept, and nets are signed 128-bit words. */
  predicate Tidy(ticks: TickMap) {
    forall t | t in ticks :: 0 < ticks[t].liquidityGross < Q128 && -Q127 <= ticks[t].liquidityNet < Q127
  }

  /** A burn undoes the mint before it exactly, unless nothing was minted on a tick not there. */
  lemma BurnUndoesMint(s: PoolState, lower: int, upper: int, amount: U128)
    requires lower < upper && Tidy(s.ticks) && Fits(s, lower, upper, amount)
    ensures var minted := Mint(s, lower, upper, amount);
            && minted.Success?
            && (Burn(minted.value, lower, upper, amount) == Success(s)
                <==> 0 < amount || (lower in s.ticks && upper in s.ticks))
            && (amount == 0 ==> minted.value == s)
  {
    var one := MintEnd(s.ticks, lower, false, amount);
    var two := MintEnd(one, upper, true, amount);
    if amount == 0 {
      assert one == s.ticks;
      assert two == s.ticks;
    }
    if 0 < amount || (lower in s.ticks && upper in s.ticks) {
      var three := BurnEnd(two, lower, false, amount);
      var four := BurnEnd(three, upper, true, amount);
      assert four == s.ticks;
    }
  }

  // ---- The ledger of open positions, and what it adds up to ----

  datatype Range = Range(lower: int, upper: int)

  type Ledger = map<Range, nat>

  /** What a position of one unit contributes to. */
  datatype Weight = Net(tick: int) | Gross(tick: int) | Covering(tick: int) | Everything {
    function Of(r: Range): int {
      match this
      case Net(t) => if t == r.lower then 1 else if t == r.upper then -1 else 0
      case Gross(t) => if t == r.lower || t == r.upper then 1 else 0
      case Covering(t) => if InRange(r.lower, t, r.upper) then 1 else 0
      case Everything => 1
    }
  }

  ghost function SumOf(ledger: Ledger, ranges: set<Range>, w: Weight): int
    requires ranges <= ledger.Keys
  {
    if ranges == {} then 0
    else
      var r := Member(ranges);
      w.Of(r) * ledger[r] + SumOf(ledger, ranges - {r}, w)
  }

  ghost function Total(ledger: Ledger, w: Weight): int {
    SumOf(ledger, ledger.Keys, w)
  }

  function PositionOf(ledger: Ledger, r: Range): nat {
    if r in ledger then ledger[r] else 0
  }

  lemma {:induction false} SumRemove(ledger: Ledger, ranges: set<Range>, w: Weight, r: Range)
    requires ranges <= ledger.Keys && r in ranges
    ensures SumOf(ledger, ranges, w) == w.Of(r) * ledger[r] + SumOf(ledger, ranges - {r}, w)
    decreases ranges
  {
    var k := Member(ranges);
    if k != r {
      SumRemove(ledger, ranges - {k}, w, r);
      SumRemove(ledger, ranges - {r}, w, k);
      assert ranges - {k} - {r} == ranges - {r} - {k};
    }
  }

  lemma {:induction false} SumAgrees(a: Ledger, b: Ledger, ranges: set<Range>, w: Weight)
    requires ranges <= a.Keys && ranges <= b.Keys && forall r | r in ranges :: a[r] == b[r]
    ensures SumOf(a, ranges, w) == SumOf(b, ranges, w)
    decreases ranges
  {
    if ranges != {} {
      var r := Member(ranges);
      SumRemove(a, ranges, w, r);
      SumRemove(b, ranges, w, r);
      SumAgrees(a, b, ranges - {r}, w);
    }
  }

  /** A change to one position moves every total by its weight. */
  lemma TotalUpdate(ledger: Ledger, w: Weight, r: Range, amount: nat)
    ensures Total(ledger[r := amount], w) == Total(ledger, w) + w.Of(r) * (amount - PositionOf(ledger, r))
  {
    var next := ledger[r := amount];
    SumRemove(next, next.Keys, w, r);
    SumAgrees(next, ledger, next.Keys - {r}, w);
    if r in ledger {
      SumRemove(ledger, ledger.Keys, w, r);
      assert next.Keys - {r} == ledger.Keys - {r};
      var before: int, after: int := ledger[r], amount;
      assert w.Of(r) * after == w.Of(r) * before + w.Of(r) * (after - before);
    } else {
      assert next.Keys - {r} == ledger.Keys;
    }
  }

  /** A weight bounded by another gives a total bounded by the other's. */
  lemma {:induction false} SumDominated(ledger: Ledger, ranges: set<Range>, w: Weight, v: Weight)
    requires ranges <= ledger.Keys
    requires forall r :: -v.Of(r) <= w.Of(r) <= v.Of(r)
    ensures -SumOf(ledger, ranges, v) <= SumOf(ledger, ranges, w) <= SumOf(ledger, ranges, v)
    decreases ranges
  {
    if ranges != {} {
      var r := Member(ranges);
      SumRemove(ledger, ranges, w, r);
      SumRemove(ledger, ranges, v, r);
      SumDominated(ledger, ranges - {r}, w, v);
      WeightTimes(w.Of(r), v.Of(r), ledger[r]);
    }
  }

  lemma WeightTimes(a: int, b: int, n: nat)
    requires -b <= a <= b
    ensures -(b * n) <= a * n <= b * n
  {
  }

  /** Every position is within the totals it weighs in. */
  lemma WithinTotal(ledger: Ledger, w: Weight, r: Range)
    requires !w.Net? && w.Of(r) == 1
    ensures PositionOf(ledger, r) <= Total(ledger, w)
  {
    if r in ledger {
      SumRemove(ledger, ledger.Keys, w, r);
      SumDominated(ledger, ledger.Keys - {r}, w, w);
    } else {
      SumDominated(ledger, ledger.Keys, w, w);
    }
  }

  lemma TotalBounds(ledger: Ledger, t: int)
    ensures -Total(ledger, Gross(t)) <= Total(ledger, Net(t)) <= Total(ledger, Gross(t))
    ensures 0 <= Total(ledger, Gross(t)) <= Total(ledger, Everything)
    ensures 0 <= Total(ledger, Covering(t)) <= Total(ledger, Everything)
  {
    SumDominated(ledger, ledger.Keys, Net(t), Gross(t));
    SumDominated(ledger, ledger.Keys, Gross(t), Gross(t));
    SumDominated(ledger, ledger.Keys, Gross(t), Everything);
    SumDominated(ledger, ledger.Keys, Covering(t), Covering(t));
    SumDominated(ledger, ledger.Keys, Covering(t), Everything);
  }

  // ---- A tick map induced by the open positions ----

  function NetIn(ticks: TickMap, t: int): int {
    if t in ticks then ticks[t].liquidityNet else 0
  }

  function GrossIn(ticks: TickMap, t: int): int {
    if t in ticks then ticks[t].liquidityGross else 0
  }

  /** Exactly the ticks some position refers to, each holding its positions' net and gross. */
  ghost predicate InducedTicks(ticks: TickMap, ledger: Ledger) {
    && (forall t :: NetIn(ticks, t) == Total(ledger, Net(t)) && GrossIn(ticks, t) == Total(ledger, Gross(t)))
    && (forall t | t in ticks :: ticks[t].index == t && 0 < ticks[t].liquidityGross)
    && (forall t :: NetUpTo(ticks, t) == Total(ledger, Covering(t)))
    && SumNet(ticks, ticks.Keys) == 0
  }

  ghost predicate Induced(s: PoolState, ledger: Ledger) {
    && InducedTicks(s.ticks, ledger)
    && s.liquidity == Total(ledger, Covering(s.tick))
    && Total(ledger, Everything) < Q127
  }

  /** `next` is `ticks` but for tick `k`, whose net and gross moved by the given amounts. */
  ghost predicate Adjusted(ticks: TickMap, next: TickMap, k: int, net: int, gross: int) {
    && (forall t | t != k :: (t in ticks <==> t in next) && (t in ticks ==> ticks[t] == next[t]))
    && NetIn(next, k) == NetIn(ticks, k) + net && GrossIn(next, k) == GrossIn(ticks, k) + gross
    && (k in next ==> next[k].index == k && 0 < next[k].liquidityGross)
  }

  lemma {:induction false} SumNetAgrees(a: TickMap, b: TickMap, keys: set<int>)
    requires keys <= a.Keys && keys <= b.Keys && forall t | t in keys :: a[t] == b[t]
    ensures SumNet(a, keys) == SumNet(b, keys)
  {
    if keys != {} {
      var k := Last(keys).value;
      SumNetAgrees(a, b, keys - {k});
    }
  }

  lemma SumNetChange(a: TickMap, b: TickMap, keysA: set<int>, keysB: set<int>, k: int)
    requires keysA <= a.Keys && keysB <= b.Keys && keysA - {k} == keysB - {k}
    requires forall t | t in keysA && t in keysB && t != k :: a[t] == b[t]
    ensures SumNet(b, keysB) - SumNet(a, keysA)
         == (if k in keysB then b[k].liquidityNet else 0) - (if k in keysA then a[k].liquidityNet else 0)
  {
    SumNetAgrees(a, b, keysA - {k});
    if k in keysA {
      SumNetRemove(a, keysA, k);
    } else {
      assert keysA - {k} == keysA;
    }
    if k in keysB {
      SumNetRemove(b, keysB, k);
    } else {
      assert keysB - {k} == keysB;
    }
  }

  /** Liquidity in force moves at and above an adjusted tick, by the change of its net. */
  lemma AdjustedNet(ticks: TickMap, next: TickMap, k: int, net: int, gross: int)
    requires Adjusted(ticks, next, k, net, gross)
    ensures forall t :: NetUpTo(next, t) == NetUpTo(ticks, t) + (if k <= t then net else 0)
    ensures SumNet(next, next.Keys) == SumNet(ticks, ticks.Keys) + net
  {
    forall t ensures NetUpTo(next, t) == NetUpTo(ticks, t) + (if k <= t then net else 0) {
      SumNetChange(ticks, next, KeysUpTo(ticks, t), KeysUpTo(next, t), k);
    }
    SumNetChange(ticks, next, ticks.Keys, next.Keys, k);
  }

  lemma MintEndAdjusts(ticks: TickMap, k: int, upper: bool, amount: U128)
    requires amount < Q127 && (k in ticks ==> ticks[k].index == k && 0 < ticks[k].liquidityGross)
    requires GrossIn(ticks, k) + amount < Q127 && -GrossIn(ticks, k) <= NetIn(ticks, k) <= GrossIn(ticks, k)
    ensures Adjusted(ticks, MintEnd(ticks, k, upper, amount), k, if upper then 0 - amount else amount, amount)
  {
  }

  lemma BurnEndAdjusts(ticks: TickMap, k: int, upper: bool, amount: U128)
    requires k in ticks && ticks[k].index == k && amount <= GrossIn(ticks, k) < Q127
    requires var gross, net := GrossIn(ticks, k) - amount, NetIn(ticks, k) + if upper then amount else 0 - amount;
             -gross <= net <= gross
    ensures Adjusted(ticks, BurnEnd(ticks, k, upper, amount), k, if upper then amount else 0 - amount, 0 - amount)
  {
  }

  /** Both ends adjusted, by `amount` of position `r` (negative for a burn). */
  lemma BothEnds(ticks: TickMap, one: TickMap, two: TickMap, ledger: Ledger, r: Range, amount: int)
    requires InducedTicks(ticks, ledger) && r.lower < r.upper && 0 <= PositionOf(ledger, r) + amount
    requires Adjusted(ticks, one, r.lower, amount, amount) && Adjusted(one, two, r.upper, -amount, amount)
    ensures InducedTicks(two, ledger[r := PositionOf(ledger, r) + amount])
  {
    hide SumNet, SumOf, NetUpTo;
    var after := ledger[r := PositionOf(ledger, r) + amount];
    AdjustedNet(ticks, one, r.lower, amount, amount);
    AdjustedNet(one, two, r.upper, -amount, amount);
    forall t
      ensures NetIn(two, t) == Total(after, Net(t)) && GrossIn(two, t) == Total(after, Gross(t))
      ensures NetUpTo(two, t) == Total(after, Covering(t))
    {
      TotalUpdate(ledger, Net(t), r, PositionOf(ledger, r) + amount);
      TotalUpdate(ledger, Gross(t), r, PositionOf(ledger, r) + amount);
      TotalUpdate(ledger, Covering(t), r, PositionOf(ledger, r) + amount);
    }
  }

  /** A mint opens or grows its position, and nothing else. */
  lemma MintKeeps(s: PoolState, ledger: Ledger, r: Range, amount: U128)
    requires Induced(s, ledger) && r.lower < r.upper && Total(ledger, Everything) + amount < Q127
    ensures var after := Mint(s, r.lower, r.upper, amount);
            after.Success? && Induced(after.value, ledger[r := PositionOf(ledger, r) + amount])
  {
    hide SumNet, SumOf, NetUpTo, Total, MintEnd;
    TotalBounds(ledger, r.lower);
    TotalBounds(ledger, r.upper);
    TotalBounds(ledger, s.tick);
    var one := MintEnd(s.ticks, r.lower, false, amount);
    var two := MintEnd(one, r.upper, true, amount);
    MintEndAdjusts(s.ticks, r.lower, false, amount);
    assert NetIn(one, r.upper) == NetIn(s.ticks, r.upper);
    MintEndAdjusts(one, r.upper, true, amount);
    BothEnds(s.ticks, one, two, ledger, r, amount);
    TotalUpdate(ledger, Covering(s.tick), r, PositionOf(ledger, r) + amount);
    TotalUpdate(ledger, Everything, r, PositionOf(ledger, r) + amount);
  }

  /** A burn of no more than its position shrinks that position, and nothing else. */
  lemma BurnKeeps(s: PoolState, ledger: Ledger, r: Range, amount: U128)
    requires Induced(s, ledger) && amount <= PositionOf(ledger, r)
    requires Burn(s, r.lower, r.upper, amount).Success?
    ensures Induced(Burn(s, r.lower, r.upper, amount).value, ledger[r := PositionOf(ledger, r) - amount])
  {
    hide SumNet, SumOf, NetUpTo, Total, BurnEnd;
    var left: nat := PositionOf(ledger, r) - amount;
    var after := ledger[r := left];
    var one := BurnEnd(s.ticks, r.lower, false, amount);
    WithinTotal(ledger, Gross(r.lower), r);
    WithinTotal(ledger, Gross(r.upper), r);
    TotalBounds(ledger, r.lower);
    TotalBounds(ledger, r.upper);
    TotalBounds(after, r.lower);
    TotalBounds(after, r.upper);
    TotalUpdate(ledger, Net(r.lower), r, left);
    TotalUpdate(ledger, Net(r.upper), r, left);
    TotalUpdate(ledger, Gross(r.lower), r, left);
    TotalUpdate(ledger, Gross(r.upper), r, left);
    BurnEndAdjusts(s.ticks, r.lower, false, amount);
    assert NetIn(one, r.upper) == NetIn(s.ticks, r.upper);
    var two := BurnEnd(one, r.upper, true, amount);
    BurnEndAdjusts(one, r.upper, true, amount);
    BothEnds(s.ticks, one, two, ledger, r, 0 - amount);
    TotalUpdate(ledger, Covering(s.tick), r, left);
    TotalUpdate(ledger, Everything, r, left);
    TotalBounds(after, s.tick);
    TotalBounds(ledger, s.tick);
  }
}

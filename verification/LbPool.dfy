// src/lb/pool.rs: the pair as the collector keeps it, updated in place by logs and read by quotes.
module LbPool {
  import opened Results
  import opened Arith
  import opened Words
  import opened LbWalk

  function SaturateU128(x: int): U128 {
    if x < 0 then 0 else Min(x, Q128 - 1)
  }

  function UpdateBin(bins: map<int, (U128, U128)>, id: int, x: U128, y: U128): map<int, (U128, U128)> {
    if x == 0 && y == 0 then bins - {id} else bins[id := (x, y)]
  }

  function BinReserves(bins: map<int, (U128, U128)>, id: int): (U128, U128) {
    if id in bins then bins[id] else (0, 0)
  }

  /** A decoded Swap log of one bin. */
  datatype SwapLog = SwapLog(id: int, inX: U128, inY: U128, outX: U128, outY: U128, volatility: nat)

  function ApplySwapLog(p: Pair, l: SwapLog, timestamp: nat): Pair {
    var (x, y) := BinReserves(p.bins, l.id);
    var bins := UpdateBin(p.bins, l.id, SaturateU128(SaturateU128(x + l.inX) - l.outX),
                          SaturateU128(SaturateU128(y + l.inY) - l.outY));
    var (volatilityReference, idReference) := UpdateReferences(p, timestamp);
    p.(bins := bins, volatilityReference := volatilityReference, idReference := idReference,
       activeId := l.id, volatility := l.volatility, lastUpdate := timestamp)
  }

  /** One bin's part of a decoded deposit or withdrawal log. */
  datatype Delta = Delta(id: int, x: U128, y: U128)

  function ApplyDelta(bins: map<int, (U128, U128)>, d: Delta, credit: bool): map<int, (U128, U128)> {
    var (x, y) := BinReserves(bins, d.id);
    if credit then UpdateBin(bins, d.id, SaturateU128(x + d.x), SaturateU128(y + d.y))
    else UpdateBin(bins, d.id, SaturateU128(x - d.x), SaturateU128(y - d.y))
  }

  /** A deposit (or, with `credit` false, a withdrawal), bin by bin. */
  function ApplyDeltas(bins: map<int, (U128, U128)>, ds: seq<Delta>, credit: bool): map<int, (U128, U128)>
    decreases ds
  {
    if ds == [] then bins else ApplyDeltas(ApplyDelta(bins, ds[0], credit), ds[1..], credit)
  }

  class LiquidityBookPair {
    const binStep: nat
    const baseFactor: nat
    const filterPeriod: nat
    const decayPeriod: nat
    const reductionFactor: nat
    const variableFeeControl: nat
    const maxVolatility: nat
    var activeId: int
    var bins: map<int, (U128, U128)>
    var volatility: nat
    var volatilityReference: nat
    var idReference: int
    var lastUpdate: nat

    function State(): Pair
      reads this
    {
      Pair(binStep, activeId, bins, baseFactor, filterPeriod, decayPeriod, reductionFactor, variableFeeControl,
           maxVolatility, volatility, volatilityReference, idReference, lastUpdate)
    }

    constructor (p: Pair)
      ensures State() == p
    {
      binStep, baseFactor, filterPeriod, decayPeriod := p.binStep, p.baseFactor, p.filterPeriod, p.decayPeriod;
      reductionFactor, variableFeeControl, maxVolatility := p.reductionFactor, p.variableFeeControl, p.maxVolatility;
      activeId, bins, volatility := p.activeId, p.bins, p.volatility;
      volatilityReference, idReference, lastUpdate := p.volatilityReference, p.idReference, p.lastUpdate;
    }

    /** A bin is kept exactly while it holds something; no other bin changes. */
    method SetBin(id: int, x: U128, y: U128)
      modifies this`bins
      ensures id in bins <==> (x, y) != (0, 0)
      ensures BinReserves(bins, id) == (x, y)
      ensures forall k | k != id :: (k in bins <==> k in old(bins)) && (k in bins ==> bins[k] == old(bins)[k])
      ensures bins == UpdateBin(old(bins), id, x, y)
    {
      if x == 0 && y == 0 {
        bins := bins - {id};
      } else {
        bins := bins[id := (x, y)];
      }
    }

    method ApplySwap(l: SwapLog, timestamp: nat)
      modifies this
      ensures State() == ApplySwapLog(old(State()), l, timestamp)
    {
      var (x, y) := BinReserves(bins, l.id);
      SetBin(l.id, SaturateU128(SaturateU128(x + l.inX) - l.outX), SaturateU128(SaturateU128(y + l.inY) - l.outY));
      var (volatilityRef, idRef) := UpdateReferences(State(), timestamp);
      volatilityReference := volatilityRef;
      idReference := idRef;
      activeId := l.id;
      volatility := l.volatility;
      lastUpdate := timestamp;
    }

    method ApplyLiquidity(ds: seq<Delta>, credit: bool)
      modifies this`bins
      ensures bins == ApplyDeltas(old(bins), ds, credit)
    {
      hide ApplyDelta;
      var i := 0;
      while i < |ds|
        invariant i <= |ds| && ApplyDeltas(bins, ds[i..], credit) == ApplyDeltas(old(bins), ds, credit)
      {
        assert ds[i..][1..] == ds[i + 1..];
        ApplyOne(ds[i], credit);
        i := i + 1;
      }
    }

    method ApplyOne(d: Delta, credit: bool)
      modifies this`bins
      ensures bins == ApplyDelta(old(bins), d, credit)
    {
      var (x, y) := BinReserves(bins, d.id);
      if credit {
        SetBin(d.id, SaturateU128(x + d.x), SaturateU128(y + d.y));
      } else {
        SetBin(d.id, SaturateU128(x - d.x), SaturateU128(y - d.y));
      }
    }

    /** Bin by bin from the active one, until the input is used up or no bin is left. */
    method SimulateSwapOutAt(amountIn: U128, forY: bool, timestamp: nat) returns (r: Result<Totals>)
      ensures r == SwapOutAt(State(), amountIn, forY, timestamp)
    {
      var w := StartWalk(State(), forY, timestamp);
      var id, t := activeId, Totals(amountIn, 0, 0);
      hide StepOut, UpdateReferences, NextBin;
      while true
        invariant SwapOutFrom(w, id, t) == SwapOutAt(State(), amountIn, forY, timestamp)
        decreases |Ahead(w, id)|
      {
        t :- StepOut(w, id, t);
        if t.left == 0 {
          break;
        }
        match NextBin(w, id)
        case None => break;
        case Some(next) => id := next;
      }
      return Success(t);
    }

    method SimulateSwapInAt(amountOut: U128, forY: bool, timestamp: nat) returns (r: Result<Totals>)
      ensures r == SwapInAt(State(), amountOut, forY, timestamp)
    {
      var w := StartWalk(State(), forY, timestamp);
      var id, t := activeId, Totals(amountOut, 0, 0);
      hide StepIn, UpdateReferences, NextBin;
      while true
        invariant SwapInFrom(w, id, t) == SwapInAt(State(), amountOut, forY, timestamp)
        decreases |Ahead(w, id)|
      {
        t :- StepIn(w, id, t);
        if t.left == 0 {
          break;
        }
        match NextBin(w, id)
        case None => break;
        case Some(next) => id := next;
      }
      return Success(t);
    }
  }

  // ---- No empty bin is ever stored ----

  predicate NoEmptyBin(bins: map<int, (U128, U128)>) {
    forall id | id in bins :: bins[id] != (0, 0)
  }

  /** Every log keeps the map free of empty bins, and its reserves read as written. */
  lemma BinsStayTight(bins: map<int, (U128, U128)>, id: int, x: U128, y: U128)
    requires NoEmptyBin(bins)
    ensures NoEmptyBin(UpdateBin(bins, id, x, y)) && BinReserves(UpdateBin(bins, id, x, y), id) == (x, y)
    ensures forall k | k != id :: BinReserves(UpdateBin(bins, id, x, y), k) == BinReserves(bins, k)
  {
  }

  /** What a log's deltas add up to on one bin. */
  function SumX(ds: seq<Delta>, id: int): int {
    if ds == [] then 0 else (if ds[0].id == id then ds[0].x else 0) + SumX(ds[1..], id)
  }

  function SumY(ds: seq<Delta>, id: int): int {
    if ds == [] then 0 else (if ds[0].id == id then ds[0].y else 0) + SumY(ds[1..], id)
  }

  lemma {:induction false} SumsNonneg(ds: seq<Delta>, id: int)
    ensures 0 <= SumX(ds, id) && 0 <= SumY(ds, id)
    decreases ds
  {
    if ds != [] {
      SumsNonneg(ds[1..], id);
    }
  }

  /** One delta changes its own bin alone, up to the largest amount or down to nothing. */
  lemma DeltaMoves(bins: map<int, (U128, U128)>, d: Delta, credit: bool)
    requires NoEmptyBin(bins)
    ensures var next, (x, y) := ApplyDelta(bins, d, credit), BinReserves(bins, d.id);
            && NoEmptyBin(next)
            && (if credit then BinReserves(next, d.id) == (SaturateU128(x + d.x), SaturateU128(y + d.y))
                else BinReserves(next, d.id) == (SaturateU128(x - d.x), SaturateU128(y - d.y)))
            && forall id | id != d.id :: BinReserves(next, id) == BinReserves(bins, id)
  {
    var (x, y) := BinReserves(bins, d.id);
    if credit {
      BinsStayTight(bins, d.id, SaturateU128(x + d.x), SaturateU128(y + d.y));
    } else {
      BinsStayTight(bins, d.id, SaturateU128(x - d.x), SaturateU128(y - d.y));
    }
    hide UpdateBin, BinReserves, NoEmptyBin, SaturateU128;
  }

  /** A deposit adds its sums to every bin, up to the largest amount, and leaves no empty one. */
  lemma {:induction false} DepositAdds(bins: map<int, (U128, U128)>, ds: seq<Delta>)
    requires NoEmptyBin(bins)
    ensures var after := ApplyDeltas(bins, ds, true);
            && NoEmptyBin(after)
            && (forall id :: BinReserves(after, id).0 == SaturateU128(BinReserves(bins, id).0 + SumX(ds, id)))
            && (forall id :: BinReserves(after, id).1 == SaturateU128(BinReserves(bins, id).1 + SumY(ds, id)))
    decreases ds
  {
    hide BinReserves, NoEmptyBin, ApplyDelta;
    if ds != [] {
      DeltaMoves(bins, ds[0], true);
      DepositAdds(ApplyDelta(bins, ds[0], true), ds[1..]);
      forall id ensures 0 <= SumX(ds[1..], id) && 0 <= SumY(ds[1..], id) {
        SumsNonneg(ds[1..], id);
      }
    }
  }

  /** A withdrawal takes its sums from every bin, down to nothing, and leaves no empty one. */
  lemma {:induction false} WithdrawalTakes(bins: map<int, (U128, U128)>, ds: seq<Delta>)
    requires NoEmptyBin(bins)
    ensures var after := ApplyDeltas(bins, ds, false);
            && NoEmptyBin(after)
            && (forall id :: BinReserves(after, id).0 == SaturateU128(BinReserves(bins, id).0 - SumX(ds, id)))
            && (forall id :: BinReserves(after, id).1 == SaturateU128(BinReserves(bins, id).1 - SumY(ds, id)))
    decreases ds
  {
    hide BinReserves, NoEmptyBin, ApplyDelta;
    if ds != [] {
      DeltaMoves(bins, ds[0], false);
      WithdrawalTakes(ApplyDelta(bins, ds[0], false), ds[1..]);
      forall id ensures 0 <= SumX(ds[1..], id) && 0 <= SumY(ds[1..], id) {
        SumsNonneg(ds[1..], id);
      }
    }
  }

  /** Maps without empty bins are the same when their reserves are. */
  lemma SameBins(a: map<int, (U128, U128)>, b: map<int, (U128, U128)>)
    requires NoEmptyBin(a) && NoEmptyBin(b) && forall id :: BinReserves(a, id) == BinReserves(b, id)
    ensures a == b
  {
    forall id ensures id in a <==> id in b {
      assert BinReserves(a, id) == BinReserves(b, id);
    }
    forall id | id in a.Keys ensures id in b.Keys {
    }
    forall id | id in b.Keys ensures id in a.Keys {
    }
    forall id | id in a.Keys ensures a[id] == b[id] {
      assert BinReserves(a, id) == BinReserves(b, id);
    }
  }

  /** A side of a bin takes a sum without overflowing, or is empty. */
  predicate TakesBack(reserve: U128, sum: int) {
    reserve + sum < Q128 || reserve == 0
  }

  lemma BackAgain(reserve: U128, sum: int)
    requires 0 <= sum
    ensures SaturateU128(SaturateU128(reserve + sum) - sum) == reserve <==> TakesBack(reserve, sum)
  {
  }

  /**
   * A log that withdraws what another deposited restores the bins exactly when no bin overflows but
   * one that was empty, and so is again.
   */
  lemma WithdrawalUndoesDeposit(bins: map<int, (U128, U128)>, ds: seq<Delta>)
    requires NoEmptyBin(bins)
    ensures ApplyDeltas(ApplyDeltas(bins, ds, true), ds, false) == bins
       <==> forall id :: TakesBack(BinReserves(bins, id).0, SumX(ds, id)) && TakesBack(BinReserves(bins, id).1, SumY(ds, id))
  {
    hide ApplyDeltas, NoEmptyBin, BinReserves, SumX, SumY, TakesBack;
    var after := ApplyDeltas(ApplyDeltas(bins, ds, true), ds, false);
    DepositAdds(bins, ds);
    WithdrawalTakes(ApplyDeltas(bins, ds, true), ds);
    forall id
      ensures BinReserves(after, id) == BinReserves(bins, id)
         <==> TakesBack(BinReserves(bins, id).0, SumX(ds, id)) && TakesBack(BinReserves(bins, id).1, SumY(ds, id))
    {
      hide SaturateU128;
      BinBack(bins, after, ds, id);
    }
    if forall id :: BinReserves(after, id) == BinReserves(bins, id) {
      SameBins(after, bins);
    }
  }

  lemma BinBack(bins: map<int, (U128, U128)>, after: map<int, (U128, U128)>, ds: seq<Delta>, id: int)
    requires BinReserves(after, id).0 == SaturateU128(SaturateU128(BinReserves(bins, id).0 + SumX(ds, id)) - SumX(ds, id))
    requires BinReserves(after, id).1 == SaturateU128(SaturateU128(BinReserves(bins, id).1 + SumY(ds, id)) - SumY(ds, id))
    ensures BinReserves(after, id) == BinReserves(bins, id)
       <==> TakesBack(BinReserves(bins, id).0, SumX(ds, id)) && TakesBack(BinReserves(bins, id).1, SumY(ds, id))
  {
    hide BinReserves, SumX, SumY, SaturateU128, TakesBack;
    SumsNonneg(ds, id);
    BackAgain(BinReserves(bins, id).0, SumX(ds, id));
    BackAgain(BinReserves(bins, id).1, SumY(ds, id));
  }

  /**
   * A swap log moves no other bin, and its own by what came in less what went out: on each side
   * exactly when that neither overflows on the way in nor is more than is there on the way out.
   */
  lemma SwapMovesOneBin(p: Pair, l: SwapLog, timestamp: nat)
    requires NoEmptyBin(p.bins)
    ensures var after := ApplySwapLog(p, l, timestamp);
            var (x, y) := BinReserves(p.bins, l.id);
            && NoEmptyBin(after.bins)
            && (BinReserves(after.bins, l.id).0 == x + l.inX - l.outX <==> x + l.inX < Q128 && l.outX <= x + l.inX)
            && (BinReserves(after.bins, l.id).1 == y + l.inY - l.outY <==> y + l.inY < Q128 && l.outY <= y + l.inY)
            && forall k | k != l.id :: BinReserves(after.bins, k) == BinReserves(p.bins, k)
  {
    var (x, y) := BinReserves(p.bins, l.id);
    BinsStayTight(p.bins, l.id, SaturateU128(SaturateU128(x + l.inX) - l.outX), SaturateU128(SaturateU128(y + l.inY) - l.outY));
    hide UpdateBin, BinReserves, NoEmptyBin, UpdateReferences;
  }

  // ---- Replaying a swap that crossed several bins ----

  /** The logs of one on-chain swap, applied one by one. */
  function Replay(p: Pair, logs: seq<SwapLog>, timestamp: nat): Pair
    decreases logs
  {
    if logs == [] then p else Replay(ApplySwapLog(p, logs[0], timestamp), logs[1..], timestamp)
  }

  /** The contract updates its references once per swap, from the state before it. */
  predicate ReferencesOnce(before: Pair, after: Pair, logs: seq<SwapLog>, timestamp: nat)
    requires logs != []
  {
    && (after.volatilityReference, after.idReference) == UpdateReferences(before, timestamp)
    && after.activeId == logs[|logs| - 1].id && after.volatility == logs[|logs| - 1].volatility
    && after.lastUpdate == timestamp
  }

  lemma {:induction false} ReplayKeepsReferences(p: Pair, logs: seq<SwapLog>, timestamp: nat)
    requires 0 < p.filterPeriod && p.lastUpdate == timestamp && logs != []
    ensures var after := Replay(p, logs, timestamp);
            && after.volatilityReference == p.volatilityReference && after.idReference == p.idReference
            && after.activeId == logs[|logs| - 1].id && after.volatility == logs[|logs| - 1].volatility
            && after.lastUpdate == timestamp
    decreases logs
  {
    hide UpdateBin, SaturateU128, BinReserves;
    var next := ApplySwapLog(p, logs[0], timestamp);
    if |logs| > 1 {
      ReplayKeepsReferences(next, logs[1..], timestamp);
      assert logs[1..][|logs| - 2] == logs[|logs| - 1];
    } else {
      assert logs[1..] == [];
    }
  }

  lemma ReplayUpdatesOnce(p: Pair, logs: seq<SwapLog>, timestamp: nat)
    requires 0 < p.filterPeriod && logs != []
    ensures ReferencesOnce(p, Replay(p, logs, timestamp), logs, timestamp)
  {
    hide UpdateBin, SaturateU128, BinReserves;
    var next := ApplySwapLog(p, logs[0], timestamp);
    if |logs| > 1 {
      ReplayKeepsReferences(next, logs[1..], timestamp);
      assert logs[1..][|logs| - 2] == logs[|logs| - 1];
    } else {
      assert logs[1..] == [];
    }
  }

  /** With a zero filter period the second log moves the id reference to the first log's bin. */
  lemma ReplayDrifts(p: Pair, timestamp: nat) returns (logs: seq<SwapLog>)
    requires p.filterPeriod == 0
    ensures logs != [] && !ReferencesOnce(p, Replay(p, logs, timestamp), logs, timestamp)
  {
    hide UpdateBin, SaturateU128, BinReserves;
    var l := SwapLog(p.activeId + 1, 0, 0, 0, 0, 0);
    logs := [l, l];
    var one := ApplySwapLog(p, l, timestamp);
    var two := ApplySwapLog(one, l, timestamp);
    assert logs[1..] == [l] && [l][1..] == [];
    assert Replay(p, logs, timestamp) == Replay(one, [l], timestamp) == Replay(two, [], timestamp) == two;
    assert one.activeId == p.activeId + 1 && two.idReference == one.activeId;
  }

  /** Log by log replay does what the contract did, for every swap, exactly when the filter period is positive. */
  lemma ReplayIsFaithful(p: Pair, timestamp: nat)
    ensures 0 < p.filterPeriod
       <==> forall logs | logs != [] :: ReferencesOnce(p, Replay(p, logs, timestamp), logs, timestamp)
  {
    hide ReferencesOnce, Replay;
    if 0 < p.filterPeriod {
      forall logs | logs != [] ensures ReferencesOnce(p, Replay(p, logs, timestamp), logs, timestamp) {
        ReplayUpdatesOnce(p, logs, timestamp);
      }
    } else {
      var logs := ReplayDrifts(p, timestamp);
    }
  }
}

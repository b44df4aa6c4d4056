// Runs of pool events (src/v3/pool.rs), and what they owe the swap loop (src/v3/swap_math.rs).
module V3Replica {
  import opened Results
  import opened Words
  import opened Ticks
  import opened TickMath
  import opened V3Pool
  import SwapLoop
  import SwapStep

  datatype Event =
    | Minted(range: Range, amount: U128)
    | Burned(range: Range, amount: U128)
    | Swapped(price: U160, tick: int, liquidity: U128)

  function Take(s: PoolState, e: Event): Result<PoolState> {
    match e
    case Minted(r, amount) => Mint(s, r.lower, r.upper, amount)
    case Burned(r, amount) => Burn(s, r.lower, r.upper, amount)
    case Swapped(price, tick, liquidity) => UpdateState(s, price, tick, liquidity)
  }

  /** A refused event changes nothing. */
  function After(s: PoolState, e: Event): PoolState {
    var next := Take(s, e);
    if next.Success? then next.value else s
  }

  /** The positions on chain after an event the pool accepted. */
  function LedgerAfter(s: PoolState, ledger: Ledger, e: Event): Ledger {
    if Take(s, e).Failure? then ledger
    else
      match e
      case Minted(r, amount) => ledger[r := PositionOf(ledger, r) + amount]
      case Burned(r, amount) =>
        if amount <= PositionOf(ledger, r) then ledger[r := PositionOf(ledger, r) - amount] else ledger
      case Swapped(_, _, _) => ledger
  }

  /** What an event that is not refused means on chain: room for the liquidity, an open position, a true price. */
  ghost predicate Legal(s: PoolState, ledger: Ledger, spacing: int, e: Event)
    requires 0 < spacing
  {
    Take(s, e).Failure? || match e
      case Minted(r, amount) =>
        && Total(ledger, Everything) + amount < Q127
        && MIN_TICK <= r.lower && r.upper <= MAX_TICK && r.lower % spacing == 0 && r.upper % spacing == 0
      case Burned(r, amount) => amount <= PositionOf(ledger, r)
      case Swapped(price, tick, liquidity) => liquidity == Total(ledger, Covering(tick)) && Brackets(price, tick)
  }

  ghost predicate Brackets(price: U160, tick: int) {
    MIN_TICK <= tick < MAX_TICK && PriceOf(tick) <= price <= PriceOf(tick + 1)
  }

  function RunState(s: PoolState, events: seq<Event>): PoolState
    decreases events
  {
    if events == [] then s else RunState(After(s, events[0]), events[1..])
  }

  function RunLedger(s: PoolState, ledger: Ledger, events: seq<Event>): Ledger
    decreases events
  {
    if events == [] then ledger
    else RunLedger(After(s, events[0]), LedgerAfter(s, ledger, events[0]), events[1..])
  }

  ghost predicate LegalRun(s: PoolState, ledger: Ledger, spacing: int, events: seq<Event>)
    requires 0 < spacing
    decreases events
  {
    events == [] || (
      && Legal(s, ledger, spacing, events[0])
      && LegalRun(After(s, events[0]), LedgerAfter(s, ledger, events[0]), spacing, events[1..]))
  }

  /** The replica is what the open positions make it, on ticks a swap can use, at a true price. */
  ghost predicate Faithful(s: PoolState, ledger: Ledger, spacing: int)
    requires 0 < spacing
  {
    && Induced(s, ledger) && Brackets(s.price, s.tick)
    && forall t | t in s.ticks :: MIN_TICK <= t <= MAX_TICK && t % spacing == 0
  }

  lemma EndsOnly(s: PoolState, lower: int, upper: int, amount: U128, t: int)
    ensures Mint(s, lower, upper, amount).Success? && t in Mint(s, lower, upper, amount).value.ticks
        ==> t in s.ticks || t == lower || t == upper
    ensures Burn(s, lower, upper, amount).Success? && t in Burn(s, lower, upper, amount).value.ticks ==> t in s.ticks
    ensures Mint(s, lower, upper, amount).Success? ==>
              var n := Mint(s, lower, upper, amount).value; n.price == s.price && n.tick == s.tick
    ensures Burn(s, lower, upper, amount).Success? ==>
              var n := Burn(s, lower, upper, amount).value; n.price == s.price && n.tick == s.tick
  {
  }

  lemma EventKeeps(s: PoolState, ledger: Ledger, spacing: int, e: Event)
    requires 0 < spacing && Faithful(s, ledger, spacing) && Legal(s, ledger, spacing, e) && Take(s, e).Success?
    ensures Faithful(Take(s, e).value, LedgerAfter(s, ledger, e), spacing)
  {
    hide Total, NetUpTo, SumNet, InducedTicks, PriceOf;
    match e
    case Minted(r, amount) =>
      hide Mint;
      MintRange(s, r.lower, r.upper, amount);
      MintKeeps(s, ledger, r, amount);
      forall t | t in Take(s, e).value.ticks ensures MIN_TICK <= t <= MAX_TICK && t % spacing == 0 {
        EndsOnly(s, r.lower, r.upper, amount, t);
      }
      EndsOnly(s, r.lower, r.upper, amount, 0);
    case Burned(r, amount) =>
      hide Burn;
      BurnKeeps(s, ledger, r, amount);
      forall t | t in Take(s, e).value.ticks ensures MIN_TICK <= t <= MAX_TICK && t % spacing == 0 {
        EndsOnly(s, r.lower, r.upper, amount, t);
      }
      EndsOnly(s, r.lower, r.upper, amount, 0);
    case Swapped(price, tick, liquidity) =>
  }

  lemma MintRange(s: PoolState, lower: int, upper: int, amount: U128)
    ensures Mint(s, lower, upper, amount).Success? <==> lower < upper
  {
  }

  /**
   * Under any run of mints, burns and swaps, refused ones included, the tick map stays exactly the
   * one the open positions induce, and the liquidity that of the positions covering the tick.
   */
  lemma {:induction false} RunStaysFaithful(s: PoolState, ledger: Ledger, spacing: int, events: seq<Event>)
    requires 0 < spacing && Faithful(s, ledger, spacing) && LegalRun(s, ledger, spacing, events)
    ensures Faithful(RunState(s, events), RunLedger(s, ledger, events), spacing)
    decreases events
  {
    hide Faithful, Legal, Take;
    if events != [] {
      if Take(s, events[0]).Success? {
        EventKeeps(s, ledger, spacing, events[0]);
      }
      RunStaysFaithful(After(s, events[0]), LedgerAfter(s, ledger, events[0]), spacing, events[1..]);
    }
  }

  /** A new pool, with no positions, is faithful. */
  lemma NewPoolFaithful(price: U160, tick: int, spacing: int)
    requires 0 < spacing && Brackets(price, tick)
    ensures Faithful(PoolState(price, tick, 0, map[]), map[], spacing)
  {
    var empty: TickMap := map[];
    var none: Ledger := map[];
    forall t ensures NetUpTo(empty, t) == 0 {
      assert KeysUpTo(empty, t) == {};
    }
    assert empty.Keys == {} && none.Keys == {};
  }

  /** A faithful replica is all a swap needs to be correct, whichever way it searches. */
  lemma FaithfulSwaps(s: PoolState, ledger: Ledger, spacing: int, c: SwapLoop.Config, amount: SwapStep.I256)
    requires 0 < spacing && Faithful(s, ledger, spacing)
    requires c.ticks == s.ticks && c.search in {WordBounded(spacing), NextInitialized}
    ensures SwapLoop.PoolTicks(c)
    ensures var start := SwapLoop.SwapFrom(s.price, s.tick, s.liquidity, amount);
            SwapLoop.Consistent(c, start) && SwapLoop.TickAhead(c, start)
  {
    hide SumNet, NetUpTo, Total, PriceOf;
    SwapLoop.CompleteHasTickAhead(c, SwapLoop.SwapFrom(s.price, s.tick, s.liquidity, amount));
  }

  /** Every quote from a replica kept by events is a correct run of the swap loop. */
  lemma ReplicaQuotes(price: U160, tick: int, spacing: int, events: seq<Event>, c: SwapLoop.Config, amount: SwapStep.I256)
    requires 0 < spacing && Brackets(price, tick)
    requires LegalRun(PoolState(price, tick, 0, map[]), map[], spacing, events)
    requires var pool := RunState(PoolState(price, tick, 0, map[]), events);
             var s := SwapLoop.SwapFrom(pool.price, pool.tick, pool.liquidity, amount);
             && c.ticks == pool.ticks && c.search in {WordBounded(spacing), NextInitialized}
             && SwapLoop.Admitted(c, s) && SwapLoop.SwapRun(c, s).Success?
    ensures var pool := RunState(PoolState(price, tick, 0, map[]), events);
            var s := SwapLoop.SwapFrom(pool.price, pool.tick, pool.liquidity, amount);
            SwapLoop.RunCorrect(c, s, SwapLoop.SwapPath(c, s), SwapLoop.SwapRun(c, s).value)
  {
    hide LegalRun, RunState, RunLedger, Faithful, SwapLoop.SwapRun, SwapLoop.SwapPath, SwapLoop.RunCorrect,
         SwapLoop.PoolTicks, SwapLoop.Measure, SwapLoop.TickAhead;
    NewPoolFaithful(price, tick, spacing);
    var start := PoolState(price, tick, 0, map[]);
    RunStaysFaithful(start, map[], spacing, events);
    var pool := RunState(start, events);
    FaithfulSwaps(pool, RunLedger(start, map[], events), spacing, c, amount);
    var s := SwapLoop.SwapFrom(pool.price, pool.tick, pool.liquidity, amount);
    SwapLoop.FirstRoom(c, s);
    SwapLoop.RunKeeps(c, s);
  }

  /** A burn from an open position is never refused. */
  lemma OpenPositionBurns(s: PoolState, ledger: Ledger, r: Range, amount: U128)
    requires Induced(s, ledger) && r.lower < r.upper && 0 < PositionOf(ledger, r)
    ensures Burn(s, r.lower, r.upper, amount).Success?
  {
    hide Total, NetUpTo, SumNet;
    WithinTotal(ledger, Gross(r.lower), r);
    WithinTotal(ledger, Gross(r.upper), r);
    assert GrossIn(s.ticks, r.lower) == Total(ledger, Gross(r.lower));
    assert GrossIn(s.ticks, r.upper) == Total(ledger, Gross(r.upper));
  }
}

// src/v3/tick.rs: the ordered tick map, and where a swap step may end
// (section 6.2.4 of the Uniswap v3 Core whitepaper for the bitmap words).
module Ticks {
  import opened Results
  import opened Arith

  datatype Tick = Tick(index: int, liquidityNet: int, liquidityGross: int)

  type TickMap = map<int, Tick>

  datatype TickSearch = WordBounded(tickSpacing: int) | NextInitialized

  // ---- Range queries of the ordered map ----

  predicate IsGreatest(k: int, s: set<int>) {
    k in s && forall x | x in s :: x <= k
  }

  predicate IsLeast(k: int, s: set<int>) {
    k in s && forall x | x in s :: k <= x
  }

  lemma {:induction false} HasGreatest(s: set<int>)
    requires s != {}
    ensures exists k :: IsGreatest(k, s)
  {
    var k := Member(s);
    if s == {k} {
      assert IsGreatest(k, s);
    } else {
      HasGreatest(s - {k});
      var g :| IsGreatest(g, s - {k});
      assert forall x | x in s :: x == k || x in s - {k};
      assert IsGreatest(Max(k, g), s);
    }
  }

  lemma {:induction false} HasLeast(s: set<int>)
    requires s != {}
    ensures exists k :: IsLeast(k, s)
  {
    var k := Member(s);
    if s == {k} {
      assert IsLeast(k, s);
    } else {
      HasLeast(s - {k});
      var g :| IsLeast(g, s - {k});
      assert forall x | x in s :: x == k || x in s - {k};
      assert IsLeast(Min(k, g), s);
    }
  }

  /** `range(..).next_back()` over the keys in `s`. */
  function Last(s: set<int>): (r: Option<int>)
    ensures r.None? <==> s == {}
    ensures r.Some? ==> IsGreatest(r.value, s)
  {
    if s == {} then None
    else
      HasGreatest(s);
      var k :| IsGreatest(k, s);
      Some(k)
  }

  /** `range(..).next()` over the keys in `s`. */
  function First(s: set<int>): (r: Option<int>)
    ensures r.None? <==> s == {}
    ensures r.Some? ==> IsLeast(r.value, s)
  {
    if s == {} then None
    else
      HasLeast(s);
      var k :| IsLeast(k, s);
      Some(k)
  }

  function KeysIn(ticks: TickMap, lo: int, hi: int): set<int> {
    set t | t in ticks && lo <= t <= hi
  }

  function KeysUpTo(ticks: TickMap, hi: int): set<int> {
    set t | t in ticks && t <= hi
  }

  function KeysAfter(ticks: TickMap, lo: int): set<int> {
    set t | t in ticks && lo < t
  }

  function Found(r: Option<int>, fallback: int): (int, bool) {
    match r
    case Some(t) => (t, true)
    case None => (fallback, false)
  }

  function GetTick(ticks: TickMap, tick: int): Result<Tick> {
    if tick in ticks then Success(ticks[tick]) else Failure("Tick not found")
  }

  /** The first compressed tick of the 256-tick word that holds `compressed`. */
  function WordStart(compressed: int): int {
    compressed / 256 * 256
  }

  function NextInitializedTick(ticks: TickMap, tick: int, lte: bool, search: TickSearch): Result<(int, bool)> {
    match search
    case NextInitialized =>
      if lte then Success(Found(Last(KeysUpTo(ticks, tick)), tick))
      else Success(Found(First(KeysAfter(ticks, tick)), tick))
    case WordBounded(spacing) =>
      if spacing <= 0 then Failure("tick_spacing must be positive")
      else
        var compressed := tick / spacing;
        if lte then
          var lo, hi := WordStart(compressed) * spacing, compressed * spacing;
          Success(Found(Last(KeysIn(ticks, lo, hi)), lo))
        else
          var next := compressed + 1;
          var lo, hi := next * spacing, (WordStart(next) + 255) * spacing;
          Success(Found(First(KeysIn(ticks, lo, hi)), hi))
  }

  // ---- What a search promises ----

  /** Every initialized tick is usable: a multiple of the spacing a word search counts in. */
  predicate Usable(ticks: TickMap, search: TickSearch) {
    match search
    case NextInitialized => true
    case WordBounded(spacing) => 0 < spacing && forall t | t in ticks :: t % spacing == 0
  }

  predicate NoneBetween(ticks: TickMap, lo: int, hi: int) {
    forall t | t in ticks :: !(lo < t <= hi)
  }

  lemma MultipleBelow(t: int, tick: int, spacing: int)
    requires 0 < spacing && t % spacing == 0
    ensures t <= tick <==> t <= tick / spacing * spacing
    ensures tick / spacing * spacing <= tick < (tick / spacing + 1) * spacing
  {
    DivBounds(tick, spacing);
    DivGe(tick, spacing, t / spacing);
    if t <= tick {
      MulMono(t / spacing, tick / spacing, spacing);
    }
  }

  lemma WordBounds(compressed: int, spacing: int)
    requires 0 < spacing
    ensures WordStart(compressed) * spacing <= compressed * spacing <= (WordStart(compressed) + 255) * spacing
  {
    MulMono(WordStart(compressed), compressed, spacing);
    MulMono(compressed, WordStart(compressed) + 255, spacing);
  }

  /**
   * Downward, current tick included: the step ends at or below it, on an initialized tick
   * exactly when it says so, and nothing initialized lies between.
   */
  lemma SearchDown(ticks: TickMap, tick: int, search: TickSearch) returns (next: int, initialized: bool)
    requires Usable(ticks, search)
    ensures NextInitializedTick(ticks, tick, true, search) == Success((next, initialized))
    ensures next <= tick && (initialized <==> next in ticks)
    ensures NoneBetween(ticks, next, tick)
    ensures !initialized && search.NextInitialized? ==> KeysUpTo(ticks, tick) == {}
  {
    var r := NextInitializedTick(ticks, tick, true, search).value;
    next, initialized := r.0, r.1;
    match search
    case NextInitialized =>
      forall t | t in ticks ensures !(next < t <= tick) {
        assert t in KeysUpTo(ticks, tick) <==> t <= tick;
      }
      assert next in ticks && !initialized ==> tick in KeysUpTo(ticks, tick);
    case WordBounded(spacing) =>
      WordBounds(tick / spacing, spacing);
      MultipleBelow(0, tick, spacing);
      var lo, hi := WordStart(tick / spacing) * spacing, tick / spacing * spacing;
      forall t | t in ticks ensures !(next < t <= tick) && (t == lo ==> initialized) {
        MultipleBelow(t, tick, spacing);
        assert t in KeysIn(ticks, lo, hi) <==> lo <= t <= hi;
      }
  }

  /** Upward, current tick excluded: strictly ahead, unless an unbounded search finds nothing. */
  lemma SearchUp(ticks: TickMap, tick: int, search: TickSearch) returns (next: int, initialized: bool)
    requires Usable(ticks, search)
    ensures NextInitializedTick(ticks, tick, false, search) == Success((next, initialized))
    ensures tick < next <==> search.WordBounded? || KeysAfter(ticks, tick) != {}
    ensures tick <= next && (initialized ==> tick < next && next in ticks)
    ensures tick < next && next in ticks ==> initialized
    ensures NoneBetween(ticks, tick, next - 1)
  {
    var r := NextInitializedTick(ticks, tick, false, search).value;
    next, initialized := r.0, r.1;
    match search
    case NextInitialized =>
      forall t | t in ticks ensures !(tick < t <= next - 1) {
        assert t in KeysAfter(ticks, tick) <==> tick < t;
      }
    case WordBounded(spacing) =>
      var c := tick / spacing + 1;
      WordBounds(c, spacing);
      MultipleBelow(0, tick, spacing);
      var lo, hi := c * spacing, (WordStart(c) + 255) * spacing;
      forall t | t in ticks ensures !(tick < t <= next - 1) && (t == hi ==> initialized) {
        MultipleBelow(t, tick, spacing);
        MultipleBelow(t, lo - 1, spacing);
        if tick < t {
          NextMultiple(t, tick, spacing);
        }
        assert t in KeysIn(ticks, lo, hi) <==> lo <= t <= hi;
      }
  }

  lemma NextMultiple(t: int, tick: int, spacing: int)
    requires 0 < spacing && t % spacing == 0 && tick < t
    ensures (tick / spacing + 1) * spacing <= t
  {
    DivBounds(tick, spacing);
    DivBounds(t, spacing);
    MulCancelStrict(tick / spacing, t / spacing, spacing);
    MulMono(tick / spacing + 1, t / spacing, spacing);
  }

  // ---- The word-bounded search refines the unbounded one ----

  lemma WalksDown(ticks: TickMap, tick: int, search: TickSearch)
    requires Usable(ticks, search)
    ensures var r := NextInitializedTick(ticks, tick, true, search);
            r.Success? && r.value.0 <= tick && NoneBetween(ticks, r.value.0, tick) && (r.value.1 <==> r.value.0 in ticks)
  {
    var _, _ := SearchDown(ticks, tick, search);
  }

  lemma WalksUp(ticks: TickMap, tick: int, search: TickSearch)
    requires Usable(ticks, search) && search.WordBounded?
    ensures var r := NextInitializedTick(ticks, tick, false, search);
            r.Success? && tick < r.value.0 && NoneBetween(ticks, tick, r.value.0 - 1) && (r.value.1 <==> r.value.0 in ticks)
  {
    var _, _ := SearchUp(ticks, tick, search);
  }

  /** The tick a downward word-by-word walk first finds initialized, stepping as the swap loop does. */
  function WalkDown(ticks: TickMap, tick: int, spacing: int, goal: int): int
    requires Usable(ticks, WordBounded(spacing)) && goal in ticks && goal <= tick
    decreases tick - goal
  {
    WalksDown(ticks, tick, WordBounded(spacing));
    var (next, initialized) := NextInitializedTick(ticks, tick, true, WordBounded(spacing)).value;
    if initialized then next else WalkDown(ticks, next - 1, spacing, goal)
  }

  function WalkUp(ticks: TickMap, tick: int, spacing: int, goal: int): int
    requires Usable(ticks, WordBounded(spacing)) && goal in ticks && tick < goal
    decreases goal - tick
  {
    WalksUp(ticks, tick, WordBounded(spacing));
    var (next, initialized) := NextInitializedTick(ticks, tick, false, WordBounded(spacing)).value;
    if initialized then next else WalkUp(ticks, next, spacing, goal)
  }

  /** Word by word, downward, the walk stops at the tick the unbounded search returns. */
  lemma {:induction false} WalkDownRefines(ticks: TickMap, tick: int, spacing: int, goal: int)
    requires Usable(ticks, WordBounded(spacing)) && goal in ticks && goal <= tick
    ensures NextInitializedTick(ticks, tick, true, NextInitialized)
         == Success((WalkDown(ticks, tick, spacing, goal), true))
    decreases tick - goal
  {
    var next, initialized := SearchDown(ticks, tick, WordBounded(spacing));
    var far, found := SearchDown(ticks, tick, NextInitialized);
    assert goal in KeysUpTo(ticks, tick);
    if !initialized {
      assert KeysUpTo(ticks, tick) == KeysUpTo(ticks, next - 1);
      WalkDownRefines(ticks, next - 1, spacing, goal);
    }
  }

  /** Word by word, upward, the walk stops at the tick the unbounded search returns. */
  lemma {:induction false} WalkUpRefines(ticks: TickMap, tick: int, spacing: int, goal: int)
    requires Usable(ticks, WordBounded(spacing)) && goal in ticks && tick < goal
    ensures NextInitializedTick(ticks, tick, false, NextInitialized)
         == Success((WalkUp(ticks, tick, spacing, goal), true))
    decreases goal - tick
  {
    var next, initialized := SearchUp(ticks, tick, WordBounded(spacing));
    var far, found := SearchUp(ticks, tick, NextInitialized);
    assert goal in KeysAfter(ticks, tick);
    if !initialized {
      assert KeysAfter(ticks, tick) == KeysAfter(ticks, next);
      WalkUpRefines(ticks, next, spacing, goal);
    }
  }

  // ---- Liquidity at a tick ----

  /** The sum of `liquidity_net` over a set of initialized ticks. */
  ghost function SumNet(ticks: TickMap, keys: set<int>): int
    requires keys <= ticks.Keys
  {
    if keys == {} then 0
    else
      var k := Last(keys).value;
      ticks[k].liquidityNet + SumNet(ticks, keys - {k})
  }

  lemma {:induction false} SumNetRemove(ticks: TickMap, keys: set<int>, k: int)
    requires keys <= ticks.Keys && k in keys
    ensures SumNet(ticks, keys) == ticks[k].liquidityNet + SumNet(ticks, keys - {k})
  {
    var g := Last(keys).value;
    if g != k {
      SumNetRemove(ticks, keys - {g}, k);
      SumNetRemove(ticks, keys - {k}, g);
      assert keys - {g} - {k} == keys - {k} - {g};
    }
  }

  /** Liquidity in force at `tick`: every initialized tick at or below it has been crossed. */
  ghost function NetUpTo(ticks: TickMap, tick: int): int {
    SumNet(ticks, KeysUpTo(ticks, tick))
  }

  lemma NetAcrossEmpty(ticks: TickMap, lo: int, hi: int)
    requires lo <= hi && NoneBetween(ticks, lo, hi)
    ensures NetUpTo(ticks, lo) == NetUpTo(ticks, hi)
  {
    assert KeysUpTo(ticks, lo) == KeysUpTo(ticks, hi);
  }

  lemma NetAcrossTick(ticks: TickMap, tick: int)
    requires tick in ticks
    ensures NetUpTo(ticks, tick) == NetUpTo(ticks, tick - 1) + ticks[tick].liquidityNet
  {
    SumNetRemove(ticks, KeysUpTo(ticks, tick), tick);
    assert KeysUpTo(ticks, tick) - {tick} == KeysUpTo(ticks, tick - 1);
  }
}

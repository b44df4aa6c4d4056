# Verified models of the pool engines and the log delivery

The library mirrors decentralised exchange pools off chain: it replays their
event logs and quotes swaps against the replica. This project models the parts
whose answers must be exact, and proves what they promise.

- **Uniswap V3 swaps** (`FullMath`, `SqrtPriceMath`, `SwapStep`, `TickMath`,
  `TickLog`, `TickInverse`, `RealPowers`, `TickSearch`, `SwapLoop`): 512-bit
  multiply-divide, directed rounding of prices and amounts, one step of a swap,
  prices of ticks and back, and the tick-crossing loop, each layer proved
  against what the next one needs.
- **The V3 replica** (`V3Pool`, `V3Replica`): the tick map kept from mint, burn
  and swap events, tied to the open positions and to the loop's precondition.
- **Liquidity Book** (`LbMath`, `LbWalk`, `LbPool`): 128.128 powers with their
  error, the two bin walks, and the replay of logs.
- **Delivery** (`Positions`, `CatchUp`, `Settler`, `EventQueue`, `Feed`,
  `Delivery`, `WebsocketSource`, `DeliveryOrder`, `EventProcessor`): how logs of a feed that loses
  some are applied exactly once, as classes and loops for the parts and as two
  state machines for the whole: feed, queue and gaps in `Delivery`, and with
  the settler and the blocks handed on in `WebsocketSource`.
- **V2** (`V2Fee`, `V2Stable`): back-solving a pool's fee, and the stable-swap
  Newton solver.

`Arith`, `Words` and `Results` hold the shared arithmetic, the wrapping 256-bit
words with their bitwise operators, and fallible results. Check everything with
`dafny verify dfyconfig.toml`.

## How the model reads

An `Err` is a `Failure` with its message (without the values interpolated into
it); a panic (division by zero, a value that does not fit, an overflow of a
checked integer) is a `Failure` whose message starts with "panic". `U256`
arithmetic wraps, as the library's word type does. Loops and objects updated in
place are methods and classes, each proved equal to a function; the theorems are
about those functions and over runs of them. A lemma that says
`exists v :: Charges(.., v) && ..` speaks of the one value the function returns:
the predicate only names it, so that proofs above need not unfold the function.

## What the proofs found

- The price after a token1 input is a wrapping sum of words: an input whose quotient
  reaches 2^256 less the price is answered with a lower price instead of an
  error (`SqrtPriceMath.Token1InputOutcome`). A step of a swap never gets there.
- Upward, an unbounded tick search with nothing ahead aims behind the price. The
  loop is right exactly short of that (`SwapLoop.RunKeeps`, `SwapLoop.RunBehind`);
  `SwapLoop.RunGoesBack` is a pool on which buying lowers the price.
- An exact-input Liquidity Book quote can panic where the exact-output one answers,
  since it prices the whole reserve of every bin it enters. The round trip fails
  exactly when the bin the quote stops in has no price in 128 bits
  (`LbWalk.QuotedInputIsLeast`, `LbWalk.QuotePanics`).
- A burn does not undo a mint of nothing on a tick that was not there
  (`V3Pool.BurnUndoesMint`).
- Replaying a Liquidity Book swap log by log is right only for a positive
  filter period, as a comment at src/lb/pool.rs:607-617 says
  (`LbPool.ReplayIsFaithful`).
- The catch-up ranges re-fetch a block when cursor and target are both the
  largest 64-bit number (`CatchUp.CatchupIsExact`), and the bootstrap hand-over
  applies logs twice when a queued log is of a block the cursor covers
  (`CatchUp.HandOver`).
- A log sent after the queue is drained, and followed by a loss announced before
  the gaps are taken, is still queued when the later logs of the gap are handed
  on (`Delivery.RaceLeavesHole`). Nothing is lost or applied twice, but the
  order is not the chain's. The comment at src/collector/block_source.rs:695-697
  promises block order; `Delivery.WholeBlocks` says exactly when it holds.
- A block goes on by its timer while a log of its own is noted as lost, if the
  loss began inside it (`WebsocketSource.TimerSplitsBlock`); it never does
  otherwise (`WebsocketSource.TimerRelease`).
- A stable-swap quote divides by zero when both sides hold next to nothing, on an
  exact guard (`V2Stable.DustPanics`), and its solver can go back and forth between
  two guesses until it runs out of rounds, on an ordinary pool (`V2Stable.NoQuote`).

## Model

| member | source | states |
|---|---|---|
| FullMath.MulDiv | src/v3/full_math.rs:34-67 | The loop-free 512-bit algorithm (product modulo 2^256 - 1, power-of-two split, six inverse steps on wrapping words) is Ok exactly when the divisor is not zero and floor(a*b/d) is below 2^256, and then equals that floor |
| FullMath.DoubleWord | src/v3/full_math.rs:35-39 | The residues of a*b modulo 2^256 and 2^256 - 1 determine both words of the product |
| FullMath.DivideExactly | src/v3/full_math.rs:53-66 | A double word divided by any divisor of it, through the odd part's inverse, gives the exact quotient |
| FullMath.InverseInverts | src/v3/full_math.rs:58-65 | The seed and six doubling steps give the inverse of every odd word modulo 2^256 |
| FullMath.NewtonSquares | src/v3/full_math.rs:60-65 | One step turns an inverse modulo m into one modulo m squared, which is why six are enough |
| FullMath.RoundingUpIsCeiling | src/v3/full_math.rs:71-82 | The rounding-up form is the ceiling of a*b/d, and fails exactly when that does not fit |
| FullMath.Q96IsFloor | src/v3/full_math.rs:85-93 | The Q96 form is floor(a*b/2^96) and fails exactly when that does not fit |
| SqrtPriceMath.Amount0Up | src/v3/sqrt_price_math.rs:267-289 | The rounded-up token0 amount between two prices is the least x that pays for the move, despite being rounded twice |
| SqrtPriceMath.Amount0Down | src/v3/sqrt_price_math.rs:267-289 | The rounded-down token0 amount is the greatest x the move covers |
| SqrtPriceMath.Amount1Value | src/v3/sqrt_price_math.rs:293-308 | The token1 amount is the floor or the ceiling of L*(difference)/2^96, as asked, with no overflow |
| SqrtPriceMath.InputToken0 | src/v3/sqrt_price_math.rs:136-174 | A token0 input too small for a target stops at or above it and is enough to pay for the move, on the exact path and on the overflow fallback alike |
| SqrtPriceMath.OutputToken0 | src/v3/sqrt_price_math.rs:136-174 | A token0 output smaller than a target frees never fails, stops at or before the target and is covered by the move |
| SqrtPriceMath.InputToken1 | src/v3/sqrt_price_math.rs:178-208 | The same for a token1 input |
| SqrtPriceMath.OutputToken1 | src/v3/sqrt_price_math.rs:178-208 | The same for a token1 output |
| SqrtPriceMath.Token0InputOutcome | src/v3/sqrt_price_math.rs:136-174 | For every token0 input: answered with a price that did not go up exactly when the fallback's sum fits a word; past that the sum wraps |
| SqrtPriceMath.Token1InputOutcome | src/v3/sqrt_price_math.rs:178-208 | For every token1 input: exactly when it is answered with a price that did not go down, exactly when it fails, and exactly when the wrapping sum answers a lower price |
| SqrtPriceMath.Token1InputWraps | src/v3/sqrt_price_math.rs:178-208 | A concrete input for which the wrapping sum answers a price below the one it started from |
| SwapStep.AmountInLeast | src/v3/swap_math.rs:36-142 | What a step charges for a move is the least input that pays for it |
| SwapStep.AmountOutGreatest | src/v3/swap_math.rs:36-142 | What a step pays for a move is the greatest output the move covers |
| SwapStep.ExactInReaches | src/v3/swap_math.rs:53-101 | An exact input that can pay for the target ends on it, at no more than the input |
| SwapStep.ExactInStops | src/v3/swap_math.rs:53-101 | Otherwise it stops short and input plus fee are the whole amount |
| SwapStep.ExactOutStep | src/v3/swap_math.rs:102-142 | An exact output is never exceeded, and met exactly when the step stops short |
| SwapStep.StepCorrect | src/v3/swap_math.rs:36-142 | Every step, in both directions and modes, succeeds, stays between current price and target, is paid for, covers its output, charges at least its fee rate, never exceeds the specified amount and uses all of it short of the target |
| SwapStep.FreeStep | src/v3/swap_math.rs:36-142 | With no liquidity or nowhere to go, a step reaches its target and moves nothing: the case the no-progress guard is for |
| SwapStep.ExactOutCost | src/v3/swap_math.rs:102-142 | An exact-output step between valid prices costs at most 2^192 of input and a million times that in fee |
| Ticks.SearchDown | src/v3/tick.rs:84-110 | A downward search lands at or below the tick, on an initialized one exactly when it says so, and skips none, on negative ticks too |
| Ticks.SearchUp | src/v3/tick.rs:92-123 | An upward search is strictly ahead exactly when it is word-bounded or something is ahead, and skips none |
| Ticks.WalkDownRefines | src/v3/tick.rs:99-110 | Stepping word by word downward as the swap loop does ends on the tick the unbounded search returns |
| Ticks.WalkUpRefines | src/v3/tick.rs:111-123 | Stepping word by word upward as the swap loop does ends on the tick the unbounded search returns |
| TickMath.GetSqrtRatioAtTick | src/v3/tick_math.rs:57-136 | The code's accumulation over the bits of the tick computes the specified ratio, error cases included |
| TickMath.RatioValue | src/v3/tick_math.rs:57-136 | For every tick in range the ratio exists: no division by zero, no overflow of 160 bits |
| TickMath.RatioIncreases | src/v3/tick_math.rs:57-136 | One tick more is a strictly greater price, through up to nineteen truncated products and the reciprocal |
| TickMath.RatioMonotone | src/v3/tick_math.rs:57-136 | The price is strictly increasing over all ticks |
| TickMath.RatioEndpoints | src/v3/tick_math.rs:57-136 | The two end ticks have exactly the documented least and greatest prices |
| TickLog.PriceLog | src/v3/tick_math.rs:57-136 | The price of every tick has a logarithm between two integers, in small fixed fractions of a bit, that are a few units apart per tick: each truncation on the way is accounted for |
| TickInverse.DigitsBoundPrice | src/v3/tick_math.rs:164-248 | Fourteen truncated squarings give a logarithm that brackets the true one of the price |
| TickInverse.TickOfPrice | src/v3/tick_math.rs:150-264 | For every price in range the answer is a tick t with ratio(t) at most the price and ratio(t + 1) above it |
| TickInverse.TickIsUnique | src/v3/tick_math.rs:138-149 | There is only one such tick |
| TickInverse.GetTickAtSqrtRatio | src/v3/tick_math.rs:150-264 | The code on wrapping words, digits set bit by bit and candidates read from limbs, computes exactly the specified tick, and refuses exactly the prices out of range |
| SwapLoop.TurnAdmitted | src/v3/swap_math.rs:189-280 | No turn passes the limit or changes the sign of the remaining amount, and the amount settled is exact |
| SwapLoop.TurnDecreases | src/v3/swap_math.rs:189-280 | On every tick map, price and amount, a turn after which the loop goes on decreases a bounded measure |
| SwapLoop.RunConserves | src/v3/swap_math.rs:189-282 | On every tick map, price, tick, liquidity and amount, a run that succeeds has specified = remaining + moved, keeps the sign, and ended with nothing remaining, at the limit or with no liquidity |
| SwapLoop.TurnKeeps | src/v3/swap_math.rs:193-280 | From a consistent pool with a tick ahead, every turn keeps the tick bracketing the price and the liquidity equal to the nets at or below the tick, and moves in the trade direction, paid for |
| SwapLoop.CrossingKeeps | src/v3/swap_math.rs:259-275 | Crossing a tick in either direction leaves the liquidity equal to the sum of the nets below the new tick |
| SwapLoop.StoppingKeeps | src/v3/swap_math.rs:276-279 | Stopping short, the tick found from the price lies in the range just searched |
| SwapLoop.UpwardTarget | src/v3/swap_math.rs:193-221 | An upward step aims at or past the price exactly when the search is word-bounded, or a tick is ahead, or the price is its tick's own |
| SwapLoop.TickAheadKept | src/v3/swap_math.rs:259-275 | A turn after which the loop goes on leaves the pool consistent and a tick ahead again |
| SwapLoop.RunBehind | src/v3/swap_math.rs:189-282 | The converse: with no tick ahead, an upward run that succeeds never raises the price, and leaves it only by using the amount up |
| SwapLoop.RunGoesBack | src/v3/swap_math.rs:189-282 | A concrete consistent pool, one tick below the price, on which an upward run answers a lower price |
| SwapLoop.RunKeeps | src/v3/swap_math.rs:179-282 | Over every run from a consistent pool with a tick ahead: all states consistent, the price one way and never past the limit, both sides exact, and at the end nothing remaining or the limit reached or no liquidity |
| SwapLoop.RunTurn | src/v3/swap_math.rs:192-280 | The loop body, updating the state field by field, is the specified turn, failures included |
| SwapLoop.V3Swap | src/v3/swap_math.rs:146-283 | Entry checks and loop: refuses exactly as specified, returns on every input, an Ok result conserves the specified side on every map, and from a consistent pool it is that of a correct run if a tick is ahead and otherwise no higher price |
| V3Pool.Pool.ApplyMintEvent | src/v3/pool.rs:403-434 | In place, the mint that the specification describes, or an error and no change |
| V3Pool.Pool.ApplyBurnEvent | src/v3/pool.rs:437-497 | In place, the burn that the specification describes; a refused burn changes nothing |
| V3Pool.Pool.ApplySwapEvent | src/v3/pool.rs:212-224 | Price, tick and liquidity are set, or nothing is |
| V3Pool.Pool.SetTick | src/v3/pool.rs:227-244 | In place: a tick is stored exactly when its gross liquidity is not zero, with the saturated net, and every other tick is as it was |
| V3Pool.BurnUndoesMint | src/v3/pool.rs:403-497 | Short of saturation, a burn restores the exact state before the mint if and only if something was minted or both ticks were there |
| V3Pool.MintKeeps | src/v3/pool.rs:403-434 | A mint leaves the tick map exactly induced by the positions with its own grown, at every tick |
| V3Pool.BurnKeeps | src/v3/pool.rs:437-497 | A burn within its position leaves the tick map exactly induced by the positions with its own shrunk |
| V3Replica.RunStaysFaithful | src/v3/pool.rs:403-497 | Over every run of mints, burns and swaps, refused ones included: net, gross and presence of each tick are those of the open positions, nets sum to zero, and liquidity is that of the positions covering the tick |
| V3Replica.OpenPositionBurns | src/v3/pool.rs:437-457 | A burn from an open position is never refused |
| V3Replica.FaithfulSwaps | src/v3/pool.rs:253-303 | A replica kept by events meets everything the swap loop needs, whichever way it searches |
| V3Replica.ReplicaQuotes | src/v3/pool.rs:273-327 | So every successful quote from such a replica is a correct run of the swap loop |
| LbMath.Pow128 | src/lb/math.rs:69-104 | The twenty-round loop computes the specified power, inversion and underflow included |
| LbMath.PowerError | src/lb/math.rs:84-114 | For x at most 2^128 and y below 2^20, exact - y <= result <= exact, where exact is 2^128*(x/2^128)^y over the reals |
| LbMath.PowerErrorInverted | src/lb/math.rs:69-104 | For every other base and sign, the same bound on the power that is inverted, and the result is its floored reciprocal |
| LbMath.FeesAgree | src/lb/math.rs:165-186 | Taking the fee out of a gross amount leaves at least the net exactly when the gross covers the net with its fee added |
| LbMath.MulShiftRounds | src/lb/math.rs:219-241 | For all words and every shift: exactly when the two multiply-shift forms are the floor and the ceiling of the product over the power of two |
| LbMath.ShiftDivRounds | src/lb/math.rs:247-275 | For all words, shifts and positive divisors: exactly when the two shift-divide forms are the floor and the ceiling |
| LbMath.SellXAdjoint | src/lb/math.rs:219-275 | Selling X, an input buys an output exactly when it is at least the rounded-up price of it |
| LbMath.SellYAdjoint | src/lb/math.rs:219-275 | Selling Y, an input buys an output exactly when it is at least the rounded-up price of it |
| LbWalk.BinOutAnswers | src/lb/pool.rs:234-284 | One bin answers an exact input, whatever its size, exactly when its whole reserve has a price in 128 bits |
| LbWalk.BinInIsLeast | src/lb/pool.rs:234-284 | In such a bin, what the exact-output walk asks is the least input for which the exact-input walk gives that output |
| LbWalk.OutAnswers | src/lb/pool.rs:215-297 | Over any number of bins: the exact-input walk answers exactly when every bin the input gets to, by draining those before, is priced whole in 128 bits |
| LbWalk.StopAnswers | src/lb/pool.rs:215-372 | The exact-input walk answers the input the exact-output walk found if and only if the bin that one stopped in, where the reserves first add up to the output, is priced whole |
| LbWalk.WalksAgree | src/lb/pool.rs:215-372 | Over any number of bins and per-bin fees: where it answers, the exact-input walk reaches the output exactly when it starts with at least the input the exact-output walk found, and with exactly that leaves nothing |
| LbWalk.QuotedInputIsLeast | src/lb/pool.rs:314-372 | The round trip of the pair's two quotes at one timestamp and direction: the input quoted is answered if and only if the bin the quote stops in is priced whole, then with at least the output and nothing left; no smaller input is enough |
| LbWalk.QuotePanics | src/lb/pool.rs:215-372 | A concrete pair, one bin just below the price of one, that quotes an output and answers no exact input whatever |
| LbWalk.OutMonotone | src/lb/pool.rs:215-297 | More input never gives less output, a smaller fee or less left over, and never makes a walk that succeeded fail for less |
| LbWalk.MoreInMoreOut | src/lb/pool.rs:215-297 | For the pair's own quote: more input never gives less output, a smaller fee or less left over, and an input answers whenever a larger one does |
| LbWalk.OutWithinReserves | src/lb/pool.rs:229-296 | Output is at most the reserves of the bins ahead, and input is left over only when every one of them is drained |
| LbWalk.PassesAllAhead | src/lb/pool.rs:147-153 | A walk passes every stored bin in its direction and no other |
| LbPool.LiquidityBookPair.SimulateSwapOutAt | src/lb/pool.rs:215-297 | The exact-input loop returns what the specification's walk does, failures included |
| LbPool.LiquidityBookPair.SimulateSwapInAt | src/lb/pool.rs:314-372 | The exact-output loop returns what the specification's walk does, failures included |
| LbPool.LiquidityBookPair.SetBin | src/lb/pool.rs:156-162 | In place: a bin is stored exactly when one of its reserves is not zero, and then with these, and every other bin is as it was |
| LbPool.LiquidityBookPair.ApplySwap | src/lb/pool.rs:586-634 | A swap log in place: reserves, references from the state before it, then its own bin, accumulator and time |
| LbPool.SwapMovesOneBin | src/lb/pool.rs:586-601 | A swap log changes no other bin, and its own by in less out exactly when neither side saturates; no empty bin is ever stored |
| LbPool.LiquidityBookPair.ApplyLiquidity | src/lb/pool.rs:653-678 | A log's list of deposits or withdrawals, applied in place bin by bin, is the specified one |
| LbPool.DepositAdds | src/lb/pool.rs:653-664 | A list of deposits adds its sum to every bin, up to the largest amount, however often a bin occurs in it |
| LbPool.WithdrawalTakes | src/lb/pool.rs:666-678 | A list of withdrawals takes its sum from every bin, down to nothing, and leaves no empty bin stored |
| LbPool.WithdrawalUndoesDeposit | src/lb/pool.rs:653-678 | A withdrawal restores the bin map before the deposit of the same list if and only if no bin overflows but one that was empty |
| LbPool.ReplayIsFaithful | src/lb/pool.rs:167-189 | Replaying the logs of one swap updates the references as the contract's one call did, for every sequence of logs, if and only if the filter period is positive |
| Positions.ChainOrder | src/collector/block_source.rs:46-71 | Positions are totally ordered, and at-or-after is the complement of before |
| Positions.CoordinatewiseMisses | src/collector/block_source.rs:59-68 | Exactly which later positions a coordinate-by-coordinate comparison would miss |
| CatchUp.CatchupBatches | src/collector/block_source.rs:83-102 | The ranges are consecutive, non-empty, of at most the configured size, from the saturated successor of the cursor through the first event block |
| CatchUp.CatchupIsExact | src/collector/block_source.rs:73-82 | They hold every block after the cursor through the first event's exactly once and no other, unless both are the largest 64-bit number |
| CatchUp.CatchUpOverRpc | src/collector/block_source.rs:761-860 | Whatever fetches fail and are retried, what is applied is the chain from after the cursor up to the first queued log, in order and once |
| CatchUp.HandOver | src/collector/block_source.rs:733-912 | Catch-up to the boundary followed by the logs from there on is every log after the cursor, once and in chain order, if and only if the first of those logs is of a block after the cursor |
| Settler.BlockSettler.Add | src/collector/block_source.rs:504-519 | Arrivals in place: retractions dropped, each log filed under its block with its arrival time |
| Settler.BlockSettler.TakeReadyBlock | src/collector/block_source.rs:522-546 | The oldest complete block in place, or nothing and no change |
| Settler.SortIsStable | src/collector/block_source.rs:530-537 | A block is put in chain order, keeping logs of equal position in arrival order and losing none |
| Settler.RunConserves | src/collector/block_source.rs:504-546 | Over any interleaving of arrivals and polls, the logs added that were not retracted are, as multisets, those handed on and those pending |
| Settler.RunBatches | src/collector/block_source.rs:522-546 | Every batch is one block in chain order, with its late mark and cursor as they should be |
| Settler.BatchesAdvance | src/collector/block_source.rs:536-545 | The cursor never goes back, and a batch not marked late has a greater block than every one before it |
| EventQueue.EventSender.Record | src/collector/event_queue.rs:212-252 | In place: a key in the table is refused, a new one enters it, the oldest leaving when it is full |
| EventQueue.EventSender.Send | src/collector/event_queue.rs:198-209 | A new log joins the channel once, a duplicate changes nothing |
| EventQueue.EventSender.TakeGaps | src/collector/event_queue.rs:162-164 | Every gap noted is handed over once, in order |
| EventQueue.TableHoldsNewest | src/collector/event_queue.rs:226-249 | After any sequence of records, the table is exactly the newest accepted keys, as many as it may hold |
| EventQueue.NoEarlyRepeat | src/collector/event_queue.rs:226-249 | So a key is accepted again only after more than that many others were |
| Feed.FeedProgress.Forward | src/collector/websocket_listener.rs:80-93 | In place: the last position never goes back, and an open gap is closed by the log about to go on, from the last position to that log |
| Delivery.FetchGapExact | src/collector/block_source.rs:610-665 | A gap fetch returns exactly the chain's logs strictly inside the gap and at or after the floor, once each |
| Delivery.StepKeeps | src/collector/block_source.rs:929-953 | Every step of feed, queue and source keeps every due and forwarded log in exactly one place |
| Delivery.TakenOnce | src/collector/websocket_listener.rs:61-93 | In every reachable state, a due log has been taken in at most once, and every one forwarded is taken in, queued, in flight or inside exactly one gap yet to be filled |
| Delivery.AllIn | src/collector/block_source.rs:610-707 | Once nothing is queued or left to fill, every due and forwarded log has been taken in exactly once, whatever the feed lost |
| Delivery.GapFirst | src/collector/block_source.rs:698-707 | Whenever a block may be handed on, the log ending a gap is not in before the gap's logs are, and no log below one that is in is missing in a gap |
| Delivery.WholeBlocks | src/collector/block_source.rs:929-953 | From the taking of the gaps to the next hand-on, nothing due is missing below a log that is in if and only if no due log sent between drain and taking lies below a due log inside a gap taken |
| Delivery.RaceLeavesHole | src/collector/block_source.rs:929-953 | A reachable state in which that fails: a block may be handed on while an earlier log is still queued |
| WebsocketSource.HandedBeforeLoss | src/collector/block_source.rs:695-707 | In every reachable state, every log handed on was forwarded before the loss of every gap not yet filled; so no block handed on reaches the end of such a gap but one the loss began in |
| WebsocketSource.ReleasedByLater | src/collector/block_source.rs:522-546 | A block released because a later one is pending lies strictly below the end of every gap not yet filled, and is whole with all before it if nothing is missing below what is in |
| WebsocketSource.ReleasedWhole | src/collector/block_source.rs:929-956 | Over every run: such a release completes every due log through its block, each applied once, unless a due log sent between drain and taking lies below a due log inside a gap taken |
| WebsocketSource.TimerRelease | src/collector/block_source.rs:522-546 | The block that ended a gap goes on before the gap's logs are in if and only if the gap is not filled, is not empty, and that block alone is pending and settled; the loss then began inside the block |
| WebsocketSource.TimerSplitsBlock | src/collector/block_source.rs:522-546 | A concrete run in which that happens: half a block is handed on, a log of its middle noted as lost |
| WebsocketSource.AppliedOnce | src/collector/block_source.rs:711-960 | In every reachable state after bootstrap, a chain log after the cursor has been applied at most once, over RPC, at bootstrap or from a block handed on, and one the feed has passed is applied or on its way in exactly one place |
| WebsocketSource.AllApplied | src/collector/block_source.rs:711-960 | With nothing on its way, every chain log after the cursor that the feed passed has been applied exactly once |
| DeliveryOrder.DrainedInOrder | src/collector/block_source.rs:733-745 | What bootstrap drains is in chain order as the feed sent it, so that without a gap to fill there is nothing to sort |
| DeliveryOrder.AppliesInChainOrder | src/collector/block_source.rs:711-960 | Over every run in which each taking of gaps meets the condition of `Delivery.WholeBlocks` and no block is split by its timer: catch-up, the queued logs of bootstrap, then the blocks handed on, log by log, are in chain order |
| EventProcessor.GroupByPool | src/collector/event_processor.rs:114-125 | Each pool's logs in the order they came, and each pool once |
| EventProcessor.ApplyGrouped | src/collector/event_processor.rs:75-98 | Applying the groups in any order of the pools gives each known pool its own logs in order |
| EventProcessor.ProcessConfirmedEvents | src/collector/event_processor.rs:106-152 | A batch grouped by pool leaves the registry as log by log in chain order, for every batch, registry and apply function, failing logs and unknown pools included; the swaps collected are those of known pools, each pool's in order |
| V2Fee.QuoteIsFloor | src/v2/pool.rs:105-124 | With 112-bit reserves a constant-product quote is the exact floored quotient, and below the reserve |
| V2Fee.Inverts | src/v2/fetcher.rs:107-116 | A quote's truncation remainder is the whole error of the inversion, and at most half the divisor is harmless |
| V2Fee.SolveRecovers | src/v2/fetcher.rs:107-116 | One quote of a large enough probe gives the fee back exactly |
| V2Fee.CalibrationIsExact | src/v2/fetcher.rs:83-124 | On the pool's own two quotes, with at least 12.5 million units of the other token, calibration answers the fee exactly when it can be believed and refuses it otherwise |
| V2Fee.NormaliseNeverWraps | src/v2/fetcher.rs:47-58 | A reading never wraps: below 1e4 it is the smaller of itself and its complement, at most half the notional, and above it is itself |
| V2Stable.GetY | src/v2/pool.rs:205-233 | The Newton loop computes the specified solver, in which every word operation wraps |
| V2Stable.SolveBrackets | src/v2/pool.rs:205-233 | On an 18-decimal pool, an answer y has f(x0,y) at least xy, and either equal or f(x0,y-1) below it, for all balances that scale without wrapping |
| V2Stable.RoundStays | src/v2/pool.rs:205-233 | One round never divides by zero and never steps past zero; a step up only repairs what the step down before it truncated, so the guess stays within a fixed slack above the start |
| V2Stable.SolveStays | src/v2/pool.rs:205-233 | So no run of the solver wraps or panics |
| V2Stable.AnsweredIsFair | src/v2/pool.rs:156-177 | Whenever the solver answers a balance below 2^93, the quote never underflows its reserve; after the swap the curve is at least what it was, and one unit more out would bring it below unless it is level |
| V2Stable.StableQuoteIsSafe | src/v2/pool.rs:156-177 | With a hundred-thousandth of a token on the paying side and a curve that is not zero, or with a whole token, a quote is such an answer or the solver ran out of rounds |
| V2Stable.SlopeIsZero | src/v2/pool.rs:199-203 | The slope at two balances is zero if and only if the paying side is below a millionth of a token and three times it, times the truncated square of the other, is below 10^18 |
| V2Stable.NeverFlat | src/v2/pool.rs:199-203 | No guess whatever, wrapped ones included, has a slope of zero if and only if the paying side is at least a millionth of a token |
| V2Stable.DustPanics | src/v2/pool.rs:156-233 | The first round of a quote divides by zero exactly on that guard, and then the quote panics; from a millionth of a token on it never does, in any round |
| V2Stable.CyclesExactly | src/v2/pool.rs:205-233 | Two guesses around the target lead to each other if and only if the step from each is exactly one |
| V2Stable.CycleFails | src/v2/pool.rs:205-233 | From such a guess the solver fails with any number of rounds |
| V2Stable.NoQuote | src/v2/pool.rs:156-233 | A concrete pool, with room as above, whose quote for an input of 977 runs out of rounds that way |

## Left out

- SwapLoop.V3Swap: the fee is below one million, as every pool type's is; the guard against a larger one is the contract's, not this function's.
- V3Replica.RunStaysFaithful: positions total less than 2^127, so that nothing saturates, and swap events carry the liquidity and a price the chain has.
- LbWalk.QuotedInputIsLeast: prices are positive, and the reserves ahead total less than 2^128, as the pair contract holds them.
- Delivery.TakenOnce: `fill_reconnect_gaps` is set, as for a single feed; that feed delivers in chain order, with no reorganisations, no logs in block zero, a channel that is never full and an RPC node that answers a passed range in full.
- WebsocketSource.AppliedOnce: every log carries its position, in 64-bit numbers; the cursor is below the largest of them; the pricing mode of a batch and the cursor it sets are not modelled beyond `Settler.RunBatches`.
- DeliveryOrder.AppliesInChainOrder: that order is lost without either condition is shown by `Delivery.RaceLeavesHole` and `WebsocketSource.TimerSplitsBlock`, not as a converse over runs.
- V2Fee.CalibrationIsExact: reserves of 112 bits, as the pair contract holds them, and at least two units of the first token.
- V2Stable.StableQuoteIsSafe: 18-decimal tokens and balances below 2^93; for other decimals the solver's own `k` rescales balances that are already scaled. Open: whether an answer is a balance with less than a hundred-thousandth of a token on the paying side, or with less than a token on a curve that is zero; and which pools below a millionth of a token that pass the first round panic in a later one.
- V2Stable.AnsweredIsFair: assumes that the answer is a balance, for pools outside `V2Stable.StableQuoteIsSafe`, where that is shown.
- CatchUp.HandOver: the cursor is below the largest 64-bit number; a cursor there is covered by `CatchUp.CatchupIsExact`.
- EventQueue.NoEarlyRepeat: logs are identified by transaction hash and index; block times of the queue are not modelled.
- LbPool.LiquidityBookPair.ApplySwap: the fee parameters are constant for the life of the object; the event that changes them, flash loans, composition fees and the version 2.0 events are not modelled.
- Ticks, bin ids and spacings are unbounded integers rather than 32-bit words; no product of them comes near the limit on ticks a pool can have.
- The unrolled bit tests of the tick functions (20 and 14) are loops over the same bits.
- Clocks are integer parameters, locks and channels are atomic steps, and `eth_getLogs` returns the chain's logs in a range.
- Fee readers, the swap-fee window, event decoding, RPC retries, the pending-block and latest-block sources, registries, metrics, MockPool and ERC4626 pools: no property beyond a single body.

// src/collector/block_source.rs: the block ranges of a catch-up, and the bootstrap that hands over
// from RPC to the queue.
module CatchUp {
  import opened Arith
  import opened Positions

  const U64_MAX: nat := 0xffffffffffffffff

  type U64 = x: int | 0 <= x <= U64_MAX

  function SaturatingAdd(x: U64, y: U64): U64 {
    Min(x + y, U64_MAX)
  }

  function NextBlock(range: (U64, U64)): int {
    var last: int := range.1;
    last + 1
  }

  /** Consecutive non-empty ranges of at most `span` blocks, from `first` through `last`. */
  predicate Tiled(batches: seq<(U64, U64)>, first: int, last: int, span: int)
    decreases batches
  {
    if batches == [] then last < first
    else
      && batches[0].0 == first && first <= batches[0].1 <= last && batches[0].1 - first < span
      && Tiled(batches[1..], NextBlock(batches[0]), last, span)
  }

  lemma {:induction false} TiledAppend(batches: seq<(U64, U64)>, first: int, start: U64, span: int, end: U64)
    requires Tiled(batches, first, start - 1, span) && first <= start <= end && end - start < span
    ensures Tiled(batches + [(start, end)], first, end, span)
    decreases batches
  {
    if batches == [] {
      assert first == start;
      assert [(start, end)][1..] == [];
    } else {
      TiledAppend(batches[1..], NextBlock(batches[0]), start, span, end);
      assert (batches + [(start, end)])[1..] == batches[1..] + [(start, end)];
    }
  }

  method CatchupBatches(lastProcessed: U64, maxPerBatch: U64, firstEvent: U64) returns (batches: seq<(U64, U64)>)
    ensures Tiled(batches, SaturatingAdd(lastProcessed, 1), firstEvent, Max(maxPerBatch, 1))
  {
    var span := Max(maxPerBatch, 1);
    batches := [];
    var start := SaturatingAdd(lastProcessed, 1);
    ghost var origin := start;
    while start <= firstEvent
      invariant origin <= start && (batches != [] ==> start <= firstEvent)
      invariant Tiled(batches, origin, start - 1, span)
      decreases firstEvent - start
    {
      var end := Min(SaturatingAdd(start, span - 1), firstEvent);
      TiledAppend(batches, origin, start, span, end);
      batches := batches + [(start, end)];
      if end >= firstEvent {
        break;
      }
      start := end + 1;
    }
  }

  lemma TiledHead(batches: seq<(U64, U64)>, first: int, last: int, span: int)
    requires Tiled(batches, first, last, span)
    ensures if batches == [] then last < first
            else batches[0].0 == first <= batches[0].1 <= last && Tiled(batches[1..], NextBlock(batches[0]), last, span)
  {
  }

  /** How many of the ranges hold a block. */
  function RangesWith(batches: seq<(U64, U64)>, block: int): nat {
    if batches == [] then 0
    else (if batches[0].0 <= block <= batches[0].1 then 1 else 0) + RangesWith(batches[1..], block)
  }

  lemma {:induction false} TilesEachOnce(batches: seq<(U64, U64)>, first: int, last: int, span: int, block: int)
    requires Tiled(batches, first, last, span)
    ensures RangesWith(batches, block) == if first <= block <= last then 1 else 0
    decreases batches
  {
    if batches != [] {
      TilesEachOnce(batches[1..], NextBlock(batches[0]), last, span, block);
    }
  }

  /**
   * The ranges hold every block after the cursor through the first queued one exactly once and no
   * other block, unless both are the largest 64-bit number.
   */
  lemma CatchupIsExact(batches: seq<(U64, U64)>, lastProcessed: U64, firstEvent: U64, span: int)
    requires Tiled(batches, SaturatingAdd(lastProcessed, 1), firstEvent, span)
    ensures (forall b :: RangesWith(batches, b) == if lastProcessed < b <= firstEvent then 1 else 0)
       <==> !(lastProcessed == firstEvent == U64_MAX)
  {
    forall b
      ensures RangesWith(batches, b) == if SaturatingAdd(lastProcessed, 1) <= b <= firstEvent then 1 else 0
    {
      TilesEachOnce(batches, SaturatingAdd(lastProcessed, 1), firstEvent, span, b);
    }
    assert lastProcessed == firstEvent == U64_MAX ==> RangesWith(batches, U64_MAX) == 1;
  }

  // ---- What a fetch of a range returns, for a chain given in order ----

  function Fetch(chain: seq<LogPosition>, from: int, to: int): seq<LogPosition> {
    if chain == [] then []
    else (if from <= chain[0].block <= to then [chain[0]] else []) + Fetch(chain[1..], from, to)
  }

  lemma Tail(chain: seq<LogPosition>)
    requires chain != [] && InChainOrder(chain)
    ensures InChainOrder(chain[1..]) && forall i | 1 <= i < |chain| :: chain[0].block <= chain[i].block
  {
  }

  lemma {:induction false} FetchNothing(chain: seq<LogPosition>, from: int, to: int)
    requires forall i | 0 <= i < |chain| :: !(from <= chain[i].block <= to)
    ensures Fetch(chain, from, to) == []
    decreases chain
  {
    if chain != [] {
      FetchNothing(chain[1..], from, to);
    }
  }

  /** Adjacent ranges fetch what their union does, in the same order. */
  lemma {:induction false} FetchJoins(chain: seq<LogPosition>, from: int, middle: int, to: int)
    requires InChainOrder(chain) && from <= middle + 1 <= to + 1
    ensures Fetch(chain, from, middle) + Fetch(chain, middle + 1, to) == Fetch(chain, from, to)
    decreases chain
  {
    if chain != [] {
      Tail(chain);
      FetchJoins(chain[1..], from, middle, to);
      if middle < chain[0].block {
        FetchNothing(chain[1..], from, middle);
      }
    }
  }

  /** The logs at or after the boundary, and those before it. */
  function From(logs: seq<LogPosition>, boundary: LogPosition): seq<LogPosition> {
    if logs == [] then [] else if IsAtOrAfter(logs[0], boundary) then logs else From(logs[1..], boundary)
  }

  function Until(logs: seq<LogPosition>, boundary: LogPosition): seq<LogPosition> {
    if logs == [] || IsAtOrAfter(logs[0], boundary) then [] else [logs[0]] + Until(logs[1..], boundary)
  }

  // ---- Bootstrap: RPC up to the first queued log, the queue from there ----

  lemma UntilStep(logs: seq<LogPosition>, j: nat, boundary: LogPosition, done: seq<LogPosition>)
    requires j < |logs|
    ensures done + Until(logs[j..], boundary)
         == if IsAtOrAfter(logs[j], boundary) then done else done + [logs[j]] + Until(logs[j + 1..], boundary)
  {
    assert logs[j..][1..] == logs[j + 1..];
  }

  lemma {:induction false} UntilJoins(a: seq<LogPosition>, b: seq<LogPosition>, boundary: LogPosition)
    ensures Until(a + b, boundary) == if Until(a, boundary) == a then a + Until(b, boundary) else Until(a, boundary)
    decreases a
  {
    if a == [] {
      assert a + b == b;
    } else {
      assert (a + b)[1..] == a[1..] + b;
      UntilJoins(a[1..], b, boundary);
    }
  }

  /** Applies a fetched batch in order up to the boundary; says whether it was reached. */
  method ApplyUntil(fetched: seq<LogPosition>, boundary: LogPosition, applied: seq<LogPosition>)
    returns (next: seq<LogPosition>, reached: bool)
    ensures next == applied + Until(fetched, boundary)
    ensures !reached <==> Until(fetched, boundary) == fetched
  {
    next, reached := applied, false;
    var j := 0;
    while j < |fetched|
      invariant j <= |fetched| && next == applied + fetched[..j]
      invariant next + Until(fetched[j..], boundary) == applied + Until(fetched, boundary)
    {
      UntilStep(fetched, j, boundary, next);
      if IsAtOrAfter(fetched[j], boundary) {
        reached := true;
        Cancel(applied, Until(fetched, boundary), fetched[..j]);
        return;
      }
      next := next + [fetched[j]];
      j := j + 1;
    }
    Cancel(applied, Until(fetched, boundary), fetched);
  }

  lemma Cancel(a: seq<LogPosition>, b: seq<LogPosition>, c: seq<LogPosition>)
    ensures a + b == a + c ==> b == c
  {
    assert (a + b)[|a|..] == b && (a + c)[|a|..] == c;
  }

  /** One more batch: either it is applied whole, or the boundary lies in it and nothing is left to do. */
  lemma JoinBatch(chain: seq<LogPosition>, origin: int, from: int, end: int, first: LogPosition)
    requires InChainOrder(chain) && origin <= from <= end <= first.block
    requires var done := Fetch(chain, origin, from - 1); Until(done, first) == done
    ensures var done, fetched := Fetch(chain, origin, from - 1), Fetch(chain, from, end);
            if Until(fetched, first) == fetched then
              done + fetched == Fetch(chain, origin, end) == Until(Fetch(chain, origin, end), first)
            else
              done + Until(fetched, first) == Until(Fetch(chain, origin, first.block), first)
  {
    hide Fetch, Until;
    var done, fetched, rest := Fetch(chain, origin, from - 1), Fetch(chain, from, end), Fetch(chain, end + 1, first.block);
    FetchJoins(chain, origin, from - 1, end);
    FetchJoins(chain, origin, end, first.block);
    UntilJoins(done, fetched, first);
    UntilJoins(done + fetched, rest, first);
    Cancel(done, Until(fetched, first), fetched);
  }

  /** Fetches one range and applies what the queue does not hold. */
  method CatchUpBatch(chain: seq<LogPosition>, start: U64, end: U64, first: LogPosition, applied: seq<LogPosition>, ghost origin: int)
    returns (next: seq<LogPosition>, reached: bool)
    requires InChainOrder(chain) && origin <= start <= end && end <= first.block
    requires applied == Fetch(chain, origin, start - 1) == Until(Fetch(chain, origin, start - 1), first)
    ensures if reached then next == Until(Fetch(chain, origin, first.block), first)
            else next == Fetch(chain, origin, end) == Until(Fetch(chain, origin, end), first)
  {
    hide InChainOrder;
    JoinBatch(chain, origin, start, end, first);
    hide Fetch, Until;
    next, reached := ApplyUntil(Fetch(chain, start, end), first, applied);
  }

  /** The loop's state before a range: the ranges left, and the chain applied up to them. */
  ghost predicate UpTo(chain: seq<LogPosition>, left: seq<(U64, U64)>, origin: int, from: int, first: LogPosition,
                       span: int, applied: seq<LogPosition>)
  {
    && origin <= from && Tiled(left, from, first.block, span) && (from <= first.block + 1 || from == origin)
    && applied == Fetch(chain, origin, from - 1) == Until(Fetch(chain, origin, from - 1), first)
  }

  lemma UpToStart(chain: seq<LogPosition>, batches: seq<(U64, U64)>, origin: int, first: LogPosition, span: int)
    requires Tiled(batches, origin, first.block, span)
    ensures UpTo(chain, batches, origin, origin, first, span, [])
  {
    FetchEmpty(chain, origin);
  }

  lemma UpToNext(chain: seq<LogPosition>, left: seq<(U64, U64)>, origin: int, from: int, first: LogPosition,
                 span: int, applied: seq<LogPosition>)
    requires UpTo(chain, left, origin, from, first, span, applied) && left != []
    ensures left[0].0 == from <= left[0].1 <= first.block && origin <= from
    ensures applied == Fetch(chain, origin, from - 1) == Until(Fetch(chain, origin, from - 1), first)
    ensures forall next :: next == Fetch(chain, origin, left[0].1) == Until(Fetch(chain, origin, left[0].1), first)
              ==> UpTo(chain, left[1..], origin, NextBlock(left[0]), first, span, next)
  {
    TiledHead(left, from, first.block, span);
    hide Fetch, Until, Tiled;
  }

  lemma UpToEnd(chain: seq<LogPosition>, origin: int, from: int, first: LogPosition, span: int, applied: seq<LogPosition>)
    requires UpTo(chain, [], origin, from, first, span, applied)
    ensures applied == Until(Fetch(chain, origin, first.block), first)
  {
    if first.block < origin {
      FetchNothing(chain, origin, first.block);
      FetchNothing(chain, origin, from - 1);
    }
  }

  /**
   * The catch-up loop over a chain: `answers` says which fetches fail, and a failed one is tried
   * again. Whatever fails, what is applied is the chain from after the cursor up to the boundary.
   */
  method CatchUpOverRpc(chain: seq<LogPosition>, lastProcessed: U64, maxPerBatch: U64, first: LogPosition, answers: seq<bool>)
    returns (applied: seq<LogPosition>)
    requires InChainOrder(chain) && first.block <= U64_MAX
    ensures applied == Until(Fetch(chain, SaturatingAdd(lastProcessed, 1), first.block), first)
  {
    hide Fetch, Until, Tiled, InChainOrder, UpTo;
    var batches := CatchupBatches(lastProcessed, maxPerBatch, first.block);
    applied := [];
    ghost var origin: int := SaturatingAdd(lastProcessed, 1);
    ghost var span, from := Max(maxPerBatch, 1), origin;
    UpToStart(chain, batches, origin, first, span);
    assert batches[0..] == batches;
    var index, asked := 0, 0;
    while index < |batches|
      invariant index <= |batches| && asked <= |answers|
      invariant UpTo(chain, batches[index..], origin, from, first, span, applied)
      decreases |batches| - index, |answers| - asked
    {
      if asked < |answers| {
        asked := asked + 1;
        if !answers[asked - 1] {
          continue;
        }
      }
      UpToNext(chain, batches[index..], origin, from, first, span, applied);
      assert batches[index..][1..] == batches[index + 1..];
      var reached;
      applied, reached := CatchUpBatch(chain, batches[index].0, batches[index].1, first, applied, origin);
      if reached {
        return;
      }
      from := NextBlock(batches[index]);
      index := index + 1;
    }
    assert batches[index..] == [];
    UpToEnd(chain, origin, from, first, span, applied);
  }

  lemma FetchEmpty(chain: seq<LogPosition>, from: int)
    ensures Fetch(chain, from, from - 1) == []
  {
    FetchNothing(chain, from, from - 1);
  }

  lemma {:induction false} FetchAll(chain: seq<LogPosition>, from: int, to: int)
    requires forall i | 0 <= i < |chain| :: from <= chain[i].block <= to
    ensures Fetch(chain, from, to) == chain
    decreases chain
  {
    if chain != [] {
      FetchAll(chain[1..], from, to);
    }
  }

  lemma {:induction false} FetchMembers(chain: seq<LogPosition>, from: int, to: int, p: LogPosition)
    requires p in Fetch(chain, from, to)
    ensures p in chain && from <= p.block <= to
    decreases chain
  {
    if p !in Fetch(chain[1..], from, to) {
      assert p == chain[0];
    } else {
      FetchMembers(chain[1..], from, to, p);
    }
  }

  lemma {:induction false} HandOverJoins(chain: seq<LogPosition>, cursor: int, first: LogPosition, to: int)
    requires InChainOrder(chain) && cursor < first.block && forall i | 0 <= i < |chain| :: chain[i].block <= to
    ensures Until(Fetch(chain, cursor + 1, first.block), first) + From(chain, first) == Fetch(chain, cursor + 1, to)
    decreases chain
  {
    if chain == [] {
    } else if IsAtOrAfter(chain[0], first) {
      Tail(chain);
      FetchAll(chain, cursor + 1, to);
      var fetched := Fetch(chain, cursor + 1, first.block);
      if fetched != [] {
        FetchMembers(chain, cursor + 1, first.block, fetched[0]);
        var i :| 0 <= i < |chain| && chain[i] == fetched[0];
        ChainOrder(chain[0], fetched[0], first);
        ChainOrder(first, chain[0], fetched[0]);
      }
    } else {
      Tail(chain);
      HandOverJoins(chain[1..], cursor, first, to);
      HandOverStep(chain, cursor, first, to);
    }
  }

  /** A log before the boundary is caught up on exactly when it is after the cursor. */
  lemma HandOverStep(chain: seq<LogPosition>, cursor: int, first: LogPosition, to: int)
    requires chain != [] && !IsAtOrAfter(chain[0], first) && chain[0].block <= first.block && chain[0].block <= to
    requires Until(Fetch(chain[1..], cursor + 1, first.block), first) + From(chain[1..], first)
          == Fetch(chain[1..], cursor + 1, to)
    ensures Until(Fetch(chain, cursor + 1, first.block), first) + From(chain, first) == Fetch(chain, cursor + 1, to)
  {
    FetchHead(chain, cursor + 1, first.block);
    FetchHead(chain, cursor + 1, to);
    UntilHead(chain[0], Fetch(chain[1..], cursor + 1, first.block), first);
    hide Fetch, Until, IsAtOrAfter;
    var rest := Until(Fetch(chain[1..], cursor + 1, first.block), first);
    assert ([chain[0]] + rest) + From(chain, first) == [chain[0]] + (rest + From(chain, first));
  }

  lemma FetchHead(chain: seq<LogPosition>, from: int, to: int)
    requires chain != []
    ensures Fetch(chain, from, to)
         == if from <= chain[0].block <= to then [chain[0]] + Fetch(chain[1..], from, to) else Fetch(chain[1..], from, to)
  {
  }

  lemma UntilHead(x: LogPosition, rest: seq<LogPosition>, boundary: LogPosition)
    requires !IsAtOrAfter(x, boundary)
    ensures Until([x] + rest, boundary) == [x] + Until(rest, boundary)
  {
    assert ([x] + rest)[1..] == rest;
  }

  /** What is left to the queue is the tail of the chain from its first log on. */
  lemma {:induction false} FromIsTail(chain: seq<LogPosition>, boundary: LogPosition)
    requires InChainOrder(chain)
    ensures forall p | p in From(chain, boundary) :: p in chain && IsAtOrAfter(p, boundary)
    ensures forall p | p in chain && IsAtOrAfter(p, boundary) :: p in From(chain, boundary)
    ensures InChainOrder(From(chain, boundary))
    decreases chain
  {
    if chain != [] {
      Tail(chain);
      if IsAtOrAfter(chain[0], boundary) {
        forall p | p in chain ensures IsAtOrAfter(p, boundary) {
          ChainOrder(chain[0], p, boundary);
          ChainOrder(p, boundary, chain[0]);
        }
      } else {
        FromIsTail(chain[1..], boundary);
        assert forall p :: p in chain <==> p == chain[0] || p in chain[1..];
      }
    }
  }

  /** Nothing before the tail is of a block after a cursor the boundary's block does not pass. */
  lemma {:induction false} TailIsAll(chain: seq<LogPosition>, boundary: LogPosition, cursor: int, to: int)
    requires InChainOrder(chain) && boundary.block <= cursor
    requires forall i | 0 <= i < |chain| :: chain[i].block <= to
    requires From(chain, boundary) == [] || cursor < From(chain, boundary)[0].block
    ensures From(chain, boundary) == Fetch(chain, cursor + 1, to)
    decreases chain
  {
    if chain != [] {
      Tail(chain);
      if IsAtOrAfter(chain[0], boundary) {
        FetchAll(chain, cursor + 1, to);
      } else {
        TailIsAll(chain[1..], boundary, cursor, to);
      }
    }
  }

  /**
   * Bootstrap: the catch-up to a boundary, followed by the chain's logs from there on, is every chain
   * log after the cursor, once each and in chain order, exactly when the first log left to the queue
   * is of a block after the cursor. The boundary is the first queued log, or with none queued the
   * start of the latest block.
   */
  lemma HandOver(chain: seq<LogPosition>, cursor: U64, boundary: LogPosition, to: int)
    requires InChainOrder(chain) && boundary.block <= U64_MAX && cursor < U64_MAX
    requires forall i | 0 <= i < |chain| :: chain[i].block <= to
    ensures var caughtUp := Until(Fetch(chain, SaturatingAdd(cursor, 1), boundary.block), boundary);
            var queued := From(chain, boundary);
            var after: int := cursor;
            caughtUp + queued == Fetch(chain, after + 1, to) <==> queued == [] || cursor < queued[0].block
  {
    var caughtUp := Until(Fetch(chain, SaturatingAdd(cursor, 1), boundary.block), boundary);
    var queued := From(chain, boundary);
    var after: int := cursor;
    FromIsTail(chain, boundary);
    assert queued != [] ==> queued[0] in queued;
    if cursor < boundary.block {
      HandOverJoins(chain, cursor, boundary, to);
    } else {
      FetchNothing(chain, after + 1, boundary.block);
      assert caughtUp == [] && caughtUp + queued == queued;
      if queued == [] || cursor < queued[0].block {
        TailIsAll(chain, boundary, cursor, to);
      } else if queued[0] in Fetch(chain, after + 1, to) {
        FetchMembers(chain, after + 1, to, queued[0]);
      }
    }
  }
}

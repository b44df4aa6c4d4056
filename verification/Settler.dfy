// src/collector/block_source.rs: `BlockSettler`, a map from block to logs, with what every run of it
// conserves and the form of the batches it hands out.
module Settler {
  import opened Results
  import opened Arith
  import opened CatchUp
  import Ticks

  datatype Log = Log(id: nat, block: Option<nat>, tx: Option<U64>, index: Option<U64>, removed: bool)

  /** A block's logs, with the arrival time of the latest. */
  datatype Held = Held(logs: seq<Log>, lastArrival: nat)

  datatype State = State(settle: nat, pending: map<nat, Held>, releasedThrough: nat)

  datatype Settled = Settled(block: nat, logs: seq<Log>, late: bool, processedThrough: nat)

  function BlockOf(s: State, log: Log): nat {
    if log.block.Some? then log.block.value else s.releasedThrough
  }

  function AddLog(s: State, log: Log, now: nat): State {
    if log.removed then s
    else
      var block := BlockOf(s, log);
      var held := if block in s.pending then s.pending[block].logs else [];
      s.(pending := s.pending[block := Held(held + [log], now)])
  }

  function AddAll(s: State, logs: seq<Log>, now: nat): State
    decreases logs
  {
    if logs == [] then s else AddAll(AddLog(s, logs[0], now), logs[1..], now)
  }

  // ---- Chain order within a block ----

  function KeyOf(log: Log): (U64, U64) {
    (if log.tx.Some? then log.tx.value else U64_MAX, if log.index.Some? then log.index.value else U64_MAX)
  }

  predicate KeyLe(a: (U64, U64), b: (U64, U64)) {
    a.0 < b.0 || (a.0 == b.0 && a.1 <= b.1)
  }

  function Insert(log: Log, sorted: seq<Log>): seq<Log> {
    if sorted == [] || KeyLe(KeyOf(log), KeyOf(sorted[0])) then [log] + sorted
    else [sorted[0]] + Insert(log, sorted[1..])
  }

  /** The standard library's stable `sort_by_key`. */
  function SortByKey(logs: seq<Log>): seq<Log> {
    if logs == [] then [] else Insert(logs[0], SortByKey(logs[1..]))
  }

  predicate Sorted(logs: seq<Log>) {
    forall i, j :: 0 <= i < j < |logs| ==> KeyLe(KeyOf(logs[i]), KeyOf(logs[j]))
  }

  function WithKey(logs: seq<Log>, key: (U64, U64)): seq<Log> {
    if logs == [] then []
    else (if KeyOf(logs[0]) == key then [logs[0]] else []) + WithKey(logs[1..], key)
  }

  lemma {:induction false} InsertContents(log: Log, sorted: seq<Log>)
    ensures multiset(Insert(log, sorted)) == multiset([log]) + multiset(sorted)
    decreases sorted
  {
    if sorted != [] && !KeyLe(KeyOf(log), KeyOf(sorted[0])) {
      InsertContents(log, sorted[1..]);
      assert sorted == [sorted[0]] + sorted[1..];
    }
  }

  lemma {:induction false} InsertSorted(log: Log, sorted: seq<Log>)
    requires Sorted(sorted)
    ensures Sorted(Insert(log, sorted))
    decreases sorted
  {
    hide KeyOf;
    if sorted != [] && !KeyLe(KeyOf(log), KeyOf(sorted[0])) {
      InsertSorted(log, sorted[1..]);
      InsertContents(log, sorted[1..]);
      var next := Insert(log, sorted[1..]);
      forall k | 0 <= k < |next| ensures KeyLe(KeyOf(sorted[0]), KeyOf(next[k])) {
        assert next[k] in multiset(next);
        assert next[k] == log || next[k] in sorted[1..];
      }
    }
  }

  lemma WithKeyHead(x: Log, rest: seq<Log>, key: (U64, U64))
    ensures WithKey([x] + rest, key) == (if KeyOf(x) == key then [x] else []) + WithKey(rest, key)
  {
    assert ([x] + rest)[1..] == rest;
  }

  lemma {:induction false} InsertStable(log: Log, sorted: seq<Log>, key: (U64, U64))
    ensures WithKey(Insert(log, sorted), key) == WithKey([log] + sorted, key)
    decreases sorted
  {
    hide WithKey, KeyOf;
    if sorted != [] && !KeyLe(KeyOf(log), KeyOf(sorted[0])) {
      var rest := sorted[1..];
      InsertStable(log, rest, key);
      assert sorted == [sorted[0]] + rest;
      WithKeyHead(sorted[0], Insert(log, rest), key);
      WithKeyHead(sorted[0], rest, key);
      WithKeyHead(log, rest, key);
      WithKeyHead(log, sorted, key);
    }
  }

  /** Sorting permutes, orders, and keeps logs of equal position in the order they arrived. */
  lemma {:induction false} SortIsStable(logs: seq<Log>, key: (U64, U64))
    ensures Sorted(SortByKey(logs)) && multiset(SortByKey(logs)) == multiset(logs)
    ensures WithKey(SortByKey(logs), key) == WithKey(logs, key)
    decreases logs
  {
    if logs != [] {
      var rest := SortByKey(logs[1..]);
      SortIsStable(logs[1..], key);
      InsertContents(logs[0], rest);
      InsertSorted(logs[0], rest);
      InsertStable(logs[0], rest, key);
      WithKeyHead(logs[0], rest, key);
      WithKeyHead(logs[0], logs[1..], key);
      assert logs == [logs[0]] + logs[1..];
    }
  }

  // ---- Handing on ----

  /** The first key of the ordered map. */
  function OldestPending(pending: map<nat, Held>): (r: Option<nat>)
    ensures r.None? <==> pending == map[]
    ensures r.Some? ==> r.value in pending && forall b | b in pending :: r.value <= b
  {
    var keys := set k: int | k in pending;
    assert forall k: nat :: k in pending <==> k in keys;
    match Ticks.First(keys)
    case None => None
    case Some(b) => Some(b)
  }

  predicate Complete(s: State, block: nat, now: nat)
    requires block in s.pending
  {
    |s.pending| > 1 || Max(now - s.pending[block].lastArrival, 0) >= s.settle
  }

  /** A poll: nothing, or the least block's batch with the state that no longer holds it. */
  function TakeReady(s: State, now: nat): Option<(Settled, State)> {
    match OldestPending(s.pending)
    case None => None
    case Some(block) =>
      if !Complete(s, block, now) then None
      else
        var through := Max(s.releasedThrough, block);
        Some((Settled(block, SortByKey(s.pending[block].logs), block <= s.releasedThrough, through),
              s.(pending := s.pending - {block}, releasedThrough := through)))
  }

  class BlockSettler {
    var settle: nat
    var pending: map<nat, Held>
    var releasedThrough: nat

    function Value(): State
      reads this
    {
      State(settle, pending, releasedThrough)
    }

    constructor (settle: nat, releasedThrough: nat)
      ensures Value() == State(settle, map[], releasedThrough)
    {
      this.settle, this.pending, this.releasedThrough := settle, map[], releasedThrough;
    }

    method Add(logs: seq<Log>, now: nat)
      modifies this`pending
      ensures Value() == AddAll(old(Value()), logs, now)
    {
      var i := 0;
      while i < |logs|
        invariant i <= |logs|
        invariant AddAll(Value(), logs[i..], now) == AddAll(old(Value()), logs, now)
      {
        assert logs[i..][1..] == logs[i + 1..];
        if !logs[i].removed {
          var block := if logs[i].block.Some? then logs[i].block.value else releasedThrough;
          var held := if block in pending then pending[block].logs else [];
          pending := pending[block := Held(held + [logs[i]], now)];
        }
        i := i + 1;
      }
    }

    method TakeReadyBlock(now: nat) returns (r: Option<Settled>)
      modifies this`pending, this`releasedThrough
      ensures match TakeReady(old(Value()), now)
              case None => r == None && Value() == old(Value())
              case Some(taken) => r == Some(taken.0) && Value() == taken.1
    {
      hide SortByKey;
      var oldest := OldestPending(pending);
      if oldest.None? {
        return None;
      }
      var block := oldest.value;
      if |pending| <= 1 && Max(now - pending[block].lastArrival, 0) < settle {
        return None;
      }
      var logs := SortByKey(pending[block].logs);
      pending := pending - {block};
      var late := block <= releasedThrough;
      releasedThrough := Max(releasedThrough, block);
      return Some(Settled(block, logs, late, releasedThrough));
    }
  }

  // ---- Conservation: every log added is handed on once, or pending ----

  ghost function AllHeld(pending: map<nat, Held>): multiset<Log>
    decreases pending.Keys
  {
    match OldestPending(pending)
    case None => multiset{}
    case Some(b) => multiset(pending[b].logs) + AllHeld(pending - {b})
  }

  lemma HeldOldest(pending: map<nat, Held>)
    requires pending != map[]
    ensures var k := OldestPending(pending).value;
            AllHeld(pending) == multiset(pending[k].logs) + AllHeld(pending - {k})
  {
  }

  lemma {:induction false} HeldRemove(pending: map<nat, Held>, b: nat)
    requires b in pending
    ensures AllHeld(pending) == multiset(pending[b].logs) + AllHeld(pending - {b})
    decreases pending.Keys
  {
    hide AllHeld;
    var k := OldestPending(pending).value;
    HeldOldest(pending);
    if k != b {
      HeldRemove(pending - {k}, b);
      HeldRemove(pending - {b}, k);
      assert pending - {k} - {b} == pending - {b} - {k};
    }
  }

  lemma HeldNothing()
    ensures AllHeld(map[]) == multiset{}
  {
  }

  lemma AddLogHeld(s: State, log: Log, now: nat)
    ensures AllHeld(AddLog(s, log, now).pending)
         == AllHeld(s.pending) + if log.removed then multiset{} else multiset{log}
  {
    hide AllHeld;
    if !log.removed {
      var b := BlockOf(s, log);
      var next := AddLog(s, log, now).pending;
      HeldRemove(next, b);
      HeldNothing();
      assert next - {b} == s.pending - {b};
      if b in s.pending {
        HeldRemove(s.pending, b);
      } else {
        assert s.pending - {b} == s.pending;
      }
    }
  }

  function Kept(logs: seq<Log>): multiset<Log> {
    if logs == [] then multiset{} else (if logs[0].removed then multiset{} else multiset{logs[0]}) + Kept(logs[1..])
  }

  lemma {:induction false} AddAllHeld(s: State, logs: seq<Log>, now: nat)
    ensures AllHeld(AddAll(s, logs, now).pending) == AllHeld(s.pending) + Kept(logs)
    decreases logs
  {
    hide AddLog, AllHeld;
    if logs != [] {
      AddLogHeld(s, logs[0], now);
      AddAllHeld(AddLog(s, logs[0], now), logs[1..], now);
    }
  }

  // ---- Runs ----

  datatype Event = Arrive(logs: seq<Log>, now: nat) | Poll(now: nat)

  function After(s: State, e: Event): (State, seq<Settled>) {
    match e
    case Arrive(logs, now) => (AddAll(s, logs, now), [])
    case Poll(now) =>
      match TakeReady(s, now)
      case None => (s, [])
      case Some(taken) => (taken.1, [taken.0])
  }

  function Run(s: State, events: seq<Event>): (State, seq<Settled>)
    decreases events
  {
    if events == [] then (s, [])
    else
      var (next, first) := After(s, events[0]);
      var (last, rest) := Run(next, events[1..]);
      (last, first + rest)
  }

  function Arrived(events: seq<Event>): multiset<Log> {
    if events == [] then multiset{}
    else (if events[0].Arrive? then Kept(events[0].logs) else multiset{}) + Arrived(events[1..])
  }

  function HandedOn(batches: seq<Settled>): multiset<Log> {
    if batches == [] then multiset{} else multiset(batches[0].logs) + HandedOn(batches[1..])
  }

  lemma {:induction false} HandedOnAdd(first: seq<Settled>, rest: seq<Settled>)
    ensures HandedOn(first + rest) == HandedOn(first) + HandedOn(rest)
    decreases first
  {
    if first == [] {
      assert first + rest == rest;
    } else {
      assert (first + rest)[1..] == first[1..] + rest;
      HandedOnAdd(first[1..], rest);
    }
  }

  lemma StepConserves(s: State, e: Event)
    ensures var (next, out) := After(s, e);
            && |out| <= 1
            && AllHeld(next.pending) + HandedOn(out)
            == AllHeld(s.pending) + if e.Arrive? then Kept(e.logs) else multiset{}
  {
    hide AllHeld, SortByKey, Kept;
    match e
    case Arrive(logs, now) => AddAllHeld(s, logs, now);
    case Poll(now) =>
      var taken := TakeReady(s, now);
      if taken.Some? {
        var b := OldestPending(s.pending).value;
        HeldRemove(s.pending, b);
        SortIsStable(s.pending[b].logs, (0, 0));
        assert HandedOn([taken.value.0]) == multiset(taken.value.0.logs) + HandedOn([taken.value.0][1..]);
      }
  }

  /**
   * However arrivals and polls interleave: the logs that arrived and were not retractions are
   * exactly those handed on and those still pending, each as often as it arrived.
   */
  lemma {:induction false} RunConserves(s: State, events: seq<Event>)
    ensures var (last, batches) := Run(s, events);
            HandedOn(batches) + AllHeld(last.pending) == AllHeld(s.pending) + Arrived(events)
    decreases events
  {
    hide AllHeld, HandedOn, After;
    if events == [] {
      NothingHandedOn();
    } else {
      var (next, first) := After(s, events[0]);
      StepConserves(s, events[0]);
      RunConserves(next, events[1..]);
      var (last, rest) := Run(next, events[1..]);
      HandedOnAdd(first, rest);
      var added := if events[0].Arrive? then Kept(events[0].logs) else multiset{};
      Balance(AllHeld(s.pending), added, AllHeld(next.pending), HandedOn(first), HandedOn(rest), AllHeld(last.pending),
              Arrived(events[1..]));
    }
  }

  lemma Balance(before: multiset<Log>, added: multiset<Log>, middle: multiset<Log>, first: multiset<Log>,
                rest: multiset<Log>, after: multiset<Log>, later: multiset<Log>)
    requires middle + first == before + added && rest + after == middle + later
    ensures (first + rest) + after == before + (added + later)
  {
    forall x ensures ((first + rest) + after)[x] == (before + (added + later))[x] {
      assert (middle + first)[x] == (before + added)[x];
      assert (rest + after)[x] == (middle + later)[x];
    }
  }

  lemma NothingHandedOn()
    ensures HandedOn([]) == multiset{}
  {
  }

  /** Logs wait under their own block; one without a block, under whichever was handed on last. */
  ghost predicate WellFiled(pending: map<nat, Held>) {
    forall b | b in pending :: forall l | l in pending[b].logs :: l.block == Some(b) || l.block.None?
  }

  /** One block per batch, in chain order, with the cursor and the late mark as they should be. */
  ghost predicate GoodBatch(released: nat, batch: Settled) {
    && Sorted(batch.logs)
    && (forall l | l in batch.logs :: l.block == Some(batch.block) || l.block.None?)
    && batch.processedThrough == Max(released, batch.block)
    && (batch.late <==> batch.block <= released)
  }

  ghost predicate GoodBatches(released: nat, batches: seq<Settled>)
    decreases batches
  {
    batches == [] || (GoodBatch(released, batches[0]) && GoodBatches(batches[0].processedThrough, batches[1..]))
  }

  lemma {:induction false} AddAllFiled(s: State, logs: seq<Log>, now: nat)
    requires WellFiled(s.pending)
    ensures WellFiled(AddAll(s, logs, now).pending) && AddAll(s, logs, now).releasedThrough == s.releasedThrough
    decreases logs
  {
    if logs != [] {
      AddAllFiled(AddLog(s, logs[0], now), logs[1..], now);
    }
  }

  lemma StepBatches(s: State, e: Event)
    requires WellFiled(s.pending)
    ensures var (next, out) := After(s, e);
            && WellFiled(next.pending)
            && (if out == [] then next.releasedThrough == s.releasedThrough
                else |out| == 1 && GoodBatch(s.releasedThrough, out[0]) && next.releasedThrough == out[0].processedThrough)
  {
    hide SortByKey, Sorted, AddAll;
    match e
    case Arrive(logs, now) => AddAllFiled(s, logs, now);
    case Poll(now) =>
      var taken := TakeReady(s, now);
      if taken.Some? {
        var held := s.pending[OldestPending(s.pending).value].logs;
        SortIsStable(held, (0, 0));
        forall l | l in taken.value.0.logs ensures l in held {
          assert l in multiset(taken.value.0.logs);
        }
      }
  }

  /** Every batch of every run is one block's logs in chain order, correctly marked. */
  lemma {:induction false} RunBatches(s: State, events: seq<Event>)
    requires WellFiled(s.pending)
    ensures GoodBatches(s.releasedThrough, Run(s, events).1)
    decreases events
  {
    hide WellFiled, GoodBatch, After;
    if events != [] {
      var (next, first) := After(s, events[0]);
      StepBatches(s, events[0]);
      RunBatches(next, events[1..]);
      var rest := Run(next, events[1..]).1;
      if first == [] {
        assert first + rest == rest;
      } else {
        assert (first + rest)[1..] == rest;
      }
    }
  }

  /** The cursor never goes back, and blocks not marked late are handed on in increasing order. */
  lemma {:induction false} BatchesAdvance(released: nat, batches: seq<Settled>, i: nat, j: nat)
    requires GoodBatches(released, batches) && i < j < |batches|
    ensures released <= batches[i].processedThrough <= batches[j].processedThrough
    ensures batches[i].block <= batches[i].processedThrough
    ensures !batches[j].late ==> batches[i].block < batches[j].block
    decreases batches
  {
    var rest := batches[1..];
    if i != 0 {
      BatchesAdvance(batches[0].processedThrough, rest, i - 1, j - 1);
    } else {
      LaterBatch(batches[0].processedThrough, rest, j - 1);
    }
  }

  lemma {:induction false} LaterBatch(released: nat, batches: seq<Settled>, j: nat)
    requires GoodBatches(released, batches) && j < |batches|
    ensures released <= batches[j].processedThrough && (!batches[j].late ==> released < batches[j].block)
    decreases batches
  {
    if j != 0 {
      LaterBatch(batches[0].processedThrough, batches[1..], j - 1);
    }
  }
}

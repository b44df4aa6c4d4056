// The websocket delivery protocol as steps: a feed that loses logs, the queue, and the block source
// (src/collector/websocket_listener.rs, event_queue.rs, block_source.rs).
module Delivery {
  import opened Results
  import opened Positions
  import opened EventQueue
  import opened Feed
  import CatchUp

  /** The chain's logs, and how many the dedup table holds. */
  datatype Config = Config(chain: seq<LogPosition>, maxEvents: nat)

  /** Where the block source is. */
  datatype Stage =
    | Starting      // bootstrap has not drained the queue
    | CatchingUp    // it has, and applies the chain up to the floor over RPC
    | BootFilling   // it fills the gaps among the drained logs
    | Idle          // at the top of `next_batch`
    | Arrived       // the queue is drained, its gaps not yet taken
    | Filling       // the gaps are taken, some perhaps not filled

  /**
   * `inFlight` is announced (its gap noted) but not sent; `taken` holds the logs bootstrap applied
   * from the queue or that entered the settler, in the order they did. What the settler then does with
   * them, when it is polled at HandOn, is in WebsocketSource.
   */
  datatype State = State(
    progress: Progress, inFlight: Option<LogPosition>,
    table: seq<LogPosition>, channel: seq<LogPosition>, gaps: seq<Gap>,
    stage: Stage, toFill: seq<Gap>, floor: LogPosition, drained: seq<LogPosition>, taken: seq<LogPosition>)

  const START := State(NEW_FEED, None, [], [], [], Starting, [], Position(0, 0, 0), [], [])

  datatype Step =
    | Subscribe | Lag | Announce(p: LogPosition) | Send
    | BootDrain(latest: nat) | BootTakeGaps | BootFill | BootDone
    | Drain | TakeGaps | Fill | HandOn

  // ---- The pieces of a step ----

  predicate Precedes(a: Option<LogPosition>, p: LogPosition) {
    a.None? || Before(a.value, p)
  }

  predicate Covers(g: Gap, p: LogPosition) {
    Precedes(g.after, p) && Before(p, g.before)
  }

  /** The least position queued, or the start of the latest block. */
  function FirstQueued(events: seq<LogPosition>, latest: nat): LogPosition {
    if events == [] then Position(latest, 0, 0)
    else if |events| == 1 then events[0]
    else
      var rest := FirstQueued(events[1..], latest);
      if Before(events[0], rest) then events[0] else rest
  }

  function AtOrAfterOnly(logs: seq<LogPosition>, floor: LogPosition): seq<LogPosition> {
    if logs == [] then []
    else (if IsAtOrAfter(logs[0], floor) then [logs[0]] else []) + AtOrAfterOnly(logs[1..], floor)
  }

  function InGapOnly(logs: seq<LogPosition>, g: Gap, floor: LogPosition): seq<LogPosition> {
    if logs == [] then []
    else (if Covers(g, logs[0]) && IsAtOrAfter(logs[0], floor) then [logs[0]] else []) + InGapOnly(logs[1..], g, floor)
  }

  /** `fetch_gap`, before the claims. Its block ranges start after `from - 1`, at zero for block zero. */
  function FetchGap(chain: seq<LogPosition>, g: Gap, floor: LogPosition): seq<LogPosition> {
    if !Before(floor, g.before) || !Precedes(g.after, g.before) then []
    else
      var after := if g.after.Some? then g.after.value.block else floor.block;
      var from := if after < floor.block then floor.block else after;
      InGapOnly(CatchUp.Fetch(chain, if from == 0 then 1 else from, g.before.block), g, floor)
  }

  /** Claims in the dedup table: the logs it had not seen. */
  function ClaimAll(table: seq<LogPosition>, maxEvents: nat, logs: seq<LogPosition>): (seq<LogPosition>, seq<LogPosition>)
    decreases logs
  {
    if logs == [] then ([], table)
    else
      var (isNew, next) := RecordIn(table, maxEvents, logs[0]);
      var (claimed, last) := ClaimAll(next, maxEvents, logs[1..]);
      (if isNew then [logs[0]] + claimed else claimed, last)
  }

  // ---- Steps ----

  /** The feed is ordered, and may skip logs only where it knows it may have. */
  predicate MayForward(c: Config, s: State, p: LogPosition) {
    && s.progress.subscribedBefore && s.inFlight.None? && p in c.chain && Precedes(s.progress.last, p)
    && (s.progress.gapOpen || forall q | q in c.chain :: !(Precedes(s.progress.last, q) && Before(q, p)))
  }

  predicate Enabled(c: Config, s: State, step: Step) {
    match step
    case Subscribe => s.inFlight.None?
    case Lag => s.inFlight.None? && s.progress.subscribedBefore
    case Announce(p) => MayForward(c, s, p)
    case Send => s.inFlight.Some?
    case BootDrain(_) => s.stage.Starting?
    case BootTakeGaps => s.stage.CatchingUp?
    case BootFill => s.stage.BootFilling? && s.toFill != []
    case BootDone => s.stage.BootFilling? && s.toFill == []
    case Drain => s.stage.Idle?
    case TakeGaps => s.stage.Arrived?
    case Fill => s.stage.Filling? && s.toFill != []
    case HandOn => s.stage.Filling? && s.toFill == []
  }

  function AfterAnnounce(s: State, p: LogPosition): State {
    var (progress, gap) := Forwarding(s.progress, Some(p), false);
    s.(progress := progress, inFlight := Some(p), gaps := if gap.Some? then s.gaps + [gap.value] else s.gaps)
  }

  function AfterSend(c: Config, s: State): State
    requires s.inFlight.Some?
  {
    var (isNew, table) := RecordIn(s.table, c.maxEvents, s.inFlight.value);
    s.(inFlight := None, table := table, channel := if isNew then s.channel + [s.inFlight.value] else s.channel)
  }

  function AfterFill(c: Config, s: State): State
    requires s.toFill != []
  {
    var (claimed, table) := ClaimAll(s.table, c.maxEvents, FetchGap(c.chain, s.toFill[0], s.floor));
    s.(table := table, taken := s.taken + claimed, toFill := s.toFill[1..])
  }

  function Next(c: Config, s: State, step: Step): State
    requires Enabled(c, s, step)
  {
    match step
    case Subscribe => s.(progress := Subscribed(s.progress))
    case Lag => s.(progress := Lagged(s.progress))
    case Announce(p) => AfterAnnounce(s, p)
    case Send => AfterSend(c, s)
    case BootDrain(latest) =>
      s.(stage := CatchingUp, floor := FirstQueued(s.channel, latest), drained := s.channel, taken := s.channel, channel := [])
    case BootTakeGaps => s.(stage := BootFilling, toFill := s.gaps, gaps := [])
    case BootFill =>
      if s.toFill[0].before in s.drained then AfterFill(c, s)
      else s.(toFill := s.toFill[1..], gaps := s.gaps + [s.toFill[0]])
    case BootDone => s.(stage := Idle)
    case Drain => s.(stage := Arrived, taken := s.taken + AtOrAfterOnly(s.channel, s.floor), channel := [])
    case TakeGaps => s.(stage := Filling, toFill := s.gaps, gaps := [])
    case Fill => AfterFill(c, s)
    case HandOn => s.(stage := Idle)
  }

  predicate ValidRun(c: Config, s: State, steps: seq<Step>)
    decreases steps
  {
    steps == [] || (Enabled(c, s, steps[0]) && ValidRun(c, Next(c, s, steps[0]), steps[1..]))
  }

  function EndOf(c: Config, s: State, steps: seq<Step>): State
    requires ValidRun(c, s, steps)
    decreases steps
  {
    if steps == [] then s else EndOf(c, Next(c, s, steps[0]), steps[1..])
  }

  // ---- Where each log is ----

  function Once(b: bool): nat {
    if b then 1 else 0
  }

  function CoverCount(gaps: seq<Gap>, p: LogPosition): nat {
    if gaps == [] then 0 else Once(Covers(gaps[0], p)) + CoverCount(gaps[1..], p)
  }

  function Count(logs: seq<LogPosition>, p: LogPosition): nat {
    multiset(logs)[p]
  }

  /** In the queue, taken in, in flight, or in a gap still to be filled: how many times over. */
  function Places(s: State, p: LogPosition): nat {
    Count(s.channel, p) + Count(s.taken, p) + Once(s.inFlight == Some(p)) + CoverCount(s.gaps, p) + CoverCount(s.toFill, p)
  }

  predicate Forwarded(s: State, p: LogPosition) {
    s.progress.last.Some? && !Before(s.progress.last.value, p)
  }

  /** Bootstrap applies everything below the floor over RPC. */
  predicate Due(s: State, p: LogPosition) {
    s.stage.Starting? || IsAtOrAfter(p, s.floor)
  }

  // ---- Counting ----

  lemma CountAdd(a: seq<LogPosition>, b: seq<LogPosition>, p: LogPosition)
    ensures Count(a + b, p) == Count(a, p) + Count(b, p)
  {
    assert multiset(a + b) == multiset(a) + multiset(b);
  }

  lemma CountMember(a: seq<LogPosition>, p: LogPosition)
    ensures p in a <==> Count(a, p) > 0
  {
    assert p in a <==> p in multiset(a);
  }

  lemma CountHead(a: seq<LogPosition>, p: LogPosition)
    requires a != []
    ensures Count(a, p) == Once(a[0] == p) + Count(a[1..], p)
  {
    assert a == [a[0]] + a[1..];
    CountAdd([a[0]], a[1..], p);
  }

  lemma {:induction false} CoverCountAdd(a: seq<Gap>, b: seq<Gap>, p: LogPosition)
    ensures CoverCount(a + b, p) == CoverCount(a, p) + CoverCount(b, p)
    decreases a
  {
    if a == [] {
      assert a + b == b;
    } else {
      assert (a + b)[1..] == a[1..] + b;
      CoverCountAdd(a[1..], b, p);
    }
  }

  /** A covered log is before the end of some gap. */
  lemma {:induction false} CoveredBy(gaps: seq<Gap>, p: LogPosition)
    ensures CoverCount(gaps, p) > 0 <==> exists g :: g in gaps && Covers(g, p)
    decreases gaps
  {
    if gaps != [] {
      CoveredBy(gaps[1..], p);
      assert forall g :: g in gaps <==> g == gaps[0] || g in gaps[1..];
    }
  }

  // ---- What a fetch returns, and what the claims let through ----

  lemma {:induction false} InGapCounts(logs: seq<LogPosition>, g: Gap, floor: LogPosition, p: LogPosition)
    ensures Count(InGapOnly(logs, g, floor), p)
         == if Covers(g, p) && IsAtOrAfter(p, floor) then Count(logs, p) else 0
    decreases logs
  {
    if logs != [] {
      InGapCounts(logs[1..], g, floor, p);
      CountHead(logs, p);
      CountAdd(if Covers(g, logs[0]) && IsAtOrAfter(logs[0], floor) then [logs[0]] else [], InGapOnly(logs[1..], g, floor), p);
    }
  }

  lemma {:induction false} FetchCounts(chain: seq<LogPosition>, from: int, to: int, p: LogPosition)
    ensures Count(CatchUp.Fetch(chain, from, to), p) == if from <= p.block <= to then Count(chain, p) else 0
    decreases chain
  {
    if chain != [] {
      FetchCounts(chain[1..], from, to, p);
      CountHead(chain, p);
      CountAdd(if from <= chain[0].block <= to then [chain[0]] else [], CatchUp.Fetch(chain[1..], from, to), p);
    }
  }

  lemma {:induction false} ChainHasOnce(chain: seq<LogPosition>, p: LogPosition)
    requires InChainOrder(chain)
    ensures Count(chain, p) == Once(p in chain)
    decreases chain
  {
    if chain != [] {
      CatchUp.Tail(chain);
      ChainHasOnce(chain[1..], p);
      CountHead(chain, p);
      ChainOrder(chain[0], chain[0], chain[0]);
    }
  }

  /** A gap fetch returns exactly the chain's logs inside the gap at or after the floor, once each. */
  lemma FetchGapExact(chain: seq<LogPosition>, g: Gap, floor: LogPosition, p: LogPosition)
    requires InChainOrder(chain) && forall q | q in chain :: 0 < q.block
    ensures Count(FetchGap(chain, g, floor), p) == Once(p in chain && Covers(g, p) && IsAtOrAfter(p, floor))
  {
    ChainHasOnce(chain, p);
    if Before(floor, g.before) && Precedes(g.after, g.before) {
      var after := if g.after.Some? then g.after.value.block else floor.block;
      var from := if after < floor.block then floor.block else after;
      var fetched := CatchUp.Fetch(chain, if from == 0 then 1 else from, g.before.block);
      FetchCounts(chain, if from == 0 then 1 else from, g.before.block, p);
      InGapCounts(fetched, g, floor, p);
    }
  }

  lemma {:induction false} ClaimsAllNew(table: seq<LogPosition>, maxEvents: nat, logs: seq<LogPosition>)
    requires forall p :: Count(logs, p) <= 1
    requires forall p | p in logs :: p !in table
    ensures ClaimAll(table, maxEvents, logs).0 == logs
    ensures forall p | p in ClaimAll(table, maxEvents, logs).1 :: p in table || p in logs
    decreases logs
  {
    if logs != [] {
      var next := RecordIn(table, maxEvents, logs[0]).1;
      forall p ensures Count(logs[1..], p) <= 1 && (p in logs[1..] ==> p !in next) {
        CountHead(logs, p);
        CountMember(logs[1..], p);
        assert p in next ==> p in table || p == logs[0];
        assert p in logs[1..] ==> p in logs;
      }
      ClaimsAllNew(next, maxEvents, logs[1..]);
    }
  }

  lemma {:induction false} AtOrAfterCounts(logs: seq<LogPosition>, floor: LogPosition, p: LogPosition)
    ensures Count(AtOrAfterOnly(logs, floor), p) == if IsAtOrAfter(p, floor) then Count(logs, p) else 0
    decreases logs
  {
    if logs != [] {
      AtOrAfterCounts(logs[1..], floor, p);
      CountHead(logs, p);
      CountAdd(if IsAtOrAfter(logs[0], floor) then [logs[0]] else [], AtOrAfterOnly(logs[1..], floor), p);
    }
  }

  lemma {:induction false} FirstQueuedIsLeast(events: seq<LogPosition>, latest: nat)
    requires events != []
    ensures FirstQueued(events, latest) in events && forall p | p in events :: IsAtOrAfter(p, FirstQueued(events, latest))
    decreases events
  {
    if |events| > 1 {
      FirstQueuedIsLeast(events[1..], latest);
      assert forall p | p in events :: p == events[0] || p in events[1..];
    }
  }

  // ---- The invariant ----

  ghost predicate WellFormed(c: Config) {
    InChainOrder(c.chain) && forall p | p in c.chain :: 0 < p.block
  }

  /** The feed's own bookkeeping, and what the table and the gaps refer to. */
  ghost predicate FeedSound(c: Config, s: State) {
    && (s.progress.subscribedBefore && !s.progress.gapOpen ==> s.progress.last.Some?)
    && (s.inFlight.Some? ==> s.progress.last == s.inFlight)
    && (forall g | g in s.gaps || g in s.toFill :: Forwarded(s, g.before))
    && (forall k | k in s.channel :: Forwarded(s, k) && s.inFlight != Some(k))
    && (forall k | k in s.table ::
          Forwarded(s, k) && s.inFlight != Some(k) && CoverCount(s.gaps, k) == 0 && CoverCount(s.toFill, k) == 0)
  }

  ghost predicate InChain(c: Config, s: State) {
    && (s.progress.last.Some? ==> s.progress.last.value in c.chain)
    && (forall p | p in s.channel || p in s.taken || p in s.drained :: p in c.chain)
  }

  /** Every log due and forwarded is in exactly one place, and no other has come in. */
  ghost predicate Placed(c: Config, s: State) {
    forall p | p in c.chain ::
      && (Forwarded(s, p) && Due(s, p) ==> Places(s, p) == 1)
      && (!Forwarded(s, p) ==> Places(s, p) == 0)
      && (!Due(s, p) ==> Count(s.taken, p) == 0)
  }

  ghost predicate StageSound(s: State) {
    && (s.stage.Starting? ==> s.taken == [] && s.drained == [])
    && (!s.stage.BootFilling? && !s.stage.Filling? ==> s.toFill == [])
  }

  ghost predicate Inv(c: Config, s: State) {
    WellFormed(c) && FeedSound(c, s) && InChain(c, s) && Placed(c, s) && StageSound(s)
  }

  lemma CoveredIsForwarded(c: Config, s: State, p: LogPosition)
    requires FeedSound(c, s) && CoverCount(s.gaps, p) + CoverCount(s.toFill, p) > 0
    ensures Forwarded(s, p) && s.progress.last != Some(p)
  {
    CoveredBy(s.gaps, p);
    CoveredBy(s.toFill, p);
    var g :| (g in s.gaps || g in s.toFill) && Covers(g, p);
    ChainOrder(p, g.before, s.progress.last.value);
    ChainOrder(s.progress.last.value, p, g.before);
  }

  lemma AnnounceKeeps(c: Config, s: State, p: LogPosition)
    requires Inv(c, s) && MayForward(c, s, p)
    ensures Inv(c, AfterAnnounce(s, p))
  {
    AnnounceCovers(s, p);
    AnnouncePasses(c, s, p);
    AnnounceFeeds(c, s, p);
    AnnouncePlaces(c, s, p);
    hide FeedSound, Placed, MayForward;
  }

  /** Announcing opens the gap up to the log, if one was open, and no other. */
  lemma AnnounceCovers(s: State, p: LogPosition)
    ensures forall q :: CoverCount(AfterAnnounce(s, p).gaps, q)
                     == CoverCount(s.gaps, q) + Once(s.progress.gapOpen && Covers(Gap(s.progress.last, p), q))
  {
    var gap := Gap(s.progress.last, p);
    forall q
      ensures CoverCount(AfterAnnounce(s, p).gaps, q) == CoverCount(s.gaps, q) + Once(s.progress.gapOpen && Covers(gap, q))
    {
      CoverCountAdd(s.gaps, [gap], q);
      assert CoverCount([gap], q) == Once(Covers(gap, q)) + CoverCount([gap][1..], q);
    }
  }

  /** What was forwarded stays so, and the announced log is next. */
  lemma AnnouncePasses(c: Config, s: State, p: LogPosition)
    requires MayForward(c, s, p)
    ensures AfterAnnounce(s, p).progress == Progress(true, Some(p), false)
    ensures forall q :: Forwarded(s, q) ==> Forwarded(AfterAnnounce(s, p), q) && q != p
  {
    forall q ensures Forwarded(s, q) ==> Forwarded(AfterAnnounce(s, p), q) && q != p {
      if s.progress.last.Some? {
        ChainOrder(q, s.progress.last.value, p);
        ChainOrder(p, q, s.progress.last.value);
      }
    }
  }

  lemma AnnounceFeeds(c: Config, s: State, p: LogPosition)
    requires FeedSound(c, s) && MayForward(c, s, p)
    ensures FeedSound(c, AfterAnnounce(s, p))
  {
    var n := AfterAnnounce(s, p);
    AnnounceCovers(s, p);
    AnnouncePasses(c, s, p);
    ChainOrder(p, p, p);
    hide CoverCount;
    forall k | k in n.table ensures CoverCount(n.gaps, k) == 0 {
      if s.progress.last.Some? {
        ChainOrder(k, s.progress.last.value, p);
      }
    }
  }

  lemma AnnouncePlaces(c: Config, s: State, p: LogPosition)
    requires Placed(c, s) && MayForward(c, s, p) && s.inFlight.None?
    requires s.progress.subscribedBefore && !s.progress.gapOpen ==> s.progress.last.Some?
    ensures Placed(c, AfterAnnounce(s, p))
  {
    var n := AfterAnnounce(s, p);
    AnnounceCovers(s, p);
    AnnouncePasses(c, s, p);
    hide CoverCount;
    forall q | q in c.chain
      ensures Forwarded(n, q) && Due(n, q) ==> Places(n, q) == 1
      ensures !Forwarded(n, q) ==> Places(n, q) == 0
    {
      ChainOrder(q, p, p);
      if s.progress.last.Some? {
        ChainOrder(q, s.progress.last.value, p);
      }
    }
  }

  lemma SendKeeps(c: Config, s: State)
    requires Inv(c, s) && s.inFlight.Some?
    ensures Inv(c, AfterSend(c, s)) && AfterSend(c, s).channel == s.channel + [s.inFlight.value]
  {
    NotYetKnown(c, s);
    SendPlaces(c, s);
    SendFeeds(c, s);
    hide Placed, FeedSound;
  }

  lemma SendPlaces(c: Config, s: State)
    requires Placed(c, s) && s.inFlight.Some? && s.inFlight.value !in s.table
    ensures Placed(c, AfterSend(c, s))
  {
    var p, n := s.inFlight.value, AfterSend(c, s);
    forall q ensures Count(n.channel, q) == Count(s.channel, q) + Once(q == p) {
      CountAdd(s.channel, [p], q);
    }
  }

  lemma SendFeeds(c: Config, s: State)
    requires FeedSound(c, s) && s.inFlight.Some? && s.inFlight.value !in s.table && Forwarded(s, s.inFlight.value)
    requires CoverCount(s.gaps, s.inFlight.value) == 0 && CoverCount(s.toFill, s.inFlight.value) == 0
    ensures FeedSound(c, AfterSend(c, s))
  {
    hide CoverCount;
    assert forall k | k in AfterSend(c, s).table :: k in s.table || k == s.inFlight.value;
  }

  /** A log in flight was never seen before, and lies in no gap. */
  lemma NotYetKnown(c: Config, s: State)
    requires FeedSound(c, s) && s.inFlight.Some?
    ensures var p := s.inFlight.value;
            p !in s.table && CoverCount(s.gaps, p) == 0 && CoverCount(s.toFill, p) == 0 && Forwarded(s, p)
  {
    var p := s.inFlight.value;
    if CoverCount(s.gaps, p) + CoverCount(s.toFill, p) > 0 {
      CoveredIsForwarded(c, s, p);
    }
    ChainOrder(p, p, p);
  }

  /** The bootstrap drain: what was queued is taken, and the floor is at or before all of it. */
  lemma BootDrainKeeps(c: Config, s: State, latest: nat)
    requires Inv(c, s) && s.stage.Starting?
    ensures Inv(c, Next(c, s, BootDrain(latest)))
  {
    var n := Next(c, s, BootDrain(latest));
    if s.channel != [] {
      FirstQueuedIsLeast(s.channel, latest);
    }
    forall p | p in c.chain
      ensures Places(n, p) == Places(s, p) && (!Due(n, p) ==> Count(n.taken, p) == 0)
    {
      CountMember(s.channel, p);
    }
  }

  lemma TakeGapsKeeps(c: Config, s: State, step: Step)
    requires Inv(c, s) && step in {BootTakeGaps, TakeGaps} && Enabled(c, s, step)
    ensures Inv(c, Next(c, s, step))
  {
    var n := Next(c, s, step);
    forall p | p in c.chain ensures Places(n, p) == Places(s, p) {
    }
  }

  lemma DrainKeeps(c: Config, s: State)
    requires Inv(c, s) && s.stage.Idle?
    ensures Inv(c, Next(c, s, Drain))
  {
    var n := Next(c, s, Drain);
    forall p
      ensures Count(n.taken, p) == Count(s.taken, p) + if IsAtOrAfter(p, s.floor) then Count(s.channel, p) else 0
    {
      CountAdd(s.taken, AtOrAfterOnly(s.channel, s.floor), p);
      AtOrAfterCounts(s.channel, s.floor, p);
    }
    forall p | p in n.taken ensures p in c.chain {
      CountMember(n.taken, p);
      CountMember(s.taken, p);
      CountMember(s.channel, p);
    }
  }

  lemma RenoteKeeps(c: Config, s: State)
    requires Inv(c, s) && s.stage.BootFilling? && s.toFill != [] && s.toFill[0].before !in s.drained
    ensures Inv(c, Next(c, s, BootFill))
  {
    var n := Next(c, s, BootFill);
    forall p ensures CoverCount(n.gaps, p) + CoverCount(n.toFill, p) == CoverCount(s.gaps, p) + CoverCount(s.toFill, p) {
      CoverCountAdd(s.gaps, [s.toFill[0]], p);
      assert CoverCount([s.toFill[0]], p) == Once(Covers(s.toFill[0], p)) + CoverCount([s.toFill[0]][1..], p);
    }
  }

  /** A fill claims every log it fetched: none of them has come any other way. */
  lemma FillClaimsAll(c: Config, s: State)
    requires Inv(c, s) && !s.stage.Starting? && s.toFill != []
    ensures var fetched := FetchGap(c.chain, s.toFill[0], s.floor);
            var (claimed, table) := ClaimAll(s.table, c.maxEvents, fetched);
            claimed == fetched && forall k | k in table :: k in s.table || k in fetched
    ensures forall p :: Count(FetchGap(c.chain, s.toFill[0], s.floor), p)
                     == Once(p in c.chain && Covers(s.toFill[0], p) && IsAtOrAfter(p, s.floor))
  {
    var g := s.toFill[0];
    var fetched := FetchGap(c.chain, g, s.floor);
    forall p
      ensures Count(fetched, p) == Once(p in c.chain && Covers(g, p) && IsAtOrAfter(p, s.floor))
      ensures p in fetched ==> p !in s.table
    {
      FetchGapExact(c.chain, g, s.floor, p);
      CountMember(fetched, p);
    }
    ClaimsAllNew(s.table, c.maxEvents, fetched);
  }

  lemma FillKeeps(c: Config, s: State)
    requires Inv(c, s) && (s.stage.BootFilling? || s.stage.Filling?) && s.toFill != []
    ensures Inv(c, AfterFill(c, s))
    ensures AfterFill(c, s).taken == s.taken + FetchGap(c.chain, s.toFill[0], s.floor)
  {
    hide FetchGap, ClaimAll, Covers;
    var n, g := AfterFill(c, s), s.toFill[0];
    var fetched := FetchGap(c.chain, g, s.floor);
    FillClaimsAll(c, s);
    forall p
      ensures Count(n.taken, p) == Count(s.taken, p) + Once(p in c.chain && Covers(g, p) && IsAtOrAfter(p, s.floor))
      ensures p in fetched ==> p in c.chain && Covers(g, p) && IsAtOrAfter(p, s.floor)
      ensures p in n.taken ==> p in c.chain
    {
      CountAdd(s.taken, fetched, p);
      CountMember(fetched, p);
      CountMember(s.taken, p);
    }
    forall k | k in fetched
      ensures Forwarded(n, k) && n.inFlight != Some(k) && CoverCount(n.gaps, k) == 0 && CoverCount(n.toFill, k) == 0
    {
      CoveredIsForwarded(c, s, k);
      assert Places(s, k) == 1;
    }
  }

  /** Every step keeps every log in its one place. */
  lemma StepKeeps(c: Config, s: State, step: Step)
    requires Inv(c, s) && Enabled(c, s, step)
    ensures Inv(c, Next(c, s, step))
  {
    match step
    case Announce(p) => AnnounceKeeps(c, s, p);
    case Send => SendKeeps(c, s);
    case BootDrain(latest) => BootDrainKeeps(c, s, latest);
    case BootTakeGaps => TakeGapsKeeps(c, s, step);
    case TakeGaps => TakeGapsKeeps(c, s, step);
    case Drain => DrainKeeps(c, s);
    case Fill => FillKeeps(c, s);
    case BootFill =>
      if s.toFill[0].before in s.drained {
        FillKeeps(c, s);
      } else {
        RenoteKeeps(c, s);
      }
    case _ =>
      assert forall p :: Places(Next(c, s, step), p) == Places(s, p);
  }

  lemma {:induction false} RunKeeps(c: Config, s: State, steps: seq<Step>)
    requires Inv(c, s) && ValidRun(c, s, steps)
    ensures Inv(c, EndOf(c, s, steps))
    decreases steps
  {
    hide Inv, Enabled, Next;
    if steps != [] {
      StepKeeps(c, s, steps[0]);
      RunKeeps(c, Next(c, s, steps[0]), steps[1..]);
    }
  }

  /**
   * However the feed and the source interleave, and wherever the feed loses logs: a log due is never
   * taken in twice, and every one forwarded is taken in, queued, in flight, or inside exactly one gap
   * that is yet to be filled.
   */
  lemma TakenOnce(c: Config, steps: seq<Step>, p: LogPosition)
    requires WellFormed(c) && ValidRun(c, START, steps) && p in c.chain
    ensures var s := EndOf(c, START, steps);
            && Count(s.taken, p) <= 1
            && (Forwarded(s, p) && Due(s, p) ==> Places(s, p) == 1)
            && (Count(s.taken, p) == 1 ==> Forwarded(s, p) && Due(s, p))
  {
    assert Inv(c, START);
    RunKeeps(c, START, steps);
  }

  /** Once the queue is empty and no gap is open to filling, every log due and forwarded is in, exactly once. */
  lemma AllIn(c: Config, steps: seq<Step>, p: LogPosition)
    requires WellFormed(c) && ValidRun(c, START, steps) && p in c.chain
    requires var s := EndOf(c, START, steps);
             && s.channel == [] && s.inFlight.None? && s.gaps == [] && s.toFill == []
             && Forwarded(s, p) && Due(s, p)
    ensures Count(EndOf(c, START, steps).taken, p) == 1
  {
    TakenOnce(c, steps, p);
  }

  // ---- No log goes on ahead of the gap before it ----

  ghost predicate AllBefore(logs: seq<LogPosition>, p: LogPosition) {
    forall t | t in logs :: Before(t, p)
  }

  /** The ends of the gaps not yet taken lie above everything taken in; before that, above what was drained. */
  ghost predicate EndsAhead(s: State) {
    match s.stage
    case Starting => forall g | g in s.gaps :: g.before in s.channel || s.inFlight == Some(g.before)
    case CatchingUp =>
      s.taken == s.drained && forall g | g in s.gaps :: g.before in s.drained || AllBefore(s.drained, g.before)
    case BootFilling =>
      && (forall g | g in s.toFill :: g.before in s.drained || AllBefore(s.drained, g.before))
      && (forall d | d in s.drained :: d in s.taken)
      && (forall t | t in s.taken :: t in s.drained || exists d :: d in s.drained && Before(t, d))
      && (forall g | g in s.gaps :: AllBefore(s.taken, g.before))
    case Arrived => true
    case _ =>
      && (forall g | g in s.gaps :: AllBefore(s.taken, g.before))
      && (forall f, g | f in s.toFill && g in s.gaps :: Before(f.before, g.before))
  }

  /** Everything taken in or drained was forwarded, and is not in flight. */
  lemma TakenIsForwarded(c: Config, s: State, p: LogPosition)
    requires Inv(c, s) && (p in s.taken || p in s.channel)
    ensures Forwarded(s, p) && s.inFlight != Some(p)
  {
    CountMember(s.taken, p);
    CountMember(s.channel, p);
    assert p in c.chain;
    if p in s.taken {
      assert Places(s, p) >= 1;
      assert Places(s, p) == 1;
    }
  }

  lemma AnnounceEnds(c: Config, s: State, p: LogPosition)
    requires Inv(c, s) && EndsAhead(s) && MayForward(c, s, p)
    ensures EndsAhead(AfterAnnounce(s, p))
  {
    var n := AfterAnnounce(s, p);
    assert forall g | g in n.gaps :: g in s.gaps || g.before == p;
    forall t | t in s.taken ensures Before(t, p) {
      TakenIsForwarded(c, s, t);
      ChainOrder(t, s.progress.last.value, p);
    }
    forall g | g in s.toFill ensures Before(g.before, p) {
      ChainOrder(g.before, s.progress.last.value, p);
    }
  }

  lemma BootDrainEnds(c: Config, s: State, latest: nat)
    requires Inv(c, s) && EndsAhead(s) && s.stage.Starting?
    ensures EndsAhead(Next(c, s, BootDrain(latest)))
  {
    var n := Next(c, s, BootDrain(latest));
    forall g | g in n.gaps && s.inFlight == Some(g.before) ensures AllBefore(n.drained, g.before) {
      forall d | d in s.channel ensures Before(d, g.before) {
        TakenIsForwarded(c, s, d);
        ChainOrder(d, g.before, d);
      }
    }
  }

  lemma FillEnds(c: Config, s: State)
    requires Inv(c, s) && EndsAhead(s) && s.toFill != []
    requires s.stage.Filling? || (s.stage.BootFilling? && s.toFill[0].before in s.drained)
    ensures EndsAhead(AfterFill(c, s))
  {
    hide FetchGap, ClaimAll, Inv;
    var g := s.toFill[0];
    var fetched := FetchGap(c.chain, g, s.floor);
    FillKeeps(c, s);
    FillClaimsAll(c, s);
    forall t | t in fetched ensures Before(t, g.before) {
      CountMember(fetched, t);
    }
    var n := AfterFill(c, s);
    forall h, t | h in n.gaps && t in n.taken ensures Before(t, h.before) {
      if t in fetched {
        ChainOrder(t, g.before, h.before);
      }
    }
  }

  lemma RenoteEnds(c: Config, s: State)
    requires EndsAhead(s) && s.stage.BootFilling? && s.toFill != [] && s.toFill[0].before !in s.drained
    ensures EndsAhead(Next(c, s, BootFill))
  {
    var g := s.toFill[0];
    forall t | t in s.taken ensures Before(t, g.before) {
      if t !in s.drained {
        var d :| d in s.drained && Before(t, d);
        ChainOrder(t, d, g.before);
      }
    }
  }

  lemma StepEnds(c: Config, s: State, step: Step)
    requires Inv(c, s) && EndsAhead(s) && Enabled(c, s, step)
    ensures EndsAhead(Next(c, s, step))
  {
    match step
    case Announce(p) => AnnounceEnds(c, s, p);
    case Send => SendKeeps(c, s);
    case BootDrain(latest) => BootDrainEnds(c, s, latest);
    case Fill => FillEnds(c, s);
    case BootFill =>
      if s.toFill[0].before in s.drained {
        FillEnds(c, s);
      } else {
        RenoteEnds(c, s);
      }
    case _ =>
  }

  lemma {:induction false} RunEnds(c: Config, s: State, steps: seq<Step>)
    requires Inv(c, s) && EndsAhead(s) && ValidRun(c, s, steps)
    ensures EndsAhead(EndOf(c, s, steps)) && Inv(c, EndOf(c, s, steps))
    decreases steps
  {
    hide Inv, Enabled, Next, EndsAhead;
    if steps != [] {
      StepKeeps(c, s, steps[0]);
      StepEnds(c, s, steps[0]);
      RunEnds(c, Next(c, s, steps[0]), steps[1..]);
    }
  }

  /**
   * Whenever the source may hand a block on: the log that ends a gap is not in the settler while the
   * gap's logs are not, and no log below one that is in the settler is missing in a gap; at most it
   * is still queued.
   */
  lemma GapFirst(c: Config, steps: seq<Step>, p: LogPosition, t: LogPosition)
    requires WellFormed(c) && ValidRun(c, START, steps) && Enabled(c, EndOf(c, START, steps), HandOn)
    requires var s := EndOf(c, START, steps); t in s.taken && p in c.chain && Due(s, p) && Before(p, t)
    ensures var s := EndOf(c, START, steps);
            && (p in s.taken || p in s.channel)
            && forall g | g in s.gaps :: g.before !in s.taken && g.before != t && !Covers(g, p)
  {
    assert Inv(c, START);
    RunEnds(c, START, steps);
    var s := EndOf(c, START, steps);
    BelowTaken(c, s, p, t);
    forall g | g in s.gaps ensures g.before !in s.taken {
      ChainOrder(g.before, g.before, g.before);
    }
  }

  lemma BelowTaken(c: Config, s: State, p: LogPosition, t: LogPosition)
    requires Inv(c, s) && EndsAhead(s) && (s.stage.Filling? || s.stage.BootFilling?) && s.toFill == []
    requires t in s.taken && p in c.chain && Due(s, p) && Before(p, t)
    ensures p in s.taken || p in s.channel
    ensures forall g | g in s.gaps :: !Covers(g, p)
  {
    TakenIsForwarded(c, s, t);
    ChainOrder(p, t, s.progress.last.value);
    assert Forwarded(s, p) && s.inFlight != Some(p);
    CountMember(s.taken, p);
    CountMember(s.channel, p);
    CoveredBy(s.gaps, p);
    assert Places(s, p) == 1;
    if g :| g in s.gaps && Covers(g, p) {
      // the gap ends above `t`, so it would cover `t` too, or start above `p`
      ChainOrder(p, t, g.before);
      if g.after.Some? {
        ChainOrder(g.after.value, p, t);
      }
      assert Covers(g, t);
      CountMember(s.taken, t);
      assert CoverCount(s.gaps, t) > 0 by {
        CoveredBy(s.gaps, t);
      }
      TakenDue(c, s, t);
    }
  }

  lemma TakenDue(c: Config, s: State, t: LogPosition)
    requires Inv(c, s) && t in s.taken
    ensures Places(s, t) == 1
  {
    CountMember(s.taken, t);
  }

  // ---- When nothing is missing below a log that is in ----

  /** Every due log of the chain below one that is in is in too. */
  ghost predicate Whole(c: Config, s: State) {
    forall p, t | p in c.chain && t in s.taken :: Due(s, p) && Before(p, t) ==> p in s.taken
  }

  /** When the gaps are taken: no due log sent since the drain lies below a due log inside one of them. */
  ghost predicate Clean(c: Config, s: State) {
    forall k, g, p | k in s.channel && g in s.gaps && p in c.chain ::
      Due(s, k) && Due(s, p) && Covers(g, p) ==> !Before(k, p)
  }

  /** Whatever was sent since the drain lies above all that is in. */
  ghost predicate SentAbove(s: State) {
    s.stage.Arrived? ==> forall k | k in s.channel :: AllBefore(s.taken, k)
  }

  lemma StepSentAbove(c: Config, s: State, step: Step)
    requires Inv(c, s) && SentAbove(s) && Enabled(c, s, step)
    ensures SentAbove(Next(c, s, step))
  {
    if step.Send? && s.stage.Arrived? {
      SendKeeps(c, s);
      AboveTaken(c, s);
    }
  }

  /** A log in flight lies above all that is in. */
  lemma AboveTaken(c: Config, s: State)
    requires Inv(c, s) && s.inFlight.Some?
    ensures AllBefore(s.taken, s.inFlight.value)
  {
    forall t | t in s.taken ensures Before(t, s.inFlight.value) {
      TakenIsForwarded(c, s, t);
      ChainOrder(t, s.inFlight.value, t);
    }
  }

  lemma {:induction false} RunSentAbove(c: Config, s: State, steps: seq<Step>)
    requires Inv(c, s) && EndsAhead(s) && SentAbove(s) && ValidRun(c, s, steps)
    ensures var e := EndOf(c, s, steps); Inv(c, e) && EndsAhead(e) && SentAbove(e)
    decreases steps
  {
    hide Inv, Enabled, Next, EndsAhead, SentAbove;
    if steps != [] {
      StepKeeps(c, s, steps[0]);
      StepEnds(c, s, steps[0]);
      StepSentAbove(c, s, steps[0]);
      RunSentAbove(c, Next(c, s, steps[0]), steps[1..]);
    }
  }

  /** While the gaps are filled: the due logs queued lie above all that is in or still to come from the gaps. */
  ghost predicate QueueAbove(c: Config, s: State) {
    && s.stage.Filling?
    && (forall k | k in s.channel && Due(s, k) :: AllBefore(s.taken, k))
    && (forall k, p | k in s.channel && Due(s, k) && p in c.chain && Due(s, p) && CoverCount(s.toFill, p) > 0 :: !Before(k, p))
  }

  lemma TakeGapsAbove(c: Config, s: State)
    requires Inv(c, s) && SentAbove(s) && s.stage.Arrived? && Clean(c, s)
    ensures QueueAbove(c, Next(c, s, TakeGaps))
  {
    var n := Next(c, s, TakeGaps);
    forall k, p | k in n.channel && Due(n, k) && p in c.chain && Due(n, p) && CoverCount(n.toFill, p) > 0
      ensures !Before(k, p)
    {
      CoveredBy(s.gaps, p);
      var g :| g in s.gaps && Covers(g, p);
    }
  }

  lemma SendAbove(c: Config, s: State)
    requires Inv(c, s) && QueueAbove(c, s) && s.inFlight.Some?
    ensures QueueAbove(c, AfterSend(c, s))
  {
    SendKeeps(c, s);
    AboveTaken(c, s);
    var n := AfterSend(c, s);
    forall k, p | k in n.channel && Due(n, k) && p in c.chain && Due(n, p) && CoverCount(n.toFill, p) > 0
      ensures !Before(k, p)
    {
      if k !in s.channel {
        CoveredIsForwarded(c, s, p);
        ChainOrder(k, p, k);
      }
    }
  }

  lemma FillAbove(c: Config, s: State)
    requires Inv(c, s) && QueueAbove(c, s) && s.toFill != []
    ensures QueueAbove(c, AfterFill(c, s))
  {
    hide FetchGap, ClaimAll, Inv;
    var g := s.toFill[0];
    var fetched := FetchGap(c.chain, g, s.floor);
    FillKeeps(c, s);
    FillClaimsAll(c, s);
    var n := AfterFill(c, s);
    forall k, t | k in n.channel && Due(n, k) && t in fetched ensures Before(t, k) {
      CountMember(fetched, t);
      CountMember(s.channel, k);
      assert CoverCount(s.toFill, t) > 0;
      ChainOrder(k, t, k);
      NotQueuedAndCovered(c, s, k);
    }
  }

  /** A due log in the queue is in no gap still to be filled. */
  lemma NotQueuedAndCovered(c: Config, s: State, k: LogPosition)
    requires Inv(c, s) && k in s.channel && Due(s, k)
    ensures CoverCount(s.gaps, k) == 0 && CoverCount(s.toFill, k) == 0 && k !in s.taken
  {
    CountMember(s.channel, k);
    CountMember(s.taken, k);
    assert Places(s, k) == 1;
  }

  lemma StepAbove(c: Config, s: State, step: Step)
    requires Inv(c, s) && QueueAbove(c, s) && Enabled(c, s, step) && !step.HandOn?
    ensures QueueAbove(c, Next(c, s, step))
  {
    match step
    case Send => SendAbove(c, s);
    case Fill => FillAbove(c, s);
    case _ =>
  }

  lemma {:induction false} FillingAbove(c: Config, s: State, steps: seq<Step>)
    requires Inv(c, s) && EndsAhead(s) && QueueAbove(c, s) && ValidRun(c, s, steps) && HandOn !in steps
    ensures var e := EndOf(c, s, steps); Inv(c, e) && EndsAhead(e) && QueueAbove(c, e)
    decreases steps
  {
    hide Inv, Enabled, Next, EndsAhead, QueueAbove;
    if steps != [] {
      StepKeeps(c, s, steps[0]);
      StepEnds(c, s, steps[0]);
      StepAbove(c, s, steps[0]);
      FillingAbove(c, Next(c, s, steps[0]), steps[1..]);
    }
  }

  /** While the gaps are filled: a queued log stays queued, and one inside a gap comes in. */
  lemma {:induction false} FillingLeaves(c: Config, s: State, steps: seq<Step>, k: LogPosition, p: LogPosition)
    requires Inv(c, s) && s.stage.Filling? && ValidRun(c, s, steps) && HandOn !in steps
    requires k in s.channel && p in c.chain && Due(s, p) && (p in s.taken || CoverCount(s.toFill, p) > 0)
    ensures var e := EndOf(c, s, steps);
            Inv(c, e) && k in e.channel && e.floor == s.floor && e.stage.Filling? && (p in e.taken || CoverCount(e.toFill, p) > 0)
    decreases steps
  {
    hide Inv;
    if steps != [] {
      StepKeeps(c, s, steps[0]);
      StepLeaves(c, s, steps[0], k, p);
      hide Enabled, Next;
      FillingLeaves(c, Next(c, s, steps[0]), steps[1..], k, p);
    }
  }

  lemma StepLeaves(c: Config, s: State, step: Step, k: LogPosition, p: LogPosition)
    requires Inv(c, s) && s.stage.Filling? && Enabled(c, s, step) && !step.HandOn?
    requires k in s.channel && p in c.chain && Due(s, p) && (p in s.taken || CoverCount(s.toFill, p) > 0)
    ensures var n := Next(c, s, step);
            k in n.channel && n.floor == s.floor && n.stage.Filling? && (p in n.taken || CoverCount(n.toFill, p) > 0)
  {
    match step
    case Send => SendKeeps(c, s);
    case Fill =>
      FillKeeps(c, s);
      FetchGapExact(c.chain, s.toFill[0], s.floor, p);
      CountMember(FetchGap(c.chain, s.toFill[0], s.floor), p);
    case _ =>
  }

  /**
   * From the taking of the gaps to the hand-on that follows, whatever the feed does meanwhile: nothing
   * due is missing below a log that is in exactly when no due log sent between the drain and the taking
   * lies below a due log inside a gap taken.
   */
  lemma WholeBlocks(c: Config, steps: seq<Step>, rest: seq<Step>)
    requires WellFormed(c) && ValidRun(c, START, steps) && EndOf(c, START, steps).stage.Arrived?
    requires var taken := Next(c, EndOf(c, START, steps), TakeGaps);
             ValidRun(c, taken, rest) && HandOn !in rest && Enabled(c, EndOf(c, taken, rest), HandOn)
    ensures var s := EndOf(c, START, steps);
            Whole(c, EndOf(c, Next(c, s, TakeGaps), rest)) <==> Clean(c, s)
  {
    assert Inv(c, START);
    hide Inv, EndsAhead, SentAbove, FetchGap, ClaimAll;
    StartAbove();
    RunSentAbove(c, START, steps);
    var s := EndOf(c, START, steps);
    var n := Next(c, s, TakeGaps);
    StepKeeps(c, s, TakeGaps);
    StepEnds(c, s, TakeGaps);
    if Clean(c, s) {
      CleanIsWhole(c, s, rest);
    } else {
      RaceIsNotWhole(c, s, rest);
    }
  }

  lemma StartAbove()
    ensures EndsAhead(START) && SentAbove(START)
  {
  }

  lemma CleanIsWhole(c: Config, s: State, rest: seq<Step>)
    requires Inv(c, s) && s.stage.Arrived? && EndsAhead(Next(c, s, TakeGaps)) && SentAbove(s) && Clean(c, s)
    requires Inv(c, Next(c, s, TakeGaps)) && ValidRun(c, Next(c, s, TakeGaps), rest) && HandOn !in rest
    requires Enabled(c, EndOf(c, Next(c, s, TakeGaps), rest), HandOn)
    ensures Whole(c, EndOf(c, Next(c, s, TakeGaps), rest))
  {
    hide Inv, EndsAhead, Clean, SentAbove;
    TakeGapsAbove(c, s);
    FillingAbove(c, Next(c, s, TakeGaps), rest);
    QueueAboveIsWhole(c, EndOf(c, Next(c, s, TakeGaps), rest));
  }

  lemma QueueAboveIsWhole(c: Config, s: State)
    requires Inv(c, s) && EndsAhead(s) && QueueAbove(c, s) && s.toFill == []
    ensures Whole(c, s)
  {
    hide Inv, EndsAhead;
    forall p, t | p in c.chain && t in s.taken && Due(s, p) && Before(p, t) ensures p in s.taken {
      BelowTaken(c, s, p, t);
      ChainOrder(p, t, p);
    }
  }

  lemma RaceIsNotWhole(c: Config, s: State, rest: seq<Step>)
    requires Inv(c, s) && s.stage.Arrived? && !Clean(c, s)
    requires Inv(c, Next(c, s, TakeGaps)) && ValidRun(c, Next(c, s, TakeGaps), rest) && HandOn !in rest
    requires Enabled(c, EndOf(c, Next(c, s, TakeGaps), rest), HandOn)
    ensures !Whole(c, EndOf(c, Next(c, s, TakeGaps), rest))
  {
    hide Inv, InChain, EndOf, FetchGap, ClaimAll, Clean, Whole;
    ChainOnly(c, s);
    var k, p := QueuedBelow(c, s);
    FillingLeaves(c, Next(c, s, TakeGaps), rest, k, p);
    MissingBelow(c, EndOf(c, Next(c, s, TakeGaps), rest), k, p);
  }

  lemma ChainOnly(c: Config, s: State)
    requires Inv(c, s)
    ensures InChain(c, s)
  {
  }

  lemma QueuedBelow(c: Config, s: State) returns (k: LogPosition, p: LogPosition)
    requires InChain(c, s) && s.stage.Arrived? && !Clean(c, s)
    ensures k in s.channel && k in c.chain && p in c.chain && Due(s, k) && Due(s, p) && Before(k, p)
    ensures CoverCount(Next(c, s, TakeGaps).toFill, p) > 0
  {
    hide Covers, Before, IsAtOrAfter, CoverCount;
    var g;
    k, g, p :| k in s.channel && g in s.gaps && p in c.chain && Due(s, k) && Due(s, p) && Covers(g, p) && Before(k, p);
    CoveredBy(s.gaps, p);
  }

  lemma MissingBelow(c: Config, s: State, k: LogPosition, p: LogPosition)
    requires Inv(c, s) && s.stage.Filling? && s.toFill == []
    requires k in s.channel && k in c.chain && Due(s, k) && Before(k, p) && (p in s.taken || CoverCount(s.toFill, p) > 0)
    ensures !Whole(c, s)
  {
    NotQueuedAndCovered(c, s, k);
  }

  // ---- Without that, a log may still be queued below one that is in the settler ----

  ghost predicate Reachable(c: Config, s: State) {
    exists steps :: ValidRun(c, START, steps) && EndOf(c, START, steps) == s
  }

  lemma {:induction false} Extend(c: Config, s: State, steps: seq<Step>, step: Step)
    requires ValidRun(c, s, steps) && Enabled(c, EndOf(c, s, steps), step)
    ensures ValidRun(c, s, steps + [step]) && EndOf(c, s, steps + [step]) == Next(c, EndOf(c, s, steps), step)
    decreases steps
  {
    hide Enabled, Next;
    if steps == [] {
      assert [step][1..] == [];
    } else {
      assert (steps + [step])[1..] == steps[1..] + [step];
      Extend(c, Next(c, s, steps[0]), steps[1..], step);
    }
  }

  lemma Reach(c: Config, s: State, step: Step) returns (n: State)
    requires Reachable(c, s) && Enabled(c, s, step)
    ensures n == Next(c, s, step) && Reachable(c, n)
  {
    hide Enabled, Next;
    var steps :| ValidRun(c, START, steps) && EndOf(c, START, steps) == s;
    Extend(c, START, steps, step);
    n := Next(c, s, step);
  }

  function At(block: nat): LogPosition {
    Position(block, 0, 0)
  }

  const FOUR_BLOCKS := Config([At(1), At(2), At(3), At(4)], 8)

  /** Bootstrapped on the first log of four, and at the top of the loop. */
  lemma RaceStart() returns (s: State)
    ensures Reachable(FOUR_BLOCKS, s)
    ensures s.progress == Progress(true, Some(At(1)), false) && s.inFlight.None? && s.stage.Idle?
    ensures s.channel == [] && s.gaps == [] && s.toFill == [] && s.floor == At(1) && s.table == [At(1)]
  {
    hide FetchGap, Reachable;
    var c := FOUR_BLOCKS;
    s := START;
    StartReachable(c);
    s := Reach(c, s, Subscribe);
    s := Reach(c, s, Announce(At(1)));
    s := Reach(c, s, Send);
    s := Reach(c, s, BootDrain(0));
    s := Reach(c, s, BootTakeGaps);
    EmptyGap(c.chain);
    s := Reach(c, s, BootFill);
    s := Reach(c, s, BootDone);
  }

  lemma StartReachable(c: Config)
    ensures Reachable(c, START)
  {
    assert ValidRun(c, START, []) && EndOf(c, START, []) == START;
  }

  lemma EmptyGap(chain: seq<LogPosition>)
    ensures FetchGap(chain, Gap(None, At(1)), At(1)) == []
  {
  }

  /** The queue is drained; then a log is sent, and a loss after it announced, before the gaps are taken. */
  lemma RaceMiddle() returns (s: State)
    ensures Reachable(FOUR_BLOCKS, s)
    ensures s.stage.Filling? && s.channel == [At(2)] && s.toFill == [Gap(Some(At(2)), At(4))] && s.floor == At(1)
  {
    hide FetchGap, Reachable, AtOrAfterOnly;
    var c := FOUR_BLOCKS;
    s := RaceStart();
    s := Reach(c, s, Drain);
    SecondIsNext(c, s);
    s := Reach(c, s, Announce(At(2)));
    s := Reach(c, s, Send);
    s := Reach(c, s, Lag);
    s := Reach(c, s, Announce(At(4)));
    s := Reach(c, s, TakeGaps);
  }

  lemma SecondIsNext(c: Config, s: State)
    requires c == FOUR_BLOCKS && s.progress == Progress(true, Some(At(1)), false) && s.inFlight.None?
    ensures MayForward(c, s, At(2))
  {
    assert forall q | q in c.chain :: q == At(1) || q == At(2) || q == At(3) || q == At(4);
  }

  /** Such a run: the third log is in the settler and a block may be handed on, the second still queued. */
  lemma RaceLeavesHole() returns (s: State)
    ensures WellFormed(FOUR_BLOCKS) && Reachable(FOUR_BLOCKS, s) && Enabled(FOUR_BLOCKS, s, HandOn)
    ensures At(2) in FOUR_BLOCKS.chain && Due(s, At(2)) && Before(At(2), At(3))
    ensures At(3) in s.taken && At(2) in s.channel && At(2) !in s.taken
  {
    hide FetchGap, Reachable, ClaimAll, Inv, Places;
    var c := FOUR_BLOCKS;
    s := RaceMiddle();
    FourInOrder();
    ReachableInv(c, s);
    ThirdComesIn(s);
    s := Reach(c, s, Fill);
    ReachableInv(c, s);
    NotQueuedAndCovered(c, s, At(2));
  }

  lemma FourInOrder()
    ensures WellFormed(FOUR_BLOCKS)
  {
  }

  lemma ThirdComesIn(s: State)
    requires Inv(FOUR_BLOCKS, s) && s.stage.Filling? && s.toFill == [Gap(Some(At(2)), At(4))] && s.floor == At(1)
    ensures At(3) in AfterFill(FOUR_BLOCKS, s).taken
  {
    hide FetchGap, ClaimAll, Inv;
    FourInOrder();
    FillKeeps(FOUR_BLOCKS, s);
    FetchGapExact(FOUR_BLOCKS.chain, s.toFill[0], s.floor, At(3));
    assert FOUR_BLOCKS.chain[2] == At(3);
    CountMember(FetchGap(FOUR_BLOCKS.chain, s.toFill[0], s.floor), At(3));
  }

  lemma ReachableInv(c: Config, s: State)
    requires WellFormed(c) && Reachable(c, s)
    ensures Inv(c, s)
  {
    var steps :| ValidRun(c, START, steps) && EndOf(c, START, steps) == s;
    assert Inv(c, START);
    RunKeeps(c, START, steps);
  }
}

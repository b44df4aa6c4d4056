// src/collector/block_source.rs: the order in which the websocket block source applies logs over a run.
module DeliveryOrder {
  import opened Results
  import opened Arith
  import opened Positions
  import opened EventQueue
  import opened Delivery
  import opened WebsocketSource
  import CatchUp
  import S = Settler

  function PositionsOf(logs: seq<S.Log>): seq<LogPosition> {
    seq(|logs|, i requires 0 <= i < |logs| => PositionOf(logs[i]))
  }

  /** What was handed on, log by log. */
  function Delivered(handed: seq<S.Settled>): seq<LogPosition> {
    if handed == [] then [] else PositionsOf(handed[0].logs) + Delivered(handed[1..])
  }

  // ---- Sequences in chain order ----

  ghost predicate AllBelow(a: seq<LogPosition>, b: seq<LogPosition>) {
    forall p, q | p in a && q in b :: Before(p, q)
  }

  lemma JoinInOrder(a: seq<LogPosition>, b: seq<LogPosition>)
    requires InChainOrder(a) && InChainOrder(b) && AllBelow(a, b)
    ensures InChainOrder(a + b)
  {
  }

  lemma {:induction false} PlaceInOrder(p: LogPosition, ordered: seq<LogPosition>)
    requires InChainOrder(ordered) && p !in ordered
    ensures InChainOrder(Place(p, ordered)) && forall q :: q in Place(p, ordered) <==> q == p || q in ordered
    decreases ordered
  {
    if ordered != [] {
      if Before(p, ordered[0]) {
        forall q | q in ordered ensures Before(p, q) {
          ChainOrder(p, ordered[0], q);
        }
        JoinInOrder([p], ordered);
      } else {
        PlaceInOrder(p, ordered[1..]);
        ChainOrder(p, ordered[0], p);
        JoinInOrder([ordered[0]], Place(p, ordered[1..]));
      }
    }
  }

  /** Logs that are each there once sort into chain order. */
  lemma {:induction false} InOrderSorts(ps: seq<LogPosition>)
    requires forall p :: Count(ps, p) <= 1
    ensures InChainOrder(InOrder(ps)) && forall p :: p in InOrder(ps) <==> p in ps
    decreases ps
  {
    if ps != [] {
      forall p ensures Count(ps[1..], p) <= 1 {
        CountHead(ps, p);
      }
      CountHead(ps, ps[0]);
      CountMember(ps[1..], ps[0]);
      InOrderSorts(ps[1..]);
      PlaceInOrder(ps[0], InOrder(ps[1..]));
      assert forall p :: p in ps <==> p == ps[0] || p in ps[1..];
    }
  }

  /** Sorting what is in order changes nothing. */
  lemma {:induction false} InOrderKeeps(ps: seq<LogPosition>)
    requires InChainOrder(ps)
    ensures InOrder(ps) == ps
    decreases ps
  {
    if ps != [] {
      InOrderKeeps(ps[1..]);
    }
  }

  // ---- What was handed on, by position ----

  lemma DeliveredOne(b: S.Settled)
    ensures Delivered([b]) == PositionsOf(b.logs)
  {
    assert [b][1..] == [];
  }

  lemma {:induction false} DeliveredAdd(a: seq<S.Settled>, b: seq<S.Settled>)
    ensures Delivered(a + b) == Delivered(a) + Delivered(b)
    decreases a
  {
    if a == [] {
      assert a + b == b;
    } else {
      assert (a + b)[1..] == a[1..] + b;
      DeliveredAdd(a[1..], b);
    }
  }

  /** A block's logs are counted by their positions. */
  lemma {:induction false} FiledCounts(c: Setup, taken: seq<LogPosition>, logs: seq<S.Log>, block: nat, p: LogPosition)
    requires InRange(c) && (forall q | q in taken :: q in c.feed.chain) && Filed(taken, logs, block) && p in c.feed.chain
    ensures multiset(logs)[LogOf(p)] == Count(PositionsOf(logs), p)
    decreases logs
  {
    if logs != [] {
      FiledCounts(c, taken, logs[1..], block, p);
      assert logs == [logs[0]] + logs[1..];
      assert PositionsOf(logs) == [PositionOf(logs[0])] + PositionsOf(logs[1..]);
      CountHead(PositionsOf(logs), p);
      LogsDiffer(PositionOf(logs[0]), p);
    }
  }

  lemma {:induction false} DeliveredCounts(c: Setup, taken: seq<LogPosition>, handed: seq<S.Settled>, p: LogPosition)
    requires InRange(c) && (forall q | q in taken :: q in c.feed.chain) && BatchesFiled(taken, handed) && p in c.feed.chain
    ensures S.HandedOn(handed)[LogOf(p)] == Count(Delivered(handed), p)
    decreases handed
  {
    if handed != [] {
      hide Filed, LogOf, PositionsOf;
      DeliveredCounts(c, taken, handed[1..], p);
      FiledCounts(c, taken, handed[0].logs, handed[0].block, p);
      CountAdd(PositionsOf(handed[0].logs), Delivered(handed[1..]), p);
    }
  }

  lemma {:induction false} DeliveredInChain(taken: seq<LogPosition>, handed: seq<S.Settled>)
    requires BatchesFiled(taken, handed)
    ensures forall p | p in Delivered(handed) :: p in taken
    decreases handed
  {
    if handed != [] {
      DeliveredInChain(taken, handed[1..]);
    }
  }

  /** All that has been applied from the queue, in the order it was. */
  function AppliedInOrder(s: Source): seq<LogPosition> {
    s.booted + Delivered(s.handed)
  }

  /** A log is among them exactly when it has been applied, and then once. */
  lemma AppliedIs(c: Setup, s: Source, p: LogPosition)
    requires Sound(c, s) && p in c.feed.chain
    ensures Count(AppliedInOrder(s), p) == TimesApplied(s, p) <= 1
    ensures p in AppliedInOrder(s) <==> TimesApplied(s, p) == 1
  {
    CountAdd(s.booted, Delivered(s.handed), p);
    CountMember(AppliedInOrder(s), p);
    TakenAtMostOnce(c, s, p);
    if Booted(s) {
      DeliveredCounts(c, s.feed.taken, s.handed, p);
    } else {
      S.NothingHandedOn();
    }
  }

  lemma TakenAtMostOnce(c: Setup, s: Source, p: LogPosition)
    requires Sound(c, s) && p in c.feed.chain
    ensures TimesApplied(s, p) <= 1 && (Booted(s) ==> TimesApplied(s, p) <= Count(s.feed.taken, p))
  {
    if !Booted(s) {
      S.NothingHandedOn();
    }
    if p in s.feed.taken {
      TakenDue(c.feed, s.feed, p);
    } else {
      CountMember(s.feed.taken, p);
    }
  }

  /** Whatever has been applied is of the chain, and at or after the floor. */
  lemma AppliedIsDue(c: Setup, s: Source, p: LogPosition)
    requires Sound(c, s) && Booted(s) && p in AppliedInOrder(s)
    ensures p in c.feed.chain && Due(s.feed, p) && p in s.feed.taken
  {
    DeliveredInChain(s.feed.taken, s.handed);
    TakenIsDue(c, s, p);
  }

  lemma TakenIsDue(c: Setup, s: Source, p: LogPosition)
    requires Sound(c, s) && p in s.feed.taken
    ensures p in c.feed.chain && Due(s.feed, p)
  {
    CountMember(s.feed.taken, p);
  }

  // ---- A block handed on follows all before it ----

  lemma TwiceCounts(ps: seq<LogPosition>, i: nat, j: nat)
    requires i < j < |ps| && ps[i] == ps[j]
    ensures Count(ps, ps[i]) >= 2
  {
    assert ps == ps[..j] + ps[j..];
    CountAdd(ps[..j], ps[j..], ps[i]);
    assert ps[..j][i] == ps[i] && ps[j..][0] == ps[i];
    CountMember(ps[..j], ps[i]);
    CountMember(ps[j..], ps[i]);
  }

  /** A block's logs, sorted by their keys and each there once, are in chain order. */
  lemma BlockInOrder(c: Setup, taken: seq<LogPosition>, logs: seq<S.Log>, block: nat)
    requires InRange(c) && (forall q | q in taken :: q in c.feed.chain) && Filed(taken, logs, block) && S.Sorted(logs)
    requires forall p | p in c.feed.chain :: Count(PositionsOf(logs), p) <= 1
    ensures InChainOrder(PositionsOf(logs))
  {
    var ps := PositionsOf(logs);
    forall i, j | 0 <= i < j < |ps| ensures Before(ps[i], ps[j]) {
      assert logs[i] in logs && logs[j] in logs;
      KeysOrder(c, ps[i], ps[j], logs[i], logs[j]);
      if ps[i] == ps[j] {
        TwiceCounts(ps, i, j);
      }
    }
  }

  lemma KeysOrder(c: Setup, a: LogPosition, b: LogPosition, l: S.Log, m: S.Log)
    requires InRange(c) && a in c.feed.chain && b in c.feed.chain && l == LogOf(a) && m == LogOf(b)
    requires a.block == b.block && S.KeyLe(S.KeyOf(l), S.KeyOf(m))
    ensures a == b || Before(a, b)
  {
  }

  /** Below what has been applied, nothing due has not. */
  ghost predicate Closed(c: Setup, s: Source) {
    forall p, r | p in c.feed.chain && r in c.feed.chain ::
      Due(s.feed, p) && Before(p, r) && TimesApplied(s, r) == 1 ==> TimesApplied(s, p) == 1
  }

  /** The block a poll takes: its logs in order, each under its block. */
  lemma PolledBlock(taken: seq<LogPosition>, settler: S.State, now: nat) returns (logs: seq<S.Log>, block: nat)
    requires AllFiled(taken, settler.pending)
    ensures Delivered(S.After(settler, S.Poll(now)).1) == PositionsOf(logs)
    ensures S.Sorted(logs) && Filed(taken, logs, block)
    ensures if S.TakeReady(settler, now).Some? then S.OldestPending(settler.pending) == Some(block) else logs == []
  {
    HandOnFiles(taken, settler, now);
    hide S.SortByKey, S.OldestPending;
    logs, block := [], 0;
    if S.TakeReady(settler, now).Some? {
      var batch := S.TakeReady(settler, now).value.0;
      logs, block := batch.logs, batch.block;
      S.SortIsStable(settler.pending[block].logs, (0, 0));
      DeliveredOne(batch);
      assert batch in S.After(settler, S.Poll(now)).1;
    }
  }

  lemma PendingFiled(c: Setup, s: Source)
    requires Sound(c, s) && Booted(s)
    ensures AllFiled(s.feed.taken, s.settler.pending)
  {
  }

  /** What a hand-on appends. */
  lemma HandOnAppends(c: Setup, s: Source, now: nat) returns (logs: seq<S.Log>, block: nat)
    requires Sound(c, s) && Enabled(c.feed, s.feed, HandOn)
    ensures AppliedInOrder(After(c, s, Act(HandOn, now))) == AppliedInOrder(s) + PositionsOf(logs)
    ensures S.Sorted(logs) && Filed(s.feed.taken, logs, block)
    ensures if Released(s, now).Some? then block == Released(s, now).value else logs == []
  {
    hide Sound, S.After, S.TakeReady, S.OldestPending, Delivered, PositionsOf, Filed, S.Sorted;
    PendingFiled(c, s);
    logs, block := PolledBlock(s.feed.taken, s.settler, now);
    var out := S.After(s.settler, S.Poll(now)).1;
    DeliveredAdd(s.handed, out);
    var n := After(c, s, Act(HandOn, now));
    assert n.booted == s.booted && n.handed == s.handed + out;
    assert AppliedInOrder(n) == s.booted + (Delivered(s.handed) + PositionsOf(logs));
  }

  /** A block handed on lies above all applied before it, if nothing below that was missing. */
  lemma ReleaseInOrder(c: Setup, s: Source, now: nat)
    requires Sound(c, s) && Enabled(c.feed, s.feed, HandOn) && Closed(c, s) && InChainOrder(AppliedInOrder(s))
    ensures InChainOrder(AppliedInOrder(After(c, s, Act(HandOn, now))))
  {
    hide Sound, After, AppliedInOrder, Closed, InChainOrder, PositionsOf;
    var n := After(c, s, Act(HandOn, now));
    StepStaysSound(c, s, Act(HandOn, now));
    var logs, block := HandOnAppends(c, s, now);
    NewLogs(c, s, n, AppliedInOrder(s), PositionsOf(logs));
    SoundTaken(c, s);
    BlockInOrder(c, s.feed.taken, logs, block);
    NewAbove(c, s, n, PositionsOf(logs));
    JoinInOrder(AppliedInOrder(s), PositionsOf(logs));
  }

  lemma SoundTaken(c: Setup, s: Source)
    requires Sound(c, s)
    ensures InRange(c) && forall q | q in s.feed.taken :: q in c.feed.chain
  {
  }

  /** What a hand-on appends is there once, and was not applied before. */
  lemma NewLogs(c: Setup, s: Source, n: Source, was: seq<LogPosition>, more: seq<LogPosition>)
    requires Sound(c, s) && Sound(c, n) && was == AppliedInOrder(s) && AppliedInOrder(n) == was + more
    ensures forall p | p in c.feed.chain :: Count(more, p) <= 1
    ensures forall p | p in c.feed.chain && p in more :: p !in was && TimesApplied(s, p) == 0
  {
    forall p | p in c.feed.chain
      ensures Count(more, p) <= 1 && (p in more ==> p !in was && TimesApplied(s, p) == 0)
    {
      AppliedIs(c, s, p);
      AppliedIs(c, n, p);
      hide Sound, AppliedInOrder;
      CountAdd(was, more, p);
      CountMember(was, p);
      CountMember(more, p);
    }
  }

  lemma NewAbove(c: Setup, s: Source, n: Source, more: seq<LogPosition>)
    requires Sound(c, s) && Sound(c, n) && Booted(s) && Booted(n) && n.feed.floor == s.feed.floor && Closed(c, s)
    requires AppliedInOrder(n) == AppliedInOrder(s) + more
    ensures AllBelow(AppliedInOrder(s), more)
  {
    NewLogs(c, s, n, AppliedInOrder(s), more);
    hide AppliedInOrder;
    forall r, q | r in AppliedInOrder(s) && q in more ensures Before(r, q) {
      AppliedIsDue(c, s, r);
      assert q in AppliedInOrder(n);
      AppliedIsDue(c, n, q);
      AppliedIs(c, s, r);
      ChainOrder(r, q, r);
      DueSame(s, n, q);
      hide Sound, Due;
    }
  }

  lemma DueSame(s: Source, n: Source, q: LogPosition)
    requires Booted(s) && Booted(n) && n.feed.floor == s.feed.floor
    ensures Due(n.feed, q) <==> Due(s.feed, q)
  {
  }

  lemma FiledAt(taken: seq<LogPosition>, logs: seq<S.Log>, block: nat, r: LogPosition)
    requires Filed(taken, logs, block) && r in PositionsOf(logs)
    ensures r.block == block && logs != []
  {
  }

  /** A block that completes the chain through it leaves nothing missing below what has been applied. */
  lemma ReleaseCloses(c: Setup, s: Source, now: nat)
    requires Sound(c, s) && Enabled(c.feed, s.feed, HandOn) && Closed(c, s)
    requires Released(s, now).Some? ==> CompleteThrough(c, After(c, s, Act(HandOn, now)), Released(s, now).value)
    ensures Closed(c, After(c, s, Act(HandOn, now)))
  {
    hide Sound, After, AppliedInOrder, Closed, PositionsOf, CompleteThrough, TimesApplied, Released, Filed;
    var n := After(c, s, Act(HandOn, now));
    StepStaysSound(c, s, Act(HandOn, now));
    var logs, block := HandOnAppends(c, s, now);
    forall p, r | p in c.feed.chain && r in c.feed.chain && Due(n.feed, p) && Before(p, r) && TimesApplied(n, r) == 1
      ensures TimesApplied(n, p) == 1
    {
      AppliedIs(c, s, p);
      AppliedIs(c, s, r);
      AppliedIs(c, n, p);
      AppliedIs(c, n, r);
      if r in AppliedInOrder(s) {
        ClosedAt(c, s, p, r);
      } else {
        FiledAt(s.feed.taken, logs, block, r);
        CompleteAt(c, n, block, p);
      }
    }
    ClosedIf(c, n);
  }

  lemma ClosedAt(c: Setup, s: Source, p: LogPosition, r: LogPosition)
    requires Closed(c, s) && p in c.feed.chain && r in c.feed.chain && Due(s.feed, p) && Before(p, r) && TimesApplied(s, r) == 1
    ensures TimesApplied(s, p) == 1
  {
  }

  lemma ClosedIf(c: Setup, s: Source)
    requires forall p, r | p in c.feed.chain && r in c.feed.chain && Due(s.feed, p) && Before(p, r) && TimesApplied(s, r) == 1 ::
               TimesApplied(s, p) == 1
    ensures Closed(c, s)
  {
  }

  lemma CompleteAt(c: Setup, s: Source, block: nat, p: LogPosition)
    requires CompleteThrough(c, s, block) && p in c.feed.chain && Due(s.feed, p) && p.block <= block
    ensures TimesApplied(s, p) == 1
  {
  }

  // ---- Bootstrap ----

  /** While bootstrap fills its gaps: what is queued lies above all that is in. */
  ghost predicate BootAbove(s: State) {
    s.stage.CatchingUp? || s.stage.BootFilling? ==>
      (forall k | k in s.channel :: AllBefore(s.taken, k)) && forall d | d in s.drained :: d in s.taken
  }

  lemma BootFillAbove(c: Config, s: State)
    requires Inv(c, s) && BootAbove(s) && s.stage.BootFilling? && s.toFill != [] && s.toFill[0].before in s.drained
    ensures BootAbove(AfterFill(c, s))
  {
    hide FetchGap, ClaimAll, Inv;
    var g := s.toFill[0];
    var fetched := FetchGap(c.chain, g, s.floor);
    FillKeeps(c, s);
    FillClaimsAll(c, s);
    forall k, t | k in s.channel && t in fetched ensures Before(t, k) {
      CountMember(fetched, t);
      ChainOrder(t, g.before, k);
    }
  }

  lemma StepBootAbove(c: Config, s: State, step: Step)
    requires Inv(c, s) && BootAbove(s) && Enabled(c, s, step)
    ensures BootAbove(Next(c, s, step))
  {
    match step
    case Send =>
      SendKeeps(c, s);
      AboveTaken(c, s);
    case BootFill =>
      if s.toFill[0].before in s.drained {
        BootFillAbove(c, s);
      }
    case _ =>
  }

  /** So nothing due is missing below what bootstrap applies. */
  lemma BootIsWhole(c: Config, s: State)
    requires Inv(c, s) && EndsAhead(s) && BootAbove(s) && s.stage.BootFilling? && s.toFill == []
    ensures Whole(c, s)
  {
    hide Inv, EndsAhead;
    forall p, t | p in c.chain && t in s.taken && Due(s, p) && Before(p, t) ensures p in s.taken {
      BelowTaken(c, s, p, t);
      ChainOrder(p, t, p);
    }
  }

  /** Bootstrap applies each log that is in once, and in order. */
  lemma BootInOrder(c: Setup, s: Source, now: nat)
    requires Sound(c, s) && Enabled(c.feed, s.feed, BootDone)
    ensures InChainOrder(AppliedInOrder(After(c, s, Act(BootDone, now))))
  {
    BootApplies(c, s, now);
    forall p ensures Count(s.feed.taken, p) <= 1 {
      AtMostOnce(c, s, p);
    }
    hide Sound, After;
    InOrderSorts(s.feed.taken);
  }

  lemma BootApplies(c: Setup, s: Source, now: nat)
    requires Sound(c, s) && Enabled(c.feed, s.feed, BootDone)
    ensures var n := After(c, s, Act(BootDone, now));
            && AppliedInOrder(n) == InOrder(s.feed.taken) && n.feed.floor == s.feed.floor
            && forall p :: TimesApplied(n, p) == Count(s.feed.taken, p)
  {
    hide InOrder, LastBlock, LogOf;
    var n := After(c, s, Act(BootDone, now));
    assert n.handed == [];
    S.NothingHandedOn();
    forall p ensures TimesApplied(n, p) == Count(s.feed.taken, p) {
      InOrderCounts(s.feed.taken, p);
    }
  }

  lemma BootCloses(c: Setup, s: Source, now: nat)
    requires Sound(c, s) && Enabled(c.feed, s.feed, BootDone) && Whole(c.feed, s.feed)
    ensures Closed(c, After(c, s, Act(BootDone, now)))
  {
    BootApplies(c, s, now);
    var n := After(c, s, Act(BootDone, now));
    assert forall p :: Due(n.feed, p) <==> Due(s.feed, p);
    hide Sound, After, TimesApplied, Due;
    forall p, r | p in c.feed.chain && r in c.feed.chain && Due(n.feed, p) && Before(p, r) && TimesApplied(n, r) == 1
      ensures TimesApplied(n, p) == 1
    {
      CountMember(s.feed.taken, p);
      CountMember(s.feed.taken, r);
      AtMostOnce(c, s, p);
    }
  }

  lemma AtMostOnce(c: Setup, s: Source, p: LogPosition)
    requires Sound(c, s)
    ensures Count(s.feed.taken, p) <= 1
  {
    CountMember(s.feed.taken, p);
    if p in s.feed.taken {
      TakenDue(c.feed, s.feed, p);
    }
  }

  // ---- Without a gap to fill, bootstrap has nothing to sort ----

  ghost predicate QueueInOrder(s: State) {
    InChainOrder(s.channel) && InChainOrder(s.drained)
  }

  lemma StepQueueInOrder(c: Config, s: State, step: Step)
    requires Inv(c, s) && QueueInOrder(s) && Enabled(c, s, step)
    ensures QueueInOrder(Next(c, s, step))
  {
    if step.Send? {
      SendKeeps(c, s);
      forall k | k in s.channel ensures Before(k, s.inFlight.value) {
        TakenIsForwarded(c, s, k);
        ChainOrder(k, s.inFlight.value, k);
      }
      JoinInOrder(s.channel, [s.inFlight.value]);
    }
  }

  lemma {:induction false} RunQueueInOrder(c: Setup, s: Source, actions: seq<Action>)
    requires Sound(c, s) && QueueInOrder(s.feed) && LegalRun(c, s, actions)
    ensures QueueInOrder(AtEnd(c, s, actions).feed)
    decreases actions
  {
    hide Sound, After, Enabled, QueueInOrder;
    if actions != [] {
      SoundFeed(c, s);
      StepStaysSound(c, s, actions[0]);
      StepQueueInOrder(c.feed, s.feed, actions[0].step);
      RunQueueInOrder(c, After(c, s, actions[0]), actions[1..]);
    }
  }

  /** What bootstrap drains is in chain order as the feed sent it, and sorting leaves it as it is. */
  lemma DrainedInOrder(c: Setup, s: Source)
    requires InRange(c) && Reached(c, s)
    ensures InChainOrder(s.feed.drained) && InOrder(s.feed.drained) == s.feed.drained
  {
    var actions :| LegalRun(c, Fresh(c), actions) && AtEnd(c, Fresh(c), actions) == s;
    hide After;
    FreshIsTidy(c);
    RunQueueInOrder(c, Fresh(c), actions);
    InOrderKeeps(s.feed.drained);
  }

  // ---- Runs ----

  /**
   * No window race and no block split by its timer: when gaps are taken, no due log sent since the drain
   * lies below a due log inside one; and a block that goes on by its timer alone is in, all of it.
   */
  ghost predicate Orderly(c: Setup, s: Source, a: Action) {
    && (a.step.TakeGaps? ==> Clean(c.feed, s.feed))
    && (a.step.HandOn? && |s.settler.pending| == 1 && Released(s, a.now).Some? ==> BlockIn(c, s, Released(s, a.now).value))
  }

  ghost predicate OrderlyRun(c: Setup, s: Source, actions: seq<Action>)
    requires LegalRun(c, s, actions)
    decreases actions
  {
    actions == [] || (Orderly(c, s, actions[0]) && OrderlyRun(c, After(c, s, actions[0]), actions[1..]))
  }

  /** What every state of such a run satisfies. */
  ghost predicate Tidy(c: Setup, s: Source) {
    && Sound(c, s) && SentAbove(s.feed) && BootAbove(s.feed) && (s.feed.stage.Filling? ==> QueueAbove(c.feed, s.feed))
    && Closed(c, s) && InChainOrder(AppliedInOrder(s))
  }

  lemma FeedTidy(c: Setup, s: Source, a: Action)
    requires Tidy(c, s) && Enabled(c.feed, s.feed, a.step) && Orderly(c, s, a)
    ensures var n := Next(c.feed, s.feed, a.step);
            SentAbove(n) && BootAbove(n) && (n.stage.Filling? ==> QueueAbove(c.feed, n))
  {
    hide Inv, Closed, AppliedInOrder, EndsAhead, SettlerSound, NotedSound, HandedBelow, SentAbove, BootAbove, QueueAbove, Clean;
    StepSentAbove(c.feed, s.feed, a.step);
    StepBootAbove(c.feed, s.feed, a.step);
    if a.step.TakeGaps? {
      TakeGapsAbove(c.feed, s.feed);
    } else if s.feed.stage.Filling? && !a.step.HandOn? {
      StepAbove(c.feed, s.feed, a.step);
    }
  }

  lemma HandOnTidy(c: Setup, s: Source, now: nat)
    requires Tidy(c, s) && Enabled(c.feed, s.feed, HandOn) && Orderly(c, s, Act(HandOn, now))
    ensures var n := After(c, s, Act(HandOn, now)); Closed(c, n) && InChainOrder(AppliedInOrder(n))
  {
    hide Closed, AppliedInOrder, After, Whole, BlockIn, CompleteThrough, InChainOrder;
    SoundFeed(c, s);
    QueueAboveIsWhole(c.feed, s.feed);
    hide Sound, QueueAbove, BootAbove, SentAbove;
    if Released(s, now).Some? {
      PendingSome(s, now);
      ReleaseCompletes(c, s, now);
    }
    ReleaseInOrder(c, s, now);
    ReleaseCloses(c, s, now);
  }

  lemma SoundFeed(c: Setup, s: Source)
    requires Sound(c, s)
    ensures Inv(c.feed, s.feed) && EndsAhead(s.feed)
  {
  }

  lemma PendingSome(s: Source, now: nat)
    requires Released(s, now).Some?
    ensures |s.settler.pending| >= 1
  {
    assert s.settler.pending != map[];
  }

  /** Any other step applies nothing. */
  lemma OtherTidy(c: Setup, s: Source, a: Action)
    requires Sound(c, s) && Enabled(c.feed, s.feed, a.step) && !a.step.HandOn? && !a.step.BootDone?
    requires Closed(c, s) && InChainOrder(AppliedInOrder(s))
    ensures var n := After(c, s, a); Closed(c, n) && InChainOrder(AppliedInOrder(n))
  {
    var n := After(c, s, a);
    NothingApplied(c, s, a);
    hide After, Sound, InChainOrder, AppliedInOrder;
    if Booted(s) {
      assert forall p :: Due(n.feed, p) <==> Due(s.feed, p);
    }
  }

  lemma NothingApplied(c: Setup, s: Source, a: Action)
    requires Sound(c, s) && Enabled(c.feed, s.feed, a.step) && !a.step.HandOn? && !a.step.BootDone?
    ensures var n := After(c, s, a);
            && n.booted == s.booted && n.handed == s.handed && Booted(n) == Booted(s)
            && (Booted(s) ==> n.feed.floor == s.feed.floor) && (!Booted(s) ==> forall p :: TimesApplied(n, p) == 0)
  {
    hide S.AddAll, AtOrAfterOnly, ClaimAll, FetchGap;
    S.NothingHandedOn();
  }

  lemma StepTidy(c: Setup, s: Source, a: Action)
    requires Tidy(c, s) && Enabled(c.feed, s.feed, a.step) && Orderly(c, s, a)
    ensures Tidy(c, After(c, s, a))
  {
    hide Closed, AppliedInOrder, After, Orderly, Sound, SentAbove, BootAbove, QueueAbove, InChainOrder;
    StepStaysSound(c, s, a);
    FeedTidy(c, s, a);
    if a.step.HandOn? {
      HandOnTidy(c, s, a.now);
      assert a == Act(HandOn, a.now);
    } else if a.step.BootDone? {
      SoundFeed(c, s);
      BootIsWhole(c.feed, s.feed);
      BootInOrder(c, s, a.now);
      BootCloses(c, s, a.now);
      assert a == Act(BootDone, a.now);
    } else {
      OtherTidy(c, s, a);
    }
  }

  lemma {:induction false} RunTidy(c: Setup, s: Source, actions: seq<Action>)
    requires Tidy(c, s) && LegalRun(c, s, actions) && OrderlyRun(c, s, actions)
    ensures Tidy(c, AtEnd(c, s, actions))
    decreases actions
  {
    hide Tidy, After, Enabled, Orderly;
    if actions != [] {
      StepTidy(c, s, actions[0]);
      RunTidy(c, After(c, s, actions[0]), actions[1..]);
    }
  }

  lemma FreshIsTidy(c: Setup)
    requires InRange(c)
    ensures Tidy(c, Fresh(c))
  {
    StartAbove();
    FreshIsSound(c);
    S.NothingHandedOn();
  }

  // ---- The catch-up before it ----

  lemma {:induction false} FetchInOrder(chain: seq<LogPosition>, from: int, to: int)
    requires InChainOrder(chain)
    ensures InChainOrder(CatchUp.Fetch(chain, from, to))
    decreases chain
  {
    if chain != [] {
      CatchUp.Tail(chain);
      FetchInOrder(chain[1..], from, to);
      var rest := CatchUp.Fetch(chain[1..], from, to);
      forall q | q in rest ensures Before(chain[0], q) {
        CatchUp.FetchMembers(chain[1..], from, to, q);
      }
      JoinInOrder([chain[0]], rest);
    }
  }

  lemma {:induction false} UntilInOrder(logs: seq<LogPosition>, boundary: LogPosition)
    requires InChainOrder(logs)
    ensures InChainOrder(CatchUp.Until(logs, boundary)) && forall q | q in CatchUp.Until(logs, boundary) :: q in logs
    decreases logs
  {
    if logs != [] && !IsAtOrAfter(logs[0], boundary) {
      UntilInOrder(logs[1..], boundary);
      var rest := CatchUp.Until(logs[1..], boundary);
      assert AllBelow([logs[0]], rest);
      JoinInOrder([logs[0]], rest);
    }
  }

  /** The catch-up applies the chain in order, all of it below the floor. */
  lemma CaughtUpInOrder(c: Setup, s: Source)
    requires WellFormed(c.feed)
    ensures InChainOrder(CaughtUp(c, s)) && forall q | q in CaughtUp(c, s) :: Before(q, s.feed.floor)
  {
    var from := CatchUp.SaturatingAdd(c.cursor, 1);
    var fetched := CatchUp.Fetch(c.feed.chain, from, s.feed.floor.block);
    FetchInOrder(c.feed.chain, from, s.feed.floor.block);
    UntilInOrder(fetched, s.feed.floor);
    forall q | q in CaughtUp(c, s) ensures Before(q, s.feed.floor) {
      CaughtUpCounts(c.feed.chain, from, s.feed.floor, q);
      CountMember(CaughtUp(c, s), q);
    }
  }

  /**
   * In a run with no window race and no block split by its timer, everything is applied in chain order:
   * the catch-up over RPC, then what bootstrap took from the queue and its gaps, then the blocks
   * handed on, log by log.
   */
  lemma AppliesInChainOrder(c: Setup, actions: seq<Action>)
    requires InRange(c) && LegalRun(c, Fresh(c), actions) && OrderlyRun(c, Fresh(c), actions)
    requires Booted(AtEnd(c, Fresh(c), actions))
    ensures var s := AtEnd(c, Fresh(c), actions); InChainOrder(CaughtUp(c, s) + s.booted + Delivered(s.handed))
  {
    hide After, Sound, SentAbove, BootAbove, QueueAbove, Closed;
    FreshIsTidy(c);
    RunTidy(c, Fresh(c), actions);
    var s := AtEnd(c, Fresh(c), actions);
    CaughtUpInOrder(c, s);
    forall p, q | p in CaughtUp(c, s) && q in AppliedInOrder(s) ensures Before(p, q) {
      AppliedIsDue(c, s, q);
      ChainOrder(q, s.feed.floor, p);
      ChainOrder(p, s.feed.floor, q);
    }
    JoinInOrder(CaughtUp(c, s), AppliedInOrder(s));
    assert CaughtUp(c, s) + s.booted + Delivered(s.handed) == CaughtUp(c, s) + AppliedInOrder(s);
  }
}

// src/collector/block_source.rs: the websocket block source as a whole, the delivery protocol with the
// settler that hands its logs on block by block.
module WebsocketSource {
  import opened Results
  import opened Arith
  import opened Positions
  import opened EventQueue
  import opened D = Delivery
  import CatchUp
  import Feed
  import S = Settler

  /** The feed and the chain, the settle time, and the last block applied before bootstrap. */
  datatype Setup = Setup(feed: Config, settle: nat, cursor: CatchUp.U64)

  /**
   * `booted` is what bootstrap applied from the queue and the gaps among it, in order, `handed` the blocks handed
   * on since, and `noted` every gap the feed has noted.
   */
  datatype Source = Source(
    feed: State, settler: S.State, handed: seq<S.Settled>, booted: seq<LogPosition>, noted: seq<Gap>)

  /** A step of the protocol, and the time at which it is taken. */
  datatype Action = Act(step: Step, now: nat)

  function Fresh(c: Setup): Source {
    Source(START, S.State(c.settle, map[], 0), [], [], [])
  }

  function LogOf(p: LogPosition): S.Log {
    S.Log(0, Some(p.block), Some(Min(p.tx, CatchUp.U64_MAX)), Some(Min(p.log, CatchUp.U64_MAX)), false)
  }

  function PositionOf(log: S.Log): LogPosition {
    Position(log.block.UnwrapOr(0), log.tx.UnwrapOr(0), log.index.UnwrapOr(0))
  }

  function LogsOf(ps: seq<LogPosition>): seq<S.Log> {
    if ps == [] then [] else [LogOf(ps[0])] + LogsOf(ps[1..])
  }

  function Place(p: LogPosition, ordered: seq<LogPosition>): seq<LogPosition> {
    if ordered == [] || Before(p, ordered[0]) then [p] + ordered else [ordered[0]] + Place(p, ordered[1..])
  }

  /**
   * Sorted by position, as bootstrap does once it has filled a gap. Without one the queue is in order
   * already, and sorting changes nothing (`DeliveryOrder.DrainedInOrder`).
   */
  function InOrder(ps: seq<LogPosition>): seq<LogPosition> {
    if ps == [] then [] else Place(ps[0], InOrder(ps[1..]))
  }

  lemma {:induction false} PlaceCounts(p: LogPosition, ordered: seq<LogPosition>, q: LogPosition)
    ensures Count(Place(p, ordered), q) == Once(p == q) + Count(ordered, q)
    decreases ordered
  {
    if ordered == [] || Before(p, ordered[0]) {
      CountHead([p] + ordered, q);
      assert ([p] + ordered)[1..] == ordered;
    } else {
      PlaceCounts(p, ordered[1..], q);
      CountHead(ordered, q);
      CountHead(Place(p, ordered), q);
    }
  }

  lemma {:induction false} InOrderCounts(ps: seq<LogPosition>, q: LogPosition)
    ensures Count(InOrder(ps), q) == Count(ps, q)
    decreases ps
  {
    if ps != [] {
      InOrderCounts(ps[1..], q);
      PlaceCounts(ps[0], InOrder(ps[1..]), q);
      CountHead(ps, q);
    }
  }

  /** The greatest block among the logs, or the one given if there are none. */
  function LastBlock(ps: seq<LogPosition>, none: nat): nat {
    if ps == [] then none
    else if |ps| == 1 then ps[0].block
    else Max(ps[0].block, LastBlock(ps[1..], none))
  }

  /** What a step gives the settler. */
  function Arrivals(c: Setup, s: Source, step: Step): seq<LogPosition>
    requires Enabled(c.feed, s.feed, step)
  {
    match step
    case Drain => AtOrAfterOnly(s.feed.channel, s.feed.floor)
    case Fill => ClaimAll(s.feed.table, c.feed.maxEvents, FetchGap(c.feed.chain, s.feed.toFill[0], s.feed.floor)).0
    case _ => []
  }

  function After(c: Setup, s: Source, a: Action): Source
    requires Enabled(c.feed, s.feed, a.step)
  {
    var feed := Next(c.feed, s.feed, a.step);
    match a.step
    case Announce(p) =>
      var gap := Feed.Forwarding(s.feed.progress, Some(p), false).1;
      s.(feed := feed, noted := if gap.Some? then s.noted + [gap.value] else s.noted)
    case BootDone =>
      s.(feed := feed, booted := InOrder(s.feed.taken),
         settler := S.State(c.settle, map[], LastBlock(s.feed.taken, s.feed.floor.block)))
    case Drain => s.(feed := feed, settler := S.AddAll(s.settler, LogsOf(Arrivals(c, s, a.step)), a.now))
    case Fill => s.(feed := feed, settler := S.AddAll(s.settler, LogsOf(Arrivals(c, s, a.step)), a.now))
    case HandOn =>
      var (settler, out) := S.After(s.settler, S.Poll(a.now));
      s.(feed := feed, settler := settler, handed := s.handed + out)
    case _ => s.(feed := feed)
  }

  predicate LegalRun(c: Setup, s: Source, actions: seq<Action>)
    decreases actions
  {
    actions == [] || (Enabled(c.feed, s.feed, actions[0].step) && LegalRun(c, After(c, s, actions[0]), actions[1..]))
  }

  function AtEnd(c: Setup, s: Source, actions: seq<Action>): Source
    requires LegalRun(c, s, actions)
    decreases actions
  {
    if actions == [] then s else AtEnd(c, After(c, s, actions[0]), actions[1..])
  }

  /** A state some run from a new source ends in. */
  ghost predicate Reached(c: Setup, s: Source) {
    exists actions :: LegalRun(c, Fresh(c), actions) && AtEnd(c, Fresh(c), actions) == s
  }

  // ---- Where the settler's logs come from ----

  ghost predicate InRange(c: Setup) {
    && WellFormed(c.feed)
    && forall p | p in c.feed.chain :: p.block <= CatchUp.U64_MAX && p.tx <= CatchUp.U64_MAX && p.log <= CatchUp.U64_MAX
  }

  predicate Booted(s: Source) {
    s.feed.stage.Idle? || s.feed.stage.Arrived? || s.feed.stage.Filling?
  }

  /** The logs are of this block, and came in. */
  ghost predicate Filed(taken: seq<LogPosition>, logs: seq<S.Log>, block: nat) {
    forall l | l in logs :: PositionOf(l) in taken && l == LogOf(PositionOf(l)) && PositionOf(l).block == block
  }

  ghost predicate AllFiled(taken: seq<LogPosition>, pending: map<nat, S.Held>) {
    forall b | b in pending :: pending[b].logs != [] && Filed(taken, pending[b].logs, b)
  }

  ghost predicate BatchesFiled(taken: seq<LogPosition>, handed: seq<S.Settled>) {
    forall batch | batch in handed :: batch.logs != [] && Filed(taken, batch.logs, batch.block)
  }

  /** How often a log has been applied: at bootstrap, and from a block handed on. */
  ghost function TimesApplied(s: Source, p: LogPosition): nat {
    Count(s.booted, p) + S.HandedOn(s.handed)[LogOf(p)]
  }

  /** Every log that came in was applied, or is pending. */
  ghost predicate Accounted(c: Setup, s: Source) {
    forall p | p in c.feed.chain ::
      Count(s.feed.taken, p) == TimesApplied(s, p) + S.AllHeld(s.settler.pending)[LogOf(p)]
  }

  ghost predicate SettlerSound(c: Setup, s: Source) {
    if Booted(s) then
      && AllFiled(s.feed.taken, s.settler.pending) && BatchesFiled(s.feed.taken, s.handed)
      && (forall p | p in s.booted :: p in s.feed.taken) && Accounted(c, s)
    else
      s.settler.pending == map[] && s.handed == [] && s.booted == []
  }

  lemma LogsDiffer(p: LogPosition, q: LogPosition)
    requires p.tx <= CatchUp.U64_MAX && p.log <= CatchUp.U64_MAX
    requires q.tx <= CatchUp.U64_MAX && q.log <= CatchUp.U64_MAX
    ensures LogOf(p) == LogOf(q) <==> p == q
    ensures PositionOf(LogOf(p)) == p
  {
  }

  lemma {:induction false} KeptCounts(c: Setup, ps: seq<LogPosition>, p: LogPosition)
    requires InRange(c) && p in c.feed.chain && forall q | q in ps :: q in c.feed.chain
    ensures S.Kept(LogsOf(ps))[LogOf(p)] == Count(ps, p)
    decreases ps
  {
    if ps != [] {
      KeptCounts(c, ps[1..], p);
      CountHead(ps, p);
      LogsDiffer(ps[0], p);
      assert LogsOf(ps)[1..] == LogsOf(ps[1..]);
    }
  }

  lemma {:induction false} AddAllFiles(c: Setup, taken: seq<LogPosition>, settler: S.State, ps: seq<LogPosition>, now: nat)
    requires InRange(c) && AllFiled(taken, settler.pending)
    requires forall q | q in ps :: q in c.feed.chain && q in taken
    ensures AllFiled(taken, S.AddAll(settler, LogsOf(ps), now).pending)
    decreases ps
  {
    if ps != [] {
      AddFiles(c, taken, settler, ps[0], now);
      assert LogsOf(ps)[1..] == LogsOf(ps[1..]);
      hide AllFiled;
      AddAllFiles(c, taken, S.AddLog(settler, LogOf(ps[0]), now), ps[1..], now);
    }
  }

  lemma AddFiles(c: Setup, taken: seq<LogPosition>, settler: S.State, p: LogPosition, now: nat)
    requires InRange(c) && AllFiled(taken, settler.pending) && p in c.feed.chain && p in taken
    ensures AllFiled(taken, S.AddLog(settler, LogOf(p), now).pending)
  {
    LogsDiffer(p, p);
  }

  lemma MoreTaken(taken: seq<LogPosition>, more: seq<LogPosition>, s: Source)
    requires AllFiled(taken, s.settler.pending) && BatchesFiled(taken, s.handed)
    ensures AllFiled(taken + more, s.settler.pending) && BatchesFiled(taken + more, s.handed)
  {
  }

  /** What a step gives the settler is what it takes in, and all of it is of the chain. */
  lemma ArrivalsTaken(c: Setup, s: Source, step: Step)
    requires Inv(c.feed, s.feed) && Enabled(c.feed, s.feed, step) && Booted(s)
    ensures Next(c.feed, s.feed, step).taken == s.feed.taken + Arrivals(c, s, step)
    ensures forall q | q in Arrivals(c, s, step) :: q in c.feed.chain
  {
    StepKeeps(c.feed, s.feed, step);
    hide AtOrAfterOnly, ClaimAll, FetchGap;
    assert forall q | q in Arrivals(c, s, step) :: q in s.feed.taken + Arrivals(c, s, step);
  }

  lemma ArriveSound(c: Setup, s: Source, a: Action)
    requires InRange(c) && Inv(c.feed, s.feed) && SettlerSound(c, s) && Booted(s)
    requires (a.step.Drain? || a.step.Fill?) && Enabled(c.feed, s.feed, a.step)
    ensures SettlerSound(c, After(c, s, a))
  {
    var ps := Arrivals(c, s, a.step);
    ArrivalsTaken(c, s, a.step);
    ArriveAccounts(c, s, a);
    hide Arrivals, Inv, AllFiled, BatchesFiled, InRange, Accounted, AtOrAfterOnly, ClaimAll, FetchGap, S.AddAll;
    MoreTaken(s.feed.taken, ps, s);
    AddAllFiles(c, s.feed.taken + ps, s.settler, ps, a.now);
  }

  lemma ArriveAccounts(c: Setup, s: Source, a: Action)
    requires InRange(c) && Inv(c.feed, s.feed) && Accounted(c, s) && Booted(s)
    requires (a.step.Drain? || a.step.Fill?) && Enabled(c.feed, s.feed, a.step)
    ensures Accounted(c, After(c, s, a))
  {
    var ps, n := Arrivals(c, s, a.step), After(c, s, a);
    ArrivalsTaken(c, s, a.step);
    hide Arrivals, Inv, InRange, AtOrAfterOnly, ClaimAll, FetchGap, S.AddAll, S.AllHeld, S.HandedOn, LogOf;
    S.AddAllHeld(s.settler, LogsOf(ps), a.now);
    hide LogsOf;
    forall p | p in c.feed.chain
      ensures Count(n.feed.taken, p) == TimesApplied(n, p) + S.AllHeld(n.settler.pending)[LogOf(p)]
    {
      CountAdd(s.feed.taken, ps, p);
      KeptCounts(c, ps, p);
    }
  }

  /** A block handed on holds what was pending for it. */
  lemma HandOnSound(c: Setup, s: Source, a: Action)
    requires SettlerSound(c, s) && a.step.HandOn? && Enabled(c.feed, s.feed, a.step)
    ensures SettlerSound(c, After(c, s, a))
  {
    HandOnAccounts(c, s, a);
    HandOnFiles(s.feed.taken, s.settler, a.now);
    hide Accounted, AllFiled, Filed, S.After;
    assert After(c, s, a).feed.taken == s.feed.taken && Booted(After(c, s, a));
  }

  lemma HandOnAccounts(c: Setup, s: Source, a: Action)
    requires Accounted(c, s) && a.step.HandOn? && Enabled(c.feed, s.feed, a.step)
    ensures Accounted(c, After(c, s, a))
  {
    hide S.After, S.AllHeld, S.HandedOn, LogOf;
    var n, out := After(c, s, a), S.After(s.settler, S.Poll(a.now)).1;
    S.StepConserves(s.settler, S.Poll(a.now));
    S.HandedOnAdd(s.handed, out);
    forall p | p in c.feed.chain
      ensures Count(n.feed.taken, p) == TimesApplied(n, p) + S.AllHeld(n.settler.pending)[LogOf(p)]
    {
      assert (S.AllHeld(n.settler.pending) + S.HandedOn(out))[LogOf(p)] == S.AllHeld(s.settler.pending)[LogOf(p)];
    }
  }

  lemma HandOnFiles(taken: seq<LogPosition>, settler: S.State, now: nat)
    requires AllFiled(taken, settler.pending)
    ensures var (next, out) := S.After(settler, S.Poll(now)); AllFiled(taken, next.pending) && BatchesFiled(taken, out)
  {
    hide S.SortByKey;
    if S.TakeReady(settler, now).Some? {
      var b := S.OldestPending(settler.pending).value;
      SortedMembers(settler.pending[b].logs);
    }
  }

  lemma SortedMembers(logs: seq<S.Log>)
    ensures forall l :: l in S.SortByKey(logs) <==> l in logs
    ensures logs != [] ==> S.SortByKey(logs) != []
  {
    S.SortIsStable(logs, (0, 0));
    hide S.SortByKey;
    forall l ensures l in S.SortByKey(logs) <==> l in logs {
      assert l in multiset(S.SortByKey(logs)) <==> l in multiset(logs);
    }
    assert logs != [] ==> logs[0] in S.SortByKey(logs);
  }

  lemma BootDoneSound(c: Setup, s: Source, a: Action)
    requires SettlerSound(c, s) && a.step.BootDone? && Enabled(c.feed, s.feed, a.step)
    ensures SettlerSound(c, After(c, s, a))
  {
    hide InOrder, S.AllHeld, S.HandedOn, LogOf, LastBlock;
    S.HeldNothing();
    S.NothingHandedOn();
    forall p ensures Count(After(c, s, a).booted, p) == Count(s.feed.taken, p) {
      InOrderCounts(s.feed.taken, p);
    }
    forall p | p in After(c, s, a).booted ensures p in s.feed.taken {
      CountMember(After(c, s, a).booted, p);
      CountMember(s.feed.taken, p);
    }
  }

  lemma StepSound(c: Setup, s: Source, a: Action)
    requires InRange(c) && Inv(c.feed, s.feed) && SettlerSound(c, s) && Enabled(c.feed, s.feed, a.step)
    ensures SettlerSound(c, After(c, s, a))
  {
    hide AtOrAfterOnly, ClaimAll, FetchGap, S.AddAll, S.After;
    match a.step
    case Drain => ArriveSound(c, s, a);
    case Fill => ArriveSound(c, s, a);
    case HandOn => HandOnSound(c, s, a);
    case BootDone => BootDoneSound(c, s, a);
    case _ =>
  }

  // ---- Gaps noted, and blocks handed on ----

  /** Every log of the gap that is due is in. */
  ghost predicate Filled(c: Setup, s: Source, g: Gap) {
    forall p | p in c.feed.chain :: Due(s.feed, p) && Covers(g, p) ==> p in s.feed.taken
  }

  predicate Unfilled(s: Source, g: Gap) {
    g in s.feed.gaps || g in s.feed.toFill
  }

  ghost predicate NotedSound(c: Setup, s: Source) {
    forall g | g in s.noted :: Unfilled(s, g) || (!s.feed.stage.Starting? && Filled(c, s, g))
  }

  /** Everything handed on lies below the ends of the gaps not yet filled. */
  ghost predicate HandedBelow(s: Source) {
    && (forall batch, g | batch in s.handed && Unfilled(s, g) :: forall l | l in batch.logs :: Before(PositionOf(l), g.before))
    && (forall g | Unfilled(s, g) :: Precedes(g.after, g.before))
  }

  lemma NoteKeeps(c: Setup, s: Source, a: Action)
    requires Inv(c.feed, s.feed) && NotedSound(c, s) && a.step.Announce? && Enabled(c.feed, s.feed, a.step)
    ensures NotedSound(c, After(c, s, a))
  {
    var n := After(c, s, a);
    assert n.feed.taken == s.feed.taken && n.feed.stage == s.feed.stage;
    forall g | g in n.noted ensures Unfilled(n, g) || (!n.feed.stage.Starting? && Filled(c, n, g)) {
      assert g in s.noted || g in n.feed.gaps;
    }
  }

  lemma FillNotes(c: Setup, s: Source, a: Action)
    requires Inv(c.feed, s.feed) && NotedSound(c, s) && Enabled(c.feed, s.feed, a.step)
    requires a.step.Fill? || (a.step.BootFill? && s.feed.toFill[0].before in s.feed.drained)
    ensures NotedSound(c, After(c, s, a))
  {
    var n, g := After(c, s, a), s.feed.toFill[0];
    var fetched := FetchGap(c.feed.chain, g, s.feed.floor);
    hide Inv, FetchGap, ClaimAll, S.AddAll;
    FillKeeps(c.feed, s.feed);
    FillClaimsAll(c.feed, s.feed);
    assert n.feed == AfterFill(c.feed, s.feed) && n.noted == s.noted;
    assert n.feed.floor == s.feed.floor && n.feed.stage == s.feed.stage;
    forall p | p in c.feed.chain && Due(n.feed, p) && Covers(g, p) ensures p in n.feed.taken {
      CountMember(fetched, p);
    }
    forall h | h in s.noted ensures Unfilled(n, h) || Filled(c, n, h) {
      if h == g {
        assert Filled(c, n, g);
      }
    }
  }

  lemma NothingToFill(c: Setup, s: Source)
    requires Inv(c.feed, s.feed) && !s.feed.stage.BootFilling? && !s.feed.stage.Filling?
    ensures s.feed.toFill == []
  {
  }

  lemma StepNotes(c: Setup, s: Source, a: Action)
    requires Inv(c.feed, s.feed) && NotedSound(c, s) && Enabled(c.feed, s.feed, a.step)
    ensures NotedSound(c, After(c, s, a))
  {
    hide AtOrAfterOnly, ClaimAll, FetchGap, FirstQueued, S.AddAll, S.After, Inv;
    match a.step
    case Announce(_) => NoteKeeps(c, s, a);
    case Fill => FillNotes(c, s, a);
    case BootFill =>
      if s.feed.toFill[0].before in s.feed.drained {
        FillNotes(c, s, a);
      }
    case BootTakeGaps => NothingToFill(c, s);
    case TakeGaps => NothingToFill(c, s);
    case _ =>
  }

  /** A log handed on is in, so it lies below the ends of the gaps noted after it. */
  lemma StepBelow(c: Setup, s: Source, a: Action)
    requires InRange(c) && Inv(c.feed, s.feed) && EndsAhead(s.feed) && SettlerSound(c, s) && HandedBelow(s)
    requires Enabled(c.feed, s.feed, a.step)
    ensures HandedBelow(After(c, s, a))
  {
    match a.step
    case Announce(p) => AnnounceBelow(c, s, a);
    case HandOn => HandOnBelow(c, s, a);
    case _ => OtherBelow(c, s, a);
  }

  lemma AnnounceBelow(c: Setup, s: Source, a: Action)
    requires Inv(c.feed, s.feed) && SettlerSound(c, s) && HandedBelow(s)
    requires a.step.Announce? && Enabled(c.feed, s.feed, a.step)
    ensures HandedBelow(After(c, s, a))
  {
    var n := After(c, s, a);
    TakenBelow(c, s, a.step.p);
    HandedIn(c, s);
    AnnounceNotes(c, s, a);
    hide Inv, SettlerSound, Precedes, After, AllBefore;
    forall batch, g | batch in n.handed && Unfilled(n, g) ensures forall l | l in batch.logs :: Before(PositionOf(l), g.before) {
      if !Unfilled(s, g) {
        forall l | l in batch.logs ensures Before(PositionOf(l), g.before) {
          BelowAll(s.feed.taken, PositionOf(l), g.before);
        }
      }
    }
  }

  lemma BelowAll(logs: seq<LogPosition>, t: LogPosition, p: LogPosition)
    requires AllBefore(logs, p) && t in logs
    ensures Before(t, p)
  {
  }

  /** A log about to be announced lies above all that is in. */
  lemma TakenBelow(c: Setup, s: Source, p: LogPosition)
    requires Inv(c.feed, s.feed) && MayForward(c.feed, s.feed, p)
    ensures AllBefore(s.feed.taken, p)
  {
    forall t | t in s.feed.taken ensures Before(t, p) {
      TakenIsForwarded(c.feed, s.feed, t);
      ChainOrder(t, s.feed.progress.last.value, p);
    }
  }

  lemma HandedIn(c: Setup, s: Source)
    requires SettlerSound(c, s)
    ensures forall batch, l | batch in s.handed && l in batch.logs :: PositionOf(l) in s.feed.taken
  {
    hide Accounted, AllFiled;
  }

  lemma AnnounceNotes(c: Setup, s: Source, a: Action)
    requires a.step.Announce? && Enabled(c.feed, s.feed, a.step)
    ensures After(c, s, a).handed == s.handed
    ensures forall g | Unfilled(After(c, s, a), g) ::
              Unfilled(s, g) || (g.before == a.step.p && Precedes(g.after, g.before))
  {
  }

  lemma HandOnBelow(c: Setup, s: Source, a: Action)
    requires EndsAhead(s.feed) && SettlerSound(c, s) && HandedBelow(s)
    requires a.step.HandOn? && Enabled(c.feed, s.feed, a.step)
    ensures HandedBelow(After(c, s, a))
  {
    HandOnSound(c, s, a);
    var n := After(c, s, a);
    hide Accounted, AllFiled, S.After;
    assert n.feed.taken == s.feed.taken && n.feed.gaps == s.feed.gaps && n.feed.toFill == [];
  }

  lemma OtherBelow(c: Setup, s: Source, a: Action)
    requires HandedBelow(s) && Enabled(c.feed, s.feed, a.step) && !a.step.Announce? && !a.step.HandOn?
    ensures HandedBelow(After(c, s, a))
  {
    hide AtOrAfterOnly, ClaimAll, FetchGap, FirstQueued, S.AddAll;
    assert After(c, s, a).handed == s.handed;
    assert forall g | Unfilled(After(c, s, a), g) :: Unfilled(s, g);
  }

  // ---- Runs ----

  ghost predicate Sound(c: Setup, s: Source) {
    && InRange(c) && Inv(c.feed, s.feed) && EndsAhead(s.feed)
    && SettlerSound(c, s) && NotedSound(c, s) && HandedBelow(s)
  }

  lemma StepStaysSound(c: Setup, s: Source, a: Action)
    requires Sound(c, s) && Enabled(c.feed, s.feed, a.step)
    ensures Sound(c, After(c, s, a)) && After(c, s, a).feed == Next(c.feed, s.feed, a.step)
  {
    hide Inv, EndsAhead, SettlerSound, NotedSound, HandedBelow, InRange, Enabled;
    StepKeeps(c.feed, s.feed, a.step);
    StepEnds(c.feed, s.feed, a.step);
    StepSound(c, s, a);
    StepNotes(c, s, a);
    StepBelow(c, s, a);
    FeedSteps(c, s, a);
  }

  lemma FeedSteps(c: Setup, s: Source, a: Action)
    requires Enabled(c.feed, s.feed, a.step)
    ensures After(c, s, a).feed == Next(c.feed, s.feed, a.step)
  {
    hide Next;
  }

  lemma {:induction false} RunStaysSound(c: Setup, s: Source, actions: seq<Action>)
    requires Sound(c, s) && LegalRun(c, s, actions)
    ensures Sound(c, AtEnd(c, s, actions))
    decreases actions
  {
    hide Sound, After, Enabled;
    if actions != [] {
      StepStaysSound(c, s, actions[0]);
      RunStaysSound(c, After(c, s, actions[0]), actions[1..]);
    }
  }

  lemma ReachedIsSound(c: Setup, s: Source)
    requires InRange(c) && Reached(c, s)
    ensures Sound(c, s)
  {
    var actions :| LegalRun(c, Fresh(c), actions) && AtEnd(c, Fresh(c), actions) == s;
    hide After;
    StartAbove();
    FreshIsSound(c);
    RunStaysSound(c, Fresh(c), actions);
  }

  lemma FreshIsSound(c: Setup)
    requires InRange(c)
    ensures Sound(c, Fresh(c))
  {
  }

  // ---- A gap's logs go on before the block that ended it ----

  /** A log that is in is in no gap still to be filled. */
  lemma TakenNotLost(c: Setup, s: Source, t: LogPosition, g: Gap)
    requires Sound(c, s) && t in s.feed.taken && Unfilled(s, g)
    ensures !Covers(g, t)
  {
    TakenDue(c.feed, s.feed, t);
    CountMember(s.feed.taken, t);
    CoveredBy(s.feed.gaps, t);
    CoveredBy(s.feed.toFill, t);
  }

  /**
   * In every state of every run, whatever was handed on was forwarded before the loss of every gap not
   * yet filled. So no block handed on reaches the block that ended such a gap, but for one: the block
   * the loss itself began in.
   */
  lemma HandedBeforeLoss(c: Setup, s: Source, batch: S.Settled, g: Gap)
    requires InRange(c) && Reached(c, s) && batch in s.handed && Unfilled(s, g)
    ensures g.after.Some? && forall l | l in batch.logs :: IsAtOrAfter(g.after.value, PositionOf(l))
    ensures batch.block >= g.before.block <==> batch.block == g.after.value.block == g.before.block
  {
    ReachedIsSound(c, s);
    var first := batch.logs[0];
    forall l | l in batch.logs
      ensures !Covers(g, PositionOf(l)) && Before(PositionOf(l), g.before) && PositionOf(l).block == batch.block
    {
      HandedIsTaken(c, s, batch, l);
      TakenNotLost(c, s, PositionOf(l), g);
    }
    hide Sound, PositionOf, Reached, InRange;
    GapOrdered(c, s, g);
    assert first in batch.logs;
  }

  lemma HandedIsTaken(c: Setup, s: Source, batch: S.Settled, l: S.Log)
    requires Sound(c, s) && batch in s.handed && l in batch.logs
    ensures PositionOf(l) in s.feed.taken && PositionOf(l).block == batch.block
  {
  }

  lemma GapOrdered(c: Setup, s: Source, g: Gap)
    requires Sound(c, s) && Unfilled(s, g)
    ensures Precedes(g.after, g.before)
  {
  }

  /** The block handed on next, if any is ready. */
  function Released(s: Source, now: nat): Option<nat> {
    if S.TakeReady(s.settler, now).Some? then S.OldestPending(s.settler.pending) else None
  }

  /** A pending block holds a log that is in. */
  lemma PendingIsTaken(c: Setup, s: Source, b: nat) returns (t: LogPosition)
    requires Sound(c, s) && Booted(s) && b in s.settler.pending
    ensures t in s.feed.taken && t.block == b && LogOf(t) in s.settler.pending[b].logs
  {
    var l := s.settler.pending[b].logs[0];
    assert l in s.settler.pending[b].logs;
    t := PositionOf(l);
  }

  lemma PendingBelow(c: Setup, s: Source, b: nat, g: Gap) returns (t: LogPosition)
    requires Sound(c, s) && Enabled(c.feed, s.feed, HandOn) && b in s.settler.pending && Unfilled(s, g)
    ensures t in s.feed.taken && t.block == b && Before(t, g.before) && g.after.Some? && IsAtOrAfter(g.after.value, t)
    ensures b <= g.after.value.block <= g.before.block
  {
    t := PendingIsTaken(c, s, b);
    TakenNotLost(c, s, t, g);
    GapOrdered(c, s, g);
    EndsAbove(c, s, t, g);
    hide Sound;
  }

  lemma EndsAbove(c: Setup, s: Source, t: LogPosition, g: Gap)
    requires Sound(c, s) && Enabled(c.feed, s.feed, HandOn) && t in s.feed.taken && Unfilled(s, g)
    ensures g in s.feed.gaps && Before(t, g.before)
  {
  }

  lemma {:induction false} HeldSomewhere(pending: map<nat, S.Held>, l: S.Log) returns (b: nat)
    requires S.AllHeld(pending)[l] > 0
    ensures b in pending && l in pending[b].logs
    decreases pending.Keys
  {
    var k := S.OldestPending(pending).value;
    if l in pending[k].logs {
      b := k;
    } else {
      assert multiset(pending[k].logs)[l] == 0;
      b := HeldSomewhere(pending - {k}, l);
    }
  }

  /** What is applied or pending of a log that is in: exactly one of the two, and pending only under its block. */
  lemma AppliedUnlessPending(c: Setup, s: Source, p: LogPosition)
    requires Sound(c, s) && Booted(s) && p in c.feed.chain && p in s.feed.taken && p.block !in s.settler.pending
    ensures TimesApplied(s, p) == 1
  {
    TakenDue(c.feed, s.feed, p);
    CountMember(s.feed.taken, p);
    assert Count(s.feed.taken, p) == TimesApplied(s, p) + S.AllHeld(s.settler.pending)[LogOf(p)];
    LogsDiffer(p, p);
    if S.AllHeld(s.settler.pending)[LogOf(p)] > 0 {
      var b := HeldSomewhere(s.settler.pending, LogOf(p));
    }
  }

  /** Nothing due of the block is missing. */
  ghost predicate BlockIn(c: Setup, s: Source, block: nat) {
    forall p | p in c.feed.chain && Due(s.feed, p) && p.block == block :: p in s.feed.taken
  }

  /** Every due log through the block has been applied, once. */
  ghost predicate CompleteThrough(c: Setup, s: Source, block: nat) {
    forall p | p in c.feed.chain && Due(s.feed, p) && p.block <= block :: TimesApplied(s, p) == 1
  }

  /** A log of the block released, or of a later one if another is pending. */
  lemma ReleaseTop(c: Setup, s: Source, now: nat) returns (t: LogPosition)
    requires Sound(c, s) && Enabled(c.feed, s.feed, HandOn) && Released(s, now).Some?
    ensures t in s.feed.taken && t.block >= Released(s, now).value
    ensures |s.settler.pending| > 1 ==> t.block > Released(s, now).value
  {
    hide Sound;
    var b := S.OldestPending(s.settler.pending).value;
    if |s.settler.pending| > 1 {
      var later := AnotherPending(s.settler.pending, b);
      t := PendingIsTaken(c, s, later);
    } else {
      t := PendingIsTaken(c, s, b);
    }
  }

  /** With nothing missing below a log of the block or a later one, and the block in, all through it is in. */
  lemma InThrough(c: Setup, s: Source, t: LogPosition, b: nat, p: LogPosition)
    requires Whole(c.feed, s.feed) && t in s.feed.taken && (t.block > b || (t.block >= b && BlockIn(c, s, b)))
    requires p in c.feed.chain && Due(s.feed, p) && p.block <= b
    ensures p in s.feed.taken
  {
    hide Due;
  }

  /** A block released, by a later one or whole by its timer, completes the chain through it if nothing is missing below what is in. */
  lemma ReleaseCompletes(c: Setup, s: Source, now: nat)
    requires Sound(c, s) && Enabled(c.feed, s.feed, HandOn) && Released(s, now).Some? && Whole(c.feed, s.feed)
    requires |s.settler.pending| > 1 || BlockIn(c, s, Released(s, now).value)
    ensures CompleteThrough(c, After(c, s, Act(HandOn, now)), Released(s, now).value)
  {
    hide Sound, Whole, BlockIn, S.AllHeld, S.HandedOn, S.SortByKey;
    var b := S.OldestPending(s.settler.pending).value;
    var n := After(c, s, Act(HandOn, now));
    StepStaysSound(c, s, Act(HandOn, now));
    OldestGone(c, s, now);
    var t := ReleaseTop(c, s, now);
    forall p | p in c.feed.chain && Due(n.feed, p) && p.block <= b ensures TimesApplied(n, p) == 1 {
      InThrough(c, s, t, b, p);
      AppliedUnlessPending(c, n, p);
    }
  }

  /**
   * A block handed on because a later one has started lies strictly below the end of every gap not yet
   * filled; and if nothing is missing below what is in, then with it every due log of the chain
   * through that block has been applied, once.
   */
  lemma ReleasedByLater(c: Setup, s: Source, now: nat)
    requires InRange(c) && Reached(c, s) && Enabled(c.feed, s.feed, HandOn) && |s.settler.pending| > 1
    ensures Released(s, now).Some?
    ensures forall g | Unfilled(s, g) :: Released(s, now).value < g.before.block
    ensures Whole(c.feed, s.feed) ==> CompleteThrough(c, After(c, s, Act(HandOn, now)), Released(s, now).value)
  {
    ReachedIsSound(c, s);
    var b := S.OldestPending(s.settler.pending).value;
    var later := AnotherPending(s.settler.pending, b);
    OldestGone(c, s, now);
    hide Sound, InRange, Reached, CompleteThrough, S.SortByKey;
    forall g | Unfilled(s, g) ensures b < g.before.block {
      var u := PendingBelow(c, s, later, g);
    }
    if Whole(c.feed, s.feed) {
      ReleaseCompletes(c, s, now);
    }
  }

  lemma AnotherPending(pending: map<nat, S.Held>, b: nat) returns (later: nat)
    requires b in pending && |pending| > 1
    ensures later in pending && later != b
  {
    var others := pending.Keys - {b};
    assert pending.Keys == others + {b} && |others| == |pending| - 1;
    later :| later in others;
  }

  lemma OldestGone(c: Setup, s: Source, now: nat)
    requires Enabled(c.feed, s.feed, HandOn) && Released(s, now).Some?
    ensures var n, b := After(c, s, Act(HandOn, now)), Released(s, now).value;
            n.feed.taken == s.feed.taken && Booted(n) && forall k | k in n.settler.pending :: b < k && k in s.settler.pending
  {
    hide S.SortByKey;
  }

  function StepsOf(actions: seq<Action>): seq<Step> {
    if actions == [] then [] else [actions[0].step] + StepsOf(actions[1..])
  }

  lemma {:induction false} Projects(c: Setup, s: Source, actions: seq<Action>)
    requires LegalRun(c, s, actions)
    ensures ValidRun(c.feed, s.feed, StepsOf(actions))
    ensures EndOf(c.feed, s.feed, StepsOf(actions)) == AtEnd(c, s, actions).feed
    decreases actions
  {
    hide Enabled, Next, After;
    if actions != [] {
      FeedSteps(c, s, actions[0]);
      Projects(c, After(c, s, actions[0]), actions[1..]);
      assert StepsOf(actions)[1..] == StepsOf(actions[1..]);
    }
  }

  /**
   * So, between the taking of the gaps and the next hand-on, whatever happens: a block released by a
   * later one completes every due log through it, unless a due log sent between the drain and the
   * taking lies below a due log inside a gap taken; and then a log below one that is in is missing.
   */
  lemma ReleasedWhole(c: Setup, actions: seq<Action>, at: nat, rest: seq<Action>, now: nat)
    requires InRange(c) && LegalRun(c, Fresh(c), actions) && AtEnd(c, Fresh(c), actions).feed.stage.Arrived?
    requires var n := After(c, AtEnd(c, Fresh(c), actions), Act(TakeGaps, at));
             && LegalRun(c, n, rest) && HandOn !in StepsOf(rest)
             && Enabled(c.feed, AtEnd(c, n, rest).feed, HandOn)
    ensures var s := AtEnd(c, Fresh(c), actions);
            var e := AtEnd(c, After(c, s, Act(TakeGaps, at)), rest);
            && (Whole(c.feed, e.feed) <==> Clean(c.feed, s.feed))
            && (Clean(c.feed, s.feed) && |e.settler.pending| > 1 ==>
                  Released(e, now).Some? && CompleteThrough(c, After(c, e, Act(HandOn, now)), Released(e, now).value))
  {
    hide Next, After, Whole, Clean, Due;
    var s := AtEnd(c, Fresh(c), actions);
    var n := After(c, s, Act(TakeGaps, at));
    Projects(c, Fresh(c), actions);
    Projects(c, n, rest);
    FeedSteps(c, s, Act(TakeGaps, at));
    WholeBlocks(c.feed, StepsOf(actions), StepsOf(rest));
    var e := AtEnd(c, n, rest);
    ThenReached(c, actions, Act(TakeGaps, at), rest);
    if |e.settler.pending| > 1 {
      ReleasedByLater(c, e, now);
    }
  }

  lemma {:induction false} RunsJoin(c: Setup, s: Source, first: seq<Action>, rest: seq<Action>)
    requires LegalRun(c, s, first) && LegalRun(c, AtEnd(c, s, first), rest)
    ensures LegalRun(c, s, first + rest) && AtEnd(c, s, first + rest) == AtEnd(c, AtEnd(c, s, first), rest)
    decreases first
  {
    hide Enabled, After;
    if first == [] {
      assert first + rest == rest;
    } else {
      assert (first + rest)[1..] == first[1..] + rest;
      RunsJoin(c, After(c, s, first[0]), first[1..], rest);
    }
  }

  lemma ThenReached(c: Setup, actions: seq<Action>, a: Action, rest: seq<Action>)
    requires LegalRun(c, Fresh(c), actions) && Enabled(c.feed, AtEnd(c, Fresh(c), actions).feed, a.step)
    requires LegalRun(c, After(c, AtEnd(c, Fresh(c), actions), a), rest)
    ensures Reached(c, AtEnd(c, After(c, AtEnd(c, Fresh(c), actions), a), rest))
  {
    hide Enabled, After;
    LegalThen(c, Fresh(c), actions, a);
    RunsJoin(c, Fresh(c), actions + [a], rest);
  }

  /** The chain has a due log inside the gap. */
  ghost predicate LostSome(c: Setup, s: Source, g: Gap) {
    exists p :: p in c.feed.chain && Due(s.feed, p) && Covers(g, p)
  }

  /**
   * Exactly when the block that ended a gap goes on while logs of the gap are not in: the gap is not
   * filled, and its end's block alone is pending and has settled. All that is pending was then
   * forwarded before the loss, which began inside that block.
   */
  lemma TimerRelease(c: Setup, s: Source, now: nat, g: Gap)
    requires InRange(c) && Reached(c, s) && Enabled(c.feed, s.feed, HandOn) && Released(s, now).Some? && g in s.noted
    ensures Released(s, now).value >= g.before.block && !Filled(c, s, g)
       <==> Unfilled(s, g) && s.settler.pending.Keys == {g.before.block} && LostSome(c, s, g)
    ensures Unfilled(s, g) && s.settler.pending.Keys == {g.before.block} ==>
              g.after.Some? && g.after.value.block == g.before.block
              && forall l | l in s.settler.pending[g.before.block].logs :: IsAtOrAfter(g.after.value, PositionOf(l))
  {
    hide Sound, InRange, Reached, Filled, LostSome;
    ReachedIsSound(c, s);
    var b := Released(s, now).value;
    NotedIsFilled(c, s, g);
    if Unfilled(s, g) {
      LostIsMissing(c, s, g);
      forall k | k in s.settler.pending ensures k <= g.before.block {
        var u := PendingBelow(c, s, k, g);
      }
      var t := PendingBelow(c, s, b, g);
      assert b >= g.before.block ==> forall k | k in s.settler.pending :: k == g.before.block;
      if g.before.block in s.settler.pending {
        PendingBeforeLoss(c, s, g);
      }
    }
  }

  lemma NotedIsFilled(c: Setup, s: Source, g: Gap)
    requires Sound(c, s) && g in s.noted
    ensures Unfilled(s, g) || Filled(c, s, g)
  {
  }

  lemma LostIsMissing(c: Setup, s: Source, g: Gap)
    requires Sound(c, s) && Unfilled(s, g)
    ensures LostSome(c, s, g) <==> !Filled(c, s, g)
  {
    forall p | p in c.feed.chain && Due(s.feed, p) && Covers(g, p) ensures p !in s.feed.taken {
      if p in s.feed.taken {
        TakenNotLost(c, s, p, g);
      }
    }
  }

  lemma PendingBeforeLoss(c: Setup, s: Source, g: Gap)
    requires Sound(c, s) && Enabled(c.feed, s.feed, HandOn) && Unfilled(s, g) && g.after.Some?
    requires g.before.block in s.settler.pending
    ensures forall l | l in s.settler.pending[g.before.block].logs :: IsAtOrAfter(g.after.value, PositionOf(l))
  {
    forall l | l in s.settler.pending[g.before.block].logs ensures IsAtOrAfter(g.after.value, PositionOf(l)) {
      EndsAbove(c, s, PositionOf(l), g);
      TakenNotLost(c, s, PositionOf(l), g);
    }
  }

  lemma {:induction false} LegalThen(c: Setup, s: Source, actions: seq<Action>, a: Action)
    requires LegalRun(c, s, actions) && Enabled(c.feed, AtEnd(c, s, actions).feed, a.step)
    ensures LegalRun(c, s, actions + [a]) && AtEnd(c, s, actions + [a]) == After(c, AtEnd(c, s, actions), a)
    decreases actions
  {
    hide Enabled, After;
    if actions == [] {
      assert [a][1..] == [];
    } else {
      assert (actions + [a])[1..] == actions[1..] + [a];
      LegalThen(c, After(c, s, actions[0]), actions[1..], a);
    }
  }

  lemma Go(c: Setup, s: Source, step: Step, now: nat) returns (n: Source)
    requires Reached(c, s) && Enabled(c.feed, s.feed, step)
    ensures n == After(c, s, Act(step, now)) && Reached(c, n)
  {
    hide Enabled, After;
    var actions :| LegalRun(c, Fresh(c), actions) && AtEnd(c, Fresh(c), actions) == s;
    LegalThen(c, Fresh(c), actions, Act(step, now));
    n := After(c, s, Act(step, now));
  }

  lemma FreshReached(c: Setup)
    ensures Reached(c, Fresh(c))
  {
    assert LegalRun(c, Fresh(c), []) && AtEnd(c, Fresh(c), []) == Fresh(c);
  }

  /** One log in block 1, three in block 2. */
  const SPLIT := Setup(Config([At(1), At(2), Position(2, 0, 1), Position(2, 0, 2)], 8), 25, 0)

  /** The loss of the second of the three. */
  const SPLIT_GAP := Gap(Some(At(2)), Position(2, 0, 2))

  /** Bootstrapped on the log of block 1. */
  lemma SplitStart() returns (s: Source)
    ensures Reached(SPLIT, s) && s.feed.stage.Idle? && s.settler == S.State(25, map[], 1) && s.noted == [Gap(None, At(1))]
    ensures s.feed.progress == Feed.Progress(true, Some(At(1)), false) && s.feed.inFlight.None? && s.feed.table == [At(1)]
    ensures s.feed.channel == [] && s.feed.gaps == [] && s.feed.toFill == [] && s.feed.floor == At(1)
  {
    hide FetchGap, Reached, S.AddAll, S.After;
    var c := SPLIT;
    s := Fresh(c);
    FreshReached(c);
    s := Go(c, s, Subscribe, 0);
    s := Go(c, s, Announce(At(1)), 0);
    s := Go(c, s, Send, 0);
    s := Go(c, s, BootDrain(0), 0);
    s := Go(c, s, BootTakeGaps, 0);
    EmptyGap(c.feed.chain);
    s := Go(c, s, BootFill, 0);
    s := Go(c, s, BootDone, 0);
  }

  /** The first log of block 2 arrives; the second is lost, and the third announced. */
  lemma SplitMiddle() returns (s: Source)
    ensures Reached(SPLIT, s) && s.feed.stage.Filling? && s.feed.toFill == [] && s.feed.floor == At(1)
    ensures s.settler == S.State(25, map[2 := S.Held([LogOf(At(2))], 0)], 1)
    ensures s.feed.gaps == [SPLIT_GAP] && s.noted == [Gap(None, At(1)), SPLIT_GAP]
  {
    hide FetchGap, Reached, S.After;
    var c := SPLIT;
    s := SplitStart();
    FirstOfTwo(s.feed);
    s := Go(c, s, Announce(At(2)), 0);
    s := Go(c, s, Send, 0);
    assert s.feed.channel == [At(2)];
    DrainsOne(At(2), At(1), s.settler);
    s := Go(c, s, Drain, 0);
    assert s.settler == S.State(25, map[2 := S.Held([LogOf(At(2))], 0)], 1);
    s := Go(c, s, TakeGaps, 0);
    s := Go(c, s, Lag, 0);
    s := Go(c, s, Announce(Position(2, 0, 2)), 0);
  }

  lemma DrainsOne(p: LogPosition, floor: LogPosition, settler: S.State)
    requires IsAtOrAfter(p, floor) && settler.pending == map[]
    ensures S.AddAll(settler, LogsOf(AtOrAfterOnly([p], floor)), 0)
         == settler.(pending := map[p.block := S.Held([LogOf(p)], 0)])
  {
    assert [] + [LogOf(p)] == [LogOf(p)];
    assert AtOrAfterOnly([p], floor) == [p] + AtOrAfterOnly([p][1..], floor);
    assert LogsOf([p]) == [LogOf(p)] + LogsOf([p][1..]);
    assert [LogOf(p)][1..] == [];
  }

  lemma FirstOfTwo(s: State)
    requires s.progress == Feed.Progress(true, Some(At(1)), false) && s.inFlight.None?
    ensures MayForward(SPLIT.feed, s, At(2))
  {
    assert forall q | q in SPLIT.feed.chain :: q == At(1) || q == At(2) || q == Position(2, 0, 1) || q == Position(2, 0, 2);
  }

  /** Such a run: the settle time over, block 2 goes on with its first log alone, a loss of its second noted. */
  lemma TimerSplitsBlock() returns (s: Source)
    ensures InRange(SPLIT) && Reached(SPLIT, s) && Enabled(SPLIT.feed, s.feed, HandOn) && SPLIT_GAP in s.noted
    ensures Released(s, 100) == Some(2) == Some(SPLIT_GAP.before.block) && !Filled(SPLIT, s, SPLIT_GAP)
    ensures After(SPLIT, s, Act(HandOn, 100)).handed == s.handed + [S.Settled(2, [LogOf(At(2))], false, 2)]
  {
    hide Reached, S.TakeReady, S.OldestPending, Sound, Filled, LostSome, InRange;
    s := SplitMiddle();
    SplitInRange();
    OneSettles(s.settler);
    SplitNotFilled(s);
  }

  lemma SplitNotFilled(s: Source)
    requires InRange(SPLIT) && Reached(SPLIT, s) && s.feed.floor == At(1) && Unfilled(s, SPLIT_GAP)
    ensures !Filled(SPLIT, s, SPLIT_GAP)
  {
    hide Reached, Sound, Filled, LostSome, InRange;
    ReachedIsSound(SPLIT, s);
    SplitLost(s);
    LostIsMissing(SPLIT, s, SPLIT_GAP);
  }

  lemma SplitInRange()
    ensures InRange(SPLIT)
  {
  }

  lemma SplitLost(s: Source)
    requires s.feed.floor == At(1)
    ensures LostSome(SPLIT, s, SPLIT_GAP)
  {
    var p := Position(2, 0, 1);
    assert SPLIT.feed.chain[2] == p;
    assert p in SPLIT.feed.chain && Due(s.feed, p) && Covers(SPLIT_GAP, p);
  }

  lemma OneSettles(settler: S.State)
    requires settler == S.State(25, map[2 := S.Held([LogOf(At(2))], 0)], 1)
    ensures S.TakeReady(settler, 100).Some? && S.OldestPending(settler.pending) == Some(2)
    ensures S.TakeReady(settler, 100).value.0 == S.Settled(2, [LogOf(At(2))], false, 2)
  {
    var log := LogOf(At(2));
    OnlyPending(settler.pending, 2);
    assert S.SortByKey([log]) == S.Insert(log, S.SortByKey([log][1..]));
  }

  lemma OnlyPending(pending: map<nat, S.Held>, b: nat)
    requires pending.Keys == {b}
    ensures S.OldestPending(pending) == Some(b)
  {
    assert b in pending;
  }

  // ---- Bootstrap, the queue and the gaps together ----

  /** What bootstrap applies over RPC, from the cursor up to the floor. */
  function CaughtUp(c: Setup, s: Source): seq<LogPosition> {
    CatchUp.Until(CatchUp.Fetch(c.feed.chain, CatchUp.SaturatingAdd(c.cursor, 1), s.feed.floor.block), s.feed.floor)
  }

  /** How often a log has reached the pools. */
  ghost function Applied(c: Setup, s: Source, p: LogPosition): nat {
    Count(CaughtUp(c, s), p) + TimesApplied(s, p)
  }

  /** How often it is still on its way: pending, queued, in flight, or in a gap to be filled. */
  ghost function Waiting(s: Source, p: LogPosition): nat {
    S.AllHeld(s.settler.pending)[LogOf(p)] + Count(s.feed.channel, p) + Once(s.feed.inFlight == Some(p))
    + CoverCount(s.feed.gaps, p) + CoverCount(s.feed.toFill, p)
  }

  lemma {:induction false} CaughtUpCounts(chain: seq<LogPosition>, from: int, floor: LogPosition, p: LogPosition)
    requires InChainOrder(chain)
    ensures Count(CatchUp.Until(CatchUp.Fetch(chain, from, floor.block), floor), p)
         == Once(p in chain && from <= p.block && Before(p, floor))
    decreases chain
  {
    if chain != [] {
      CatchUp.Tail(chain);
      var fetched := CatchUp.Fetch(chain, from, floor.block);
      if IsAtOrAfter(chain[0], floor) {
        forall q | q in chain ensures !Before(q, floor) {
          ChainOrder(chain[0], q, floor);
          ChainOrder(q, floor, chain[0]);
        }
        if fetched != [] {
          CatchUp.FetchMembers(chain, from, floor.block, fetched[0]);
          ChainOrder(fetched[0], floor, floor);
        }
      } else {
        CaughtUpCounts(chain[1..], from, floor, p);
        CatchUp.FetchHead(chain, from, floor.block);
        ChainOrder(chain[0], floor, floor);
        NotInTail(chain);
        if from <= chain[0].block {
          CatchUp.UntilHead(chain[0], CatchUp.Fetch(chain[1..], from, floor.block), floor);
          CountHead([chain[0]] + CatchUp.Until(CatchUp.Fetch(chain[1..], from, floor.block), floor), p);
        }
      }
    }
  }

  lemma NotInTail(chain: seq<LogPosition>)
    requires chain != [] && InChainOrder(chain)
    ensures chain[0] !in chain[1..] && forall p :: p in chain <==> p == chain[0] || p in chain[1..]
  {
    forall i | 1 <= i < |chain| ensures chain[i] != chain[0] {
      ChainOrder(chain[0], chain[i], chain[0]);
    }
  }

  /**
   * After bootstrap, in every state of every run: a chain log after the cursor has been applied at most
   * once; one below the floor once, and any other the feed has passed once or it is on its way in
   * exactly one place. A log at or before the cursor is applied again only if it is at or after the floor.
   */
  lemma AppliedOnce(c: Setup, s: Source, p: LogPosition)
    requires InRange(c) && Reached(c, s) && Booted(s) && p in c.feed.chain && c.cursor < CatchUp.U64_MAX
    ensures c.cursor < p.block || Due(s.feed, p) ==> Applied(c, s, p) <= 1
    ensures c.cursor < p.block && !Due(s.feed, p) ==> Applied(c, s, p) == 1
    ensures Due(s.feed, p) ==>
              if Forwarded(s.feed, p) then Applied(c, s, p) + Waiting(s, p) == 1 else Applied(c, s, p) == 0
    ensures p.block <= c.cursor && !Due(s.feed, p) ==> Applied(c, s, p) == 0
  {
    ReachedIsSound(c, s);
    ChainOrder(p, s.feed.floor, p);
    CaughtUpCounts(c.feed.chain, CatchUp.SaturatingAdd(c.cursor, 1), s.feed.floor, p);
    AccountedFor(c, s, p);
    hide Sound, Reached, InRange, CatchUp.Fetch, CatchUp.Until, S.AllHeld, S.HandedOn, CoverCount;
  }

  lemma AccountedFor(c: Setup, s: Source, p: LogPosition)
    requires Sound(c, s) && Booted(s) && p in c.feed.chain
    ensures Count(s.feed.taken, p) == TimesApplied(s, p) + S.AllHeld(s.settler.pending)[LogOf(p)]
    ensures Forwarded(s.feed, p) && Due(s.feed, p) ==> Places(s.feed, p) == 1
    ensures !Forwarded(s.feed, p) ==> Places(s.feed, p) == 0
    ensures !Due(s.feed, p) ==> Count(s.feed.taken, p) == 0
  {
  }

  /** With nothing on its way, every chain log after the cursor that the feed passed has been applied exactly once. */
  lemma AllApplied(c: Setup, s: Source, p: LogPosition)
    requires InRange(c) && Reached(c, s) && Booted(s) && p in c.feed.chain && c.cursor < p.block
    requires Forwarded(s.feed, p) || Before(p, s.feed.floor)
    requires s.settler.pending == map[] && s.feed.channel == [] && s.feed.inFlight.None?
    requires s.feed.gaps == [] && s.feed.toFill == []
    ensures Applied(c, s, p) == 1
  {
    hide Reached, Applied, TimesApplied;
    AppliedOnce(c, s, p);
    S.HeldNothing();
    ChainOrder(p, s.feed.floor, p);
  }
}

// src/collector/event_processor.rs: a batch applied pool by pool, and what that is equal to.
module EventProcessor {
  /** A log of some pool; `isSwap` says whether its topic is one a consumer wants. */
  datatype Log<D> = Log(address: int, isSwap: bool, data: D)

  /** How a pool applies a log. A pool that fails may still have changed. */
  type ApplyLog<!P, !D> = (P, D) -> (P, bool)

  type Registry<P> = map<int, P>

  // ---- One log at a time, in chain order ----

  function ApplyOne<P, D>(registry: Registry<P>, log: Log<D>, apply: ApplyLog<P, D>): Registry<P> {
    if log.address in registry then registry[log.address := apply(registry[log.address], log.data).0] else registry
  }

  function ApplyEach<P, D>(registry: Registry<P>, logs: seq<Log<D>>, apply: ApplyLog<P, D>): Registry<P>
    decreases logs
  {
    if logs == [] then registry else ApplyEach(ApplyOne(registry, logs[0], apply), logs[1..], apply)
  }

  // ---- Grouped by pool ----

  function LogsOf<D>(logs: seq<Log<D>>, address: int): seq<Log<D>> {
    if logs == [] then []
    else (if logs[0].address == address then [logs[0]] else []) + LogsOf(logs[1..], address)
  }

  function ApplyToPool<P, D>(pool: P, logs: seq<Log<D>>, apply: ApplyLog<P, D>): P
    decreases logs
  {
    if logs == [] then pool else ApplyToPool(apply(pool, logs[0].data).0, logs[1..], apply)
  }

  /** The grouping loop: each pool's logs in the order they came, and the order pools were first seen in. */
  method GroupByPool<D>(logs: seq<Log<D>>) returns (groups: map<int, seq<Log<D>>>, order: seq<int>)
    ensures Grouped(logs, groups, order)
  {
    GroupedNone<D>();
    hide LogsOf, Grouped;
    groups, order := map[], [];
    var i := 0;
    assert logs[..0] == [];
    while i < |logs|
      invariant i <= |logs| && Grouped(logs[..i], groups, order)
    {
      var log := logs[i];
      assert logs[..i + 1] == logs[..i] + [log];
      GroupedSnoc(logs[..i], groups, order, log);
      if log.address !in groups {
        order := order + [log.address];
      }
      groups := groups[log.address := if log.address in groups then groups[log.address] + [log] else [log]];
      i := i + 1;
    }
    assert logs[..|logs|] == logs;
  }

  /** Every pool with a log, once, each with its own logs in the order they came. */
  ghost predicate Grouped<D>(logs: seq<Log<D>>, groups: map<int, seq<Log<D>>>, order: seq<int>) {
    && (forall a :: a in groups <==> a in order)
    && (forall a :: a in order <==> LogsOf(logs, a) != [])
    && (forall a | a in groups :: groups[a] == LogsOf(logs, a))
    && (forall i, j :: 0 <= i < j < |order| ==> order[i] != order[j])
  }

  lemma {:induction false} LogsOfConcat<D>(one: seq<Log<D>>, two: seq<Log<D>>, a: int)
    ensures LogsOf(one + two, a) == LogsOf(one, a) + LogsOf(two, a)
    decreases one
  {
    hide LogsOf;
    if one == [] {
      NoLogs<D>();
      assert one + two == two;
    } else {
      assert one == [one[0]] + one[1..] && one + two == [one[0]] + (one[1..] + two);
      LogsOfConcat(one[1..], two, a);
      LogsOfHead(one[0], one[1..], a);
      LogsOfHead(one[0], one[1..] + two, a);
    }
  }

  lemma LogsOfHead<D>(x: Log<D>, rest: seq<Log<D>>, a: int)
    ensures LogsOf([x] + rest, a) == (if x.address == a then [x] else []) + LogsOf(rest, a)
  {
    assert ([x] + rest)[1..] == rest;
  }

  lemma GroupedNone<D>()
    ensures Grouped<D>([], map[], [])
  {
  }

  lemma GroupedSnoc<D>(logs: seq<Log<D>>, groups: map<int, seq<Log<D>>>, order: seq<int>, log: Log<D>)
    requires Grouped(logs, groups, order)
    ensures Grouped(logs + [log],
                    groups[log.address := if log.address in groups then groups[log.address] + [log] else [log]],
                    if log.address in groups then order else order + [log.address])
  {
    forall a ensures LogsOf(logs + [log], a) == LogsOf(logs, a) + if log.address == a then [log] else [] {
      LogsOfConcat(logs, [log], a);
      assert [log][1..] == [];
    }
    hide LogsOf;
    if log.address in groups {
      GroupedOld(logs, groups, order, log);
    } else {
      OrderSnoc(order, log.address);
      GroupedNew(logs, groups, order, log);
    }
  }

  lemma GroupedOld<D>(logs: seq<Log<D>>, groups: map<int, seq<Log<D>>>, order: seq<int>, log: Log<D>)
    requires Grouped(logs, groups, order) && log.address in groups
    requires forall a :: LogsOf(logs + [log], a) == LogsOf(logs, a) + if log.address == a then [log] else []
    ensures Grouped(logs + [log], groups[log.address := groups[log.address] + [log]], order)
  {
    hide LogsOf;
  }

  lemma GroupedNew<D>(logs: seq<Log<D>>, groups: map<int, seq<Log<D>>>, order: seq<int>, log: Log<D>)
    requires Grouped(logs, groups, order) && log.address !in groups
    requires forall a :: LogsOf(logs + [log], a) == LogsOf(logs, a) + if log.address == a then [log] else []
    requires forall i, j :: 0 <= i < j < |order + [log.address]| ==> (order + [log.address])[i] != (order + [log.address])[j]
    requires forall a :: a in order + [log.address] <==> a in order || a == log.address
    ensures Grouped(logs + [log], groups[log.address := [log]], order + [log.address])
  {
    hide LogsOf;
    assert LogsOf(logs, log.address) == [];
  }

  lemma OrderSnoc(order: seq<int>, last: int)
    requires last !in order && forall i, j :: 0 <= i < j < |order| ==> order[i] != order[j]
    ensures forall i, j :: 0 <= i < j < |order + [last]| ==> (order + [last])[i] != (order + [last])[j]
    ensures forall a :: a in order + [last] <==> a in order || a == last
  {
  }

  // ---- The two agree ----

  lemma {:induction false} EachByPool<P, D>(registry: Registry<P>, logs: seq<Log<D>>, apply: ApplyLog<P, D>)
    ensures ApplyEach(registry, logs, apply).Keys == registry.Keys
    ensures forall a | a in registry ::
              ApplyEach(registry, logs, apply)[a] == ApplyToPool(registry[a], LogsOf(logs, a), apply)
    decreases logs
  {
    if logs != [] {
      var next := ApplyOne(registry, logs[0], apply);
      EachByPool(next, logs[1..], apply);
      forall a | a in registry
        ensures ApplyEach(registry, logs, apply)[a] == ApplyToPool(registry[a], LogsOf(logs, a), apply)
      {
        var rest := LogsOf(logs[1..], a);
        if logs[0].address == a {
          assert LogsOf(logs, a) == [logs[0]] + rest && ([logs[0]] + rest)[1..] == rest;
        } else {
          assert LogsOf(logs, a) == rest;
        }
      }
    }
  }

  /** The swaps among a pool's logs. */
  function Swaps<D>(logs: seq<Log<D>>): seq<Log<D>> {
    if logs == [] then [] else (if logs[0].isSwap then [logs[0]] else []) + Swaps(logs[1..])
  }

  lemma {:induction false} SwapsOfPool<D>(logs: seq<Log<D>>, address: int, a: int)
    requires forall l | l in logs :: l.address == address
    ensures LogsOf(Swaps(logs), a) == if a == address then Swaps(logs) else []
    decreases logs
  {
    if logs != [] {
      SwapsOfPool(logs[1..], address, a);
      LogsOfConcat(if logs[0].isSwap then [logs[0]] else [], Swaps(logs[1..]), a);
      assert [logs[0]][1..] == [];
    }
  }

  lemma {:induction false} LogsOfAddress<D>(logs: seq<Log<D>>, a: int)
    ensures forall l | l in LogsOf(logs, a) :: l.address == a
    decreases logs
  {
    if logs != [] {
      LogsOfAddress(logs[1..], a);
    }
  }

  /** The swaps one pool adds to those collected. */
  lemma SwapsGrow<D>(swaps: seq<Log<D>>, logs: seq<Log<D>>, address: int)
    requires forall l | l in logs :: l.address == address
    ensures forall a :: LogsOf(swaps + Swaps(logs), a) == LogsOf(swaps, a) + if a == address then Swaps(logs) else []
  {
    forall a ensures LogsOf(swaps + Swaps(logs), a) == LogsOf(swaps, a) + if a == address then Swaps(logs) else [] {
      LogsOfConcat(swaps, Swaps(logs), a);
      SwapsOfPool(logs, address, a);
    }
  }

  /** The application loop, over pools in any order that names each group once. */
  method ApplyGrouped<P, D>(registry: Registry<P>, logs: seq<Log<D>>, groups: map<int, seq<Log<D>>>, order: seq<int>,
                            apply: ApplyLog<P, D>)
    returns (after: Registry<P>, swaps: seq<Log<D>>)
    requires Grouped(logs, groups, order)
    ensures after.Keys == registry.Keys
    ensures forall a | a in registry :: after[a] == ApplyToPool(registry[a], LogsOf(logs, a), apply)
    ensures forall a :: LogsOf(swaps, a) == if a in registry then Swaps(LogsOf(logs, a)) else []
  {
    hide LogsOf, ApplyToPool, Swaps;
    after, swaps := registry, [];
    NoLogs<D>();
    var i := 0;
    while i < |order|
      invariant i <= |order| && after.Keys == registry.Keys
      invariant forall a | a in registry ::
                  after[a] == if a in order[..i] then ApplyToPool(registry[a], groups[a], apply) else registry[a]
      invariant forall a :: LogsOf(swaps, a) == if a in order[..i] && a in registry then Swaps(groups[a]) else []
    {
      var address := order[i];
      if address in after {
        LogsOfAddress(logs, address);
        SwapsGrow(swaps, groups[address], address);
        var pool := ApplyAll(after[address], groups[address], apply);
        after := after[address := pool];
        swaps := swaps + Swaps(groups[address]);
      }
      assert order[..i + 1] == order[..i] + [order[i]];
      i := i + 1;
    }
    assert order[..|order|] == order;
    forall a | a in registry && a !in groups ensures ApplyToPool(registry[a], LogsOf(logs, a), apply) == registry[a] {
      NothingToApply(registry[a], apply);
    }
  }

  lemma NoLogs<D>()
    ensures forall a :: LogsOf<D>([], a) == []
    ensures Swaps<D>([]) == []
  {
  }

  lemma NothingToApply<P, D>(pool: P, apply: ApplyLog<P, D>)
    ensures ApplyToPool(pool, [], apply) == pool
  {
  }

  /** A pool's own logs in order; an error is reported, and the next log applied all the same. */
  method ApplyAll<P, D>(pool: P, logs: seq<Log<D>>, apply: ApplyLog<P, D>) returns (after: P)
    ensures after == ApplyToPool(pool, logs, apply)
  {
    after := pool;
    var i := 0;
    while i < |logs|
      invariant i <= |logs|
      invariant ApplyToPool(after, logs[i..], apply) == ApplyToPool(pool, logs, apply)
    {
      assert logs[i..][1..] == logs[i + 1..];
      var (next, ok) := apply(after, logs[i].data);
      after := next;
      i := i + 1;
    }
  }

  /**
   * A batch grouped by pool leaves the registry exactly as log by log in chain order: for every
   * batch, registry and way of applying, failing logs and logs of unknown pools included. The swaps
   * sent on are those of the known pools, each pool's in order.
   */
  method ProcessConfirmedEvents<P, D>(registry: Registry<P>, logs: seq<Log<D>>, apply: ApplyLog<P, D>)
    returns (after: Registry<P>, swaps: seq<Log<D>>)
    ensures after == ApplyEach(registry, logs, apply)
    ensures forall a :: LogsOf(swaps, a) == if a in registry then Swaps(LogsOf(logs, a)) else []
  {
    var groups, order := GroupByPool(logs);
    after, swaps := ApplyGrouped(registry, logs, groups, order, apply);
    EachByPool(registry, logs, apply);
    SameRegistry(after, ApplyEach(registry, logs, apply));
  }

  lemma SameRegistry<P>(one: map<int, P>, two: map<int, P>)
    requires one.Keys == two.Keys && forall a | a in one.Keys :: one[a] == two[a]
    ensures one == two
  {
    forall a | a in one.Keys ensures one[a] == two[a] {
    }
  }
}

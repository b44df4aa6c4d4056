// src/collector/event_queue.rs: the queue between the websocket listeners and the block source, with
// its bounded table of recent logs and the gaps the listeners noted.
module EventQueue {
  import opened Results
  import opened Arith
  import opened Positions

  /** Positions a feed lost: after `after` (from wherever catch-up ended, if none) and before `before`. */
  datatype Gap = Gap(after: Option<LogPosition>, before: LogPosition)

  /** Enter a key in the table of recent ones, oldest first; false if it is there already. */
  function RecordIn<K(==)>(order: seq<K>, maxEvents: nat, key: K): (bool, seq<K>) {
    if key in order then (false, order)
    else (true, (if order != [] && |order| >= maxEvents then order[1..] else order) + [key])
  }

  type Key = (nat, nat)

  datatype QueuedLog = QueuedLog(hash: Option<nat>, index: Option<nat>, payload: nat)

  function KeyOf(log: QueuedLog): Result<Key> {
    if log.hash.None? then Failure("Log missing transaction hash")
    else if log.index.None? then Failure("Log missing log index")
    else Success((log.hash.value, log.index.value))
  }

  /** The map and the order hold the same keys, each once. */
  ghost predicate TableSound(recent: map<Key, QueuedLog>, order: seq<Key>) {
    && (forall k :: k in recent <==> k in order)
    && (forall i, j :: 0 <= i < j < |order| ==> order[i] != order[j])
    && |recent| == |order|
  }

  lemma TableKeys(recent: map<Key, QueuedLog>, order: seq<Key>)
    requires TableSound(recent, order)
    ensures |recent| == |order| && forall k :: k in recent <==> k in order
  {
  }

  lemma TableForgets(recent: map<Key, QueuedLog>, order: seq<Key>)
    requires TableSound(recent, order) && order != []
    ensures TableSound(recent - {order[0]}, order[1..])
  {
    var oldest := order[0];
    assert recent.Keys == (recent - {oldest}).Keys + {oldest};
    assert forall k :: k in order <==> k == oldest || k in order[1..];
  }

  lemma TableEnters(recent: map<Key, QueuedLog>, order: seq<Key>, key: Key, log: QueuedLog)
    requires TableSound(recent, order) && key !in recent
    ensures TableSound(recent[key := log], order + [key])
  {
    assert recent[key := log].Keys == recent.Keys + {key};
    assert forall k :: k in order + [key] <==> k in order || k == key;
  }

  class EventSender {
    const maxEvents: nat
    var recent: map<Key, QueuedLog>
    var order: seq<Key>
    var channel: seq<QueuedLog>
    var gaps: seq<Gap>

    /** The table is sound, and no larger than it may be. */
    ghost predicate Valid()
      reads this
    {
      TableSound(recent, order) && |order| <= Max(maxEvents, 1)
    }

    constructor (maxEvents: nat)
      ensures Valid() && order == [] && channel == [] && gaps == [] && this.maxEvents == maxEvents
    {
      this.maxEvents := maxEvents;
      recent, order, channel, gaps := map[], [], [], [];
    }

    method NoteGap(gap: Gap)
      requires Valid()
      modifies this`gaps
      ensures Valid() && gaps == old(gaps) + [gap]
    {
      gaps := gaps + [gap];
    }

    method TakeGaps() returns (taken: seq<Gap>)
      requires Valid()
      modifies this`gaps
      ensures Valid() && taken == old(gaps) && gaps == []
    {
      taken := gaps;
      gaps := [];
    }

    method Record(log: QueuedLog) returns (r: Result<bool>)
      requires Valid()
      modifies this`recent, this`order
      ensures Valid()
      ensures KeyOf(log).Failure? ==> r.Failure? && order == old(order)
      ensures KeyOf(log).Success? ==> RecordIn(old(order), maxEvents, KeyOf(log).value) == (r == Success(true), order)
      ensures KeyOf(log).Success? ==> r.Success?
    {
      hide TableSound;
      TableKeys(recent, order);
      var key :- KeyOf(log);
      if key in recent {
        return Success(false);
      }
      if |recent| >= maxEvents {
        if order != [] {
          TableForgets(recent, order);
          recent := recent - {order[0]};
          order := order[1..];
        }
      }
      TableEnters(recent, order, key, log);
      recent := recent[key := log];
      order := order + [key];
      return Success(true);
    }

    method Send(log: QueuedLog) returns (r: Result<()>)
      requires Valid()
      modifies this`recent, this`order, this`channel
      ensures Valid()
      ensures KeyOf(log).Failure? ==> r.Failure? && order == old(order) && channel == old(channel)
      ensures KeyOf(log).Success? ==> (
                var entered := RecordIn(old(order), maxEvents, KeyOf(log).value);
                r.Success? && order == entered.1 && channel == if entered.0 then old(channel) + [log] else old(channel))
    {
      var isNew :- Record(log);
      if !isNew {
        return Success(());
      }
      channel := channel + [log];
      return Success(());
    }

    method Drain() returns (events: seq<QueuedLog>)
      requires Valid()
      modifies this`channel
      ensures Valid() && events == old(channel) && channel == []
    {
      events := channel;
      channel := [];
    }
  }

  // ---- What the bounded table remembers ----

  /** The keys the table accepted, oldest first, and the table after them. */
  function Accepted<K(==)>(keys: seq<K>, maxEvents: nat): (seq<K>, seq<K>) {
    if keys == [] then ([], [])
    else
      var (accepted, order) := Accepted(keys[..|keys| - 1], maxEvents);
      var (isNew, next) := RecordIn(order, maxEvents, keys[|keys| - 1]);
      (if isNew then accepted + [keys[|keys| - 1]] else accepted, next)
  }

  function Newest<K>(s: seq<K>, n: nat): seq<K> {
    if |s| <= n then s else s[|s| - n..]
  }

  /** The table is always the newest accepted keys, as many as it may hold. */
  lemma {:induction false} TableHoldsNewest<K>(keys: seq<K>, maxEvents: nat)
    ensures var (accepted, order) := Accepted(keys, maxEvents); order == Newest(accepted, Max(maxEvents, 1))
    decreases keys
  {
    if keys != [] {
      TableHoldsNewest(keys[..|keys| - 1], maxEvents);
    }
  }

  /** So a key is accepted again only after more than that many others: no repeat comes sooner. */
  lemma {:induction false} NoEarlyRepeat<K>(keys: seq<K>, maxEvents: nat, i: nat, j: nat)
    requires var (accepted, _) := Accepted(keys, maxEvents); i < j < |accepted| && accepted[i] == accepted[j]
    ensures j - i > Max(maxEvents, 1)
    decreases keys
  {
    var earlier := keys[..|keys| - 1];
    TableHoldsNewest(earlier, maxEvents);
    var (before, order) := Accepted(earlier, maxEvents);
    if j < |before| {
      NoEarlyRepeat(earlier, maxEvents, i, j);
    }
  }
}

// src/collector/websocket_listener.rs: `FeedProgress`, three fields that place a listener in the chain,
// as a class and as the value it stands for.
module Feed {
  import opened Results
  import opened Positions
  import opened EventQueue

  datatype Progress = Progress(subscribedBefore: bool, last: Option<LogPosition>, gapOpen: bool)

  const NEW_FEED := Progress(false, None, false)

  function Subscribed(p: Progress): Progress {
    p.(subscribedBefore := true, gapOpen := true)
  }

  function Lagged(p: Progress): Progress {
    p.(gapOpen := true)
  }

  /** The greater of two optional positions, none being the least. */
  function Later(a: Option<LogPosition>, b: LogPosition): LogPosition {
    if a.Some? && Before(b, a.value) then a.value else b
  }

  /** The progress that follows a log, paired with the gap it ends; a retraction, or a missing coordinate, leaves both alone. */
  function Forwarding(p: Progress, position: Option<LogPosition>, removed: bool): (Progress, Option<Gap>) {
    if removed || position.None? then (p, None)
    else
      (p.(gapOpen := false, last := Some(Later(p.last, position.value))),
       if p.gapOpen then Some(Gap(p.last, position.value)) else None)
  }

  class FeedProgress {
    var subscribedBefore: bool
    var lastForwarded: Option<LogPosition>
    var gapOpen: bool

    function Value(): Progress
      reads this
    {
      Progress(subscribedBefore, lastForwarded, gapOpen)
    }

    constructor ()
      ensures Value() == NEW_FEED
    {
      subscribedBefore, lastForwarded, gapOpen := false, None, false;
    }

    method Subscribe() returns (resubscribed: bool)
      modifies this
      ensures Value() == Subscribed(old(Value())) && resubscribed == old(subscribedBefore)
    {
      resubscribed := subscribedBefore;
      subscribedBefore := true;
      gapOpen := true;
    }

    method Lag()
      modifies this`gapOpen
      ensures Value() == Lagged(old(Value()))
    {
      gapOpen := true;
    }

    /** The last position never goes back, and an open gap ends, once, at the log about to go on. */
    method Forward(position: Option<LogPosition>, removed: bool) returns (gap: Option<Gap>)
      modifies this
      ensures old(lastForwarded).Some? ==>
                lastForwarded.Some? && IsAtOrAfter(lastForwarded.value, old(lastForwarded).value)
      ensures !removed && position.Some? ==>
                lastForwarded.Some? && IsAtOrAfter(lastForwarded.value, position.value) && !gapOpen
      ensures gap == if old(gapOpen) && !removed && position.Some? then Some(Gap(old(lastForwarded), position.value)) else None
      ensures gap.Some? ==> !gapOpen
      ensures (Value(), gap) == Forwarding(old(Value()), position, removed)
    {
      if removed || position.None? {
        return None;
      }
      gap := if gapOpen then Some(Gap(lastForwarded, position.value)) else None;
      gapOpen := false;
      lastForwarded := Some(Later(lastForwarded, position.value));
    }
  }
}

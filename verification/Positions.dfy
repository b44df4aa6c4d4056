// src/collector/block_source.rs: the chain order of logs.
module Positions {
  /** (block number, transaction index, log index). */
  datatype LogPosition = Position(block: nat, tx: nat, log: nat)

  /** The lexicographic order of the three coordinates. */
  predicate Before(a: LogPosition, b: LogPosition) {
    a.block < b.block || (a.block == b.block && (a.tx < b.tx || (a.tx == b.tx && a.log < b.log)))
  }

  predicate IsAtOrAfter(position: LogPosition, boundary: LogPosition) {
    position.block > boundary.block
    || (position.block == boundary.block
        && (position.tx > boundary.tx || (position.tx == boundary.tx && position.log >= boundary.log)))
  }

  /** Chain order is a strict total order, and "at or after" is its complement. */
  lemma ChainOrder(a: LogPosition, b: LogPosition, c: LogPosition)
    ensures IsAtOrAfter(a, b) <==> !Before(a, b)
    ensures Before(a, b) || a == b || Before(b, a)
    ensures !(Before(a, b) && Before(b, a)) && !Before(a, a)
    ensures Before(a, b) && Before(b, c) ==> Before(a, c)
  {
  }

  /** Comparing the coordinates one by one instead misses exactly the later positions with a smaller lower one. */
  lemma CoordinatewiseMisses(a: LogPosition, b: LogPosition)
    ensures IsAtOrAfter(a, b) && !(a.block >= b.block && a.tx >= b.tx && a.log >= b.log)
       <==> (a.block > b.block && (a.tx < b.tx || a.log < b.log)) || (a.block == b.block && a.tx > b.tx && a.log < b.log)
  {
  }

  /** Logs in chain order, each once. */
  predicate InChainOrder(s: seq<LogPosition>) {
    forall i, j :: 0 <= i < j < |s| ==> Before(s[i], s[j])
  }
}

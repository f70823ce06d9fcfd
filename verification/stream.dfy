/**
 * A child operator as its parent sees it: a fixed sequence of tuples handed
 * out one per getNextTuple call, null (None) once exhausted, and a reset that
 * starts the sequence again.
 */
module Streams {
  import opened Wrappers
  import opened Tuples

  class Stream {
    /** Every tuple the child produces, in order. */
    const items: seq<Tuple>
    /** How many of them have been handed out since the last reset. */
    var pos: nat

    ghost predicate Valid()
      reads this
    {
      pos <= |items|
    }

    /** The tuples still to come. */
    ghost function Remaining(): seq<Tuple>
      reads this
      requires Valid()
    {
      items[pos..]
    }

    constructor(items: seq<Tuple>)
      ensures Valid() && this.items == items && pos == 0
    {
      this.items := items;
      pos := 0;
    }

    /** getNextTuple: the next tuple, or None for ever once the sequence is used up. */
    method GetNextTuple() returns (t: Option<Tuple>)
      requires Valid()
      modifies this
      ensures Valid()
      ensures old(pos) < |items| ==> t == Some(items[old(pos)]) && pos == old(pos) + 1
      ensures old(pos) == |items| ==> t == None && pos == old(pos)
    {
      if pos < |items| {
        t := Some(items[pos]);
        pos := pos + 1;
      } else {
        t := None;
      }
    }

    /** reset: the next call starts again from the first tuple. */
    method Reset()
      requires Valid()
      modifies this
      ensures Valid() && pos == 0
    {
      pos := 0;
    }
  }

  /** A prefix one element longer is the prefix with that element appended. */
  lemma PrefixSnoc<T>(xs: seq<T>, n: nat)
    requires n < |xs|
    ensures xs[..n + 1] == xs[..n] + [xs[n]]
  {
  }
}

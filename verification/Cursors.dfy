/** Where an iterator stands in a list, and how it steps. */
module Cursors {

  datatype Cursor = Off | At(i: nat)

  predicate On<T>(s: seq<T>, c: Cursor) { c.At? ==> c.i < |s| }

  function Normal<T>(s: seq<T>, i: int): (c: Cursor)
    ensures On(s, c)
  {
    if 0 <= i < |s| then At(i) else Off
  }

  function First<T>(s: seq<T>): Cursor { Normal(s, 0) }

  function Last<T>(s: seq<T>): Cursor { Normal(s, |s| - 1) }

  function Next<T>(s: seq<T>, c: Cursor): Cursor { if c.At? then Normal(s, c.i + 1) else Off }

  function Prev<T>(s: seq<T>, c: Cursor): Cursor { if c.At? then Normal(s, c.i - 1) else Off }
}

/** Facts that are taken up only where they are asked for: a predicate guarded by Asked stays folded until then. */
module Guards {
  ghost predicate Asked(i: int) { true }
}

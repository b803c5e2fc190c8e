/** The correlation map and the correlation ids of one connection. */
module Pending {
  import opened Options
  import opened Modulo

  /** Waiters by correlation id, or nothing once the connection is dead. */
  type Waiters = Option<map<int, nat>>

  function Registered(w: Waiters, id: int, tx: nat): Waiters {
    if w.Some? then Some(w.value[id := tx]) else None
  }

  function Taken(w: Waiters, id: int): Waiters {
    if w.Some? then Some(w.value - {id}) else None
  }

  function Lookup(w: Waiters, id: int): Option<nat> {
    if w.Some? && id in w.value then Some(w.value[id]) else None
  }

  /** Every waiter the table lists. */
  function Listed(w: Waiters): set<nat> {
    if w.Some? then set id | id in w.value :: w.value[id] else {}
  }

  /** `struct Pending`, its lock held for the length of each call. */
  class Table {
    var waiters: Waiters

    constructor ()
      ensures waiters == Some(map[])
    {
      waiters := Some(map[]);
    }

    /** Register a waiter, or report the connection dead; a waiter already under
        the id is displaced. */
    method Register(id: int, tx: nat) returns (ok: bool)
      modifies this
      ensures ok == old(waiters).Some?
      ensures waiters == Registered(old(waiters), id, tx)
    {
      match waiters
      case Some(m) =>
        waiters := Some(m[id := tx]);
        ok := true;
      case None =>
        ok := false;
    }

    method Take(id: int) returns (tx: Option<nat>)
      modifies this
      ensures tx == Lookup(old(waiters), id) && Lookup(waiters, id) == None
      ensures waiters == Taken(old(waiters), id)
    {
      tx := None;
      if waiters.Some? {
        var m := waiters.value;
        if id in m {
          tx := Some(m[id]);
        }
        waiters := Some(m - {id});
      }
    }

    /** Mark dead and hand back every waiter, to be told so; a second close
        finds none. */
    method Close() returns (drained: set<nat>)
      modifies this
      ensures waiters == None
      ensures drained == Listed(old(waiters))
    {
      drained := Listed(waiters);
      waiters := None;
    }

    method IsClosed() returns (closed: bool)
      ensures closed <==> waiters == None
    {
      closed := waiters.None?;
    }
  }

  // --------------------------------------------------------------- correlation ids

  /** Ids repeat after this many. */
  const CYCLE: int := 0x8000_0000

  /** `fetch_add(1)` on an `i32`: past the largest value comes the smallest. */
  function Increment(raw: int): int {
    if raw + 1 == CYCLE then -CYCLE else raw + 1
  }

  /** `raw & i32::MAX`: the sign bit cleared. */
  function Masked(raw: int): int {
    if raw < 0 then raw + CYCLE else raw
  }

  /** The counter after `n` allocations, starting from 1. */
  function Counter(n: nat): int {
    if n == 0 then 1 else Increment(Counter(n - 1))
  }

  /** The n-th id handed out: consecutive, modulo 2^31. */
  lemma {:induction false} IdsConsecutive(n: nat)
    ensures -0x8000_0000 <= Counter(n) < 0x8000_0000
    ensures Masked(Counter(n)) == (n + 1) % 0x8000_0000
  {
    if n > 0 {
      IdsConsecutive(n - 1);
      Successor(n, CYCLE);
    }
  }

  /** Two allocations less than a cycle apart never share an id. */
  lemma DistinctWithinCycle(a: nat, b: nat)
    requires a < b < a + 0x8000_0000
    ensures Masked(Counter(a)) != Masked(Counter(b))
  {
    IdsConsecutive(a);
    IdsConsecutive(b);
    Apart(a + 1, b + 1, CYCLE);
  }

  /** A whole cycle apart they always do. */
  lemma SameAfterCycle(a: nat)
    ensures Masked(Counter(a)) == Masked(Counter(a + 0x8000_0000))
  {
    IdsConsecutive(a);
    IdsConsecutive(a + CYCLE);
    Rotations(a + 1, 1, CYCLE);
  }
}

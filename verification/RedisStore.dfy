/** The shared Redis counters: INCR and EXPIRE on string keys, with a millisecond clock. */
module RedisStore {
  import opened Sequences

  type Key = string

  /** A counter and, once EXPIRE has reached it, the time at which it disappears. */
  datatype Cell = Cell(count: nat, deadline: Option<nat>)

  type Store = map<Key, Cell>

  predicate Live(c: Cell, now: nat) {
    c.deadline.Some? ==> now < c.deadline.value
  }

  predicate Holds(cells: Store, now: nat, key: Key) {
    key in cells && Live(cells[key], now)
  }

  /** The value that INCR leaves and replies: an absent or expired counter restarts at 1. */
  function IncrReply(cells: Store, now: nat, key: Key): nat {
    if Holds(cells, now, key) then cells[key].count + 1 else 1
  }

  /** INCR keeps the deadline of a live counter and creates a new one without a deadline. */
  function AfterIncr(cells: Store, now: nat, key: Key): Store {
    cells[key := Cell(IncrReply(cells, now, key), if Holds(cells, now, key) then cells[key].deadline else None)]
  }

  /** EXPIRE has no effect on an absent or expired counter. */
  function AfterExpire(cells: Store, now: nat, key: Key, ttl: nat): Store {
    if Holds(cells, now, key) then cells[key := cells[key].(deadline := Some(now + ttl))] else cells
  }

  /** EXPIRE is still to be sent at most once per key, and only for a counter without a deadline. */
  ghost predicate OneSender(cells: Store, waiting: multiset<Key>) {
    && (forall key :: key in cells ==> cells[key].count >= 1)
    && (forall key :: key in waiting ==> waiting[key] == 1 && key in cells && cells[key].deadline == None)
  }

  /** A counter that starts afresh had a deadline or did not exist, so nobody was to send EXPIRE for it. */
  lemma IncrKeepsSender(cells: Store, waiting: multiset<Key>, now: nat, key: Key)
    requires OneSender(cells, waiting)
    ensures OneSender(AfterIncr(cells, now, key), waiting)
    ensures IncrReply(cells, now, key) == 1 ==>
      key !in waiting && OneSender(AfterIncr(cells, now, key), waiting + multiset{key})
  {
  }

  lemma ExpireKeepsSender(cells: Store, waiting: multiset<Key>, now: nat, key: Key, ttl: nat)
    requires OneSender(cells, waiting) && key in waiting
    ensures OneSender(cells, waiting - multiset{key})
    ensures OneSender(AfterExpire(cells, now, key, ttl), waiting - multiset{key})
    ensures key in AfterExpire(cells, now, key, ttl)
    ensures AfterExpire(cells, now, key, ttl)[key].deadline == Some(now + ttl)
  {
  }

  class Redis {
    var now: nat
    var cells: Store

    constructor (start: nat)
      ensures now == start && cells == map[]
    {
      now, cells := start, map[];
    }

    method Incr(key: Key) returns (count: nat)
      modifies this`cells
      ensures count == IncrReply(old(cells), now, key) && cells == AfterIncr(old(cells), now, key)
    {
      if key in cells && Live(cells[key], now) {
        cells := cells[key := cells[key].(count := cells[key].count + 1)];
      } else {
        cells := cells[key := Cell(1, None)];
      }
      count := cells[key].count;
    }

    method Expire(key: Key, ttl: nat)
      modifies this`cells
      ensures cells == AfterExpire(old(cells), now, key, ttl)
    {
      if key in cells && Live(cells[key], now) {
        cells := cells[key := Cell(cells[key].count, Some(now + ttl))];
      }
    }

    method Advance(ms: nat)
      modifies this`now
      ensures now == old(now) + ms
    {
      now := now + ms;
    }
  }

  /** What became of one INCR: answered, never applied, or applied with the answer lost. */
  datatype Outcome = Replied | NotApplied | ReplyLost
}

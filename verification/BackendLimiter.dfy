/** The backend's limiter: one counter per remote address, expiring a minute after its creator's
    EXPIRE is executed. */
module BackendLimiter {
  import opened Sequences
  import opened RedisStore

  const LIMIT := 100
  const MINUTE_MS := 60000

  function AddrKey(addr: string): Key {
    "ratelimit:" + addr
  }

  lemma AddrKeyInjective(a: string, b: string)
    requires AddrKey(a) == AddrKey(b)
    ensures a == b
  {
    var pre := "ratelimit:";
    assert AddrKey(a)[|pre|..] == a && AddrKey(b)[|pre|..] == b;
  }

  // ---------- the protocol, one atomic step at a time

  /** One request; `count` is the counter value it produced, 0 when its INCR was not applied. */
  datatype Served = Served(time: nat, addr: string, outcome: Outcome, count: nat, admitted: bool)

  datatype State = State(now: nat, cells: Store, waiting: multiset<Key>, log: seq<Served>)

  datatype Event =
    | Advance(ms: nat)
    | Request(addr: string, outcome: Outcome)
    | SendExpire(key: Key, delivered: bool)

  function Init(start: nat): State {
    State(start, map[], multiset{}, [])
  }

  /** A Redis error lets the request through; otherwise the counter decides. */
  function AfterRequest(s: State, addr: string, outcome: Outcome): State {
    var key := AddrKey(addr);
    var count := if outcome == NotApplied then 0 else IncrReply(s.cells, s.now, key);
    s.(cells := if outcome == NotApplied then s.cells else AfterIncr(s.cells, s.now, key),
       waiting := if outcome == Replied && count == 1 then s.waiting + multiset{key} else s.waiting,
       log := s.log + [Served(s.now, addr, outcome, count, outcome != Replied || count <= LIMIT)])
  }

  function Step(s: State, e: Event): State {
    match e
    case Advance(ms) => s.(now := s.now + ms)
    case Request(addr, outcome) => AfterRequest(s, addr, outcome)
    case SendExpire(key, delivered) =>
      if key !in s.waiting then s
      else s.(waiting := s.waiting - multiset{key},
              cells := if delivered then AfterExpire(s.cells, s.now, key, MINUTE_MS) else s.cells)
  }

  function Run(s: State, events: seq<Event>): State {
    if events == [] then s else Step(Run(s, events[..|events| - 1]), events[|events| - 1])
  }

  /** One request handled without interruption is the request step followed by its EXPIRE step. */
  method RateLimitMiddleware(redis: Redis, addr: string, outcome: Outcome, delivered: bool)
    returns (served: bool)
    modifies redis`cells
    ensures var t := AfterRequest(State(redis.now, old(redis.cells), multiset{}, []), addr, outcome);
      && redis.cells == Step(t, SendExpire(AddrKey(addr), delivered)).cells
      && served == t.log[0].admitted
    ensures served <==> outcome != Replied || IncrReply(old(redis.cells), redis.now, "ratelimit:" + addr) <= 100
  {
    var key := AddrKey(addr);
    if outcome == NotApplied {
      return true;
    }
    var count := redis.Incr(key);
    if outcome == ReplyLost {
      return true;
    }
    if count == 1 {
      if delivered { redis.Expire(key, MINUTE_MS); }
    }
    if count > LIMIT {
      return false;
    }
    return true;
  }

  // ---------- the counted requests of one address

  datatype Hit = Hit(time: nat, count: nat)

  /** The applied INCRs of one address, oldest first. */
  function Hits(log: seq<Served>, addr: string): seq<Hit> {
    if log == [] then []
    else
      var r := log[|log| - 1];
      WithHit(Hits(log[..|log| - 1], addr), r, addr)
  }

  function WithHit(h: seq<Hit>, r: Served, addr: string): seq<Hit> {
    if r.addr == addr && r.outcome != NotApplied then h + [Hit(r.time, r.count)] else h
  }

  /** The position of the hit that created the current counter. */
  function Birth(h: seq<Hit>): nat
    requires h != []
    ensures Birth(h) < |h|
  {
    if h[|h| - 1].count == 1 || |h| == 1 then |h| - 1 else Birth(h[..|h| - 1])
  }

  /** Within a life the counts rise by one, from 1. */
  ghost predicate CountsRise(h: seq<Hit>) {
    && (forall i :: 0 <= i < |h| ==> h[i].count >= 1 && (i == 0 ==> h[i].count == 1))
    && (forall i :: 0 < i < |h| ==> h[i].count == 1 || h[i].count == h[i - 1].count + 1)
  }

  /** Hits are in time order, and a new life starts strictly after the previous hit. */
  ghost predicate TimesOrdered(h: seq<Hit>) {
    && (forall i, j :: 0 <= i <= j < |h| ==> h[i].time <= h[j].time)
    && (forall i :: 0 < i < |h| && h[i].count == 1 ==> h[i - 1].time < h[i].time)
  }

  /** A life starts at least a minute after every earlier one. */
  ghost predicate StartsApart(h: seq<Hit>) {
    forall i, j :: 0 <= i < j < |h| && h[i].count == 1 && h[j].count == 1 ==> h[i].time + 60000 <= h[j].time
  }

  ghost predicate Lifetimes(h: seq<Hit>) {
    CountsRise(h) && TimesOrdered(h) && StartsApart(h)
  }

  lemma {:induction false} BirthCorrect(h: seq<Hit>)
    requires h != [] && CountsRise(h)
    ensures h[Birth(h)].count == 1
    ensures forall i :: Birth(h) < i < |h| ==> h[i].count != 1
  {
    if !(h[|h| - 1].count == 1 || |h| == 1) {
      BirthCorrect(h[..|h| - 1]);
    }
  }

  /** The stored counter is the last hit's count, and its deadline leaves its lifetime a full minute. */
  ghost predicate CellMatches(s: State, addr: string) {
    var h, key := Hits(s.log, addr), AddrKey(addr);
    && Lifetimes(h)
    && (forall i :: 0 <= i < |h| ==> h[i].time <= s.now)
    && (h == [] ==> key !in s.cells)
    && (h != [] ==>
         && key in s.cells
         && s.cells[key].count == h[|h| - 1].count
         && (s.cells[key].deadline.Some? ==>
              && h[|h| - 1].time < s.cells[key].deadline.value
              && h[Birth(h)].time + MINUTE_MS <= s.cells[key].deadline.value))
  }

  ghost predicate Inv(s: State) {
    && (forall addr :: CellMatches(s, addr))
    && (forall i :: 0 <= i < |s.log| ==>
         (s.log[i].admitted <==> s.log[i].outcome != Replied || s.log[i].count <= LIMIT))
  }

  lemma HitsStep(log: seq<Served>, r: Served, addr: string)
    ensures Hits(log + [r], addr) == WithHit(Hits(log, addr), r, addr)
  {
    assert (log + [r])[..|log + [r]| - 1] == log;
  }

  /** The next hit continues the current life, or starts a new one late enough. */
  ghost predicate Follows(h: seq<Hit>, x: Hit) {
    if h == [] then x.count == 1
    else
      && h[|h| - 1].time <= x.time
      && (x.count == h[|h| - 1].count + 1
          || (x.count == 1 && h[|h| - 1].time < x.time && h[Birth(h)].time + MINUTE_MS <= x.time))
  }

  lemma LifetimesExtend(h: seq<Hit>, x: Hit)
    requires Lifetimes(h) && Follows(h, x)
    ensures Lifetimes(h + [x])
    ensures Birth(h + [x]) == if x.count == 1 then |h| else Birth(h)
  {
    BirthStep(h, x);
    RiseExtend(h, x);
    OrderExtend(h, x);
    LastStart(h, x);
  }

  lemma BirthStep(h: seq<Hit>, x: Hit)
    requires Follows(h, x)
    ensures Birth(h + [x]) == if x.count == 1 then |h| else Birth(h)
  {
    assert (h + [x])[..|h + [x]| - 1] == h;
  }

  lemma LastStart(h: seq<Hit>, x: Hit)
    requires Lifetimes(h) && Follows(h, x)
    ensures StartsApart(h + [x])
  {
    if h != [] && x.count == 1 {
      BirthCorrect(h);
      StartsExtend(h, x);
    }
  }

  lemma RiseExtend(h: seq<Hit>, x: Hit)
    requires CountsRise(h) && Follows(h, x)
    ensures CountsRise(h + [x])
  {
  }

  lemma OrderExtend(h: seq<Hit>, x: Hit)
    requires CountsRise(h) && TimesOrdered(h) && Follows(h, x)
    ensures TimesOrdered(h + [x])
  {
  }

  lemma StartsExtend(h: seq<Hit>, x: Hit)
    requires h != [] && StartsApart(h) && TimesOrdered(h)
    requires forall i :: Birth(h) < i < |h| ==> h[i].count != 1
    requires h[Birth(h)].time + MINUTE_MS <= x.time
    ensures StartsApart(h + [x])
  {
    forall i | 0 <= i < |h| && h[i].count == 1 ensures h[i].time + MINUTE_MS <= x.time {
      assert i <= Birth(h);
      assert h[i].time <= h[Birth(h)].time;
    }
  }

  lemma RequestKeeps(s: State, addr: string, outcome: Outcome)
    requires Inv(s)
    ensures Inv(AfterRequest(s, addr, outcome))
  {
    var t := AfterRequest(s, addr, outcome);
    forall a ensures CellMatches(t, a) {
      assert CellMatches(s, a);
      if a == addr && outcome != NotApplied {
        CountedRequestKeeps(s, addr, outcome);
      } else {
        UncountedRequestKeeps(s, addr, outcome, a);
      }
    }
  }

  lemma UncountedRequestKeeps(s: State, addr: string, outcome: Outcome, a: string)
    requires CellMatches(s, a) && (a != addr || outcome == NotApplied)
    ensures CellMatches(AfterRequest(s, addr, outcome), a)
  {
    var t := AfterRequest(s, addr, outcome);
    HitsStep(s.log, t.log[|s.log|], a);
    assert Hits(t.log, a) == Hits(s.log, a);
    if a != addr && AddrKey(a) == AddrKey(addr) { AddrKeyInjective(a, addr); }
    SameCell(s, t, a);
  }

  lemma SameCell(s: State, t: State, a: string)
    requires CellMatches(s, a) && t.now == s.now && Hits(t.log, a) == Hits(s.log, a)
    requires AddrKey(a) in t.cells <==> AddrKey(a) in s.cells
    requires AddrKey(a) in s.cells ==> t.cells[AddrKey(a)] == s.cells[AddrKey(a)]
    ensures CellMatches(t, a)
  {
  }

  lemma CountedRequestKeeps(s: State, addr: string, outcome: Outcome)
    requires CellMatches(s, addr) && outcome != NotApplied
    ensures CellMatches(AfterRequest(s, addr, outcome), addr)
  {
    var h, x := Hits(s.log, addr), Hit(s.now, IncrReply(s.cells, s.now, AddrKey(addr)));
    var t := AfterRequest(s, addr, outcome);
    HitsStep(s.log, t.log[|s.log|], addr);
    assert Hits(t.log, addr) == h + [x];
    NextHitFollows(s, addr);
    LifetimesExtend(h, x);
    NextCellMatches(s, t, addr, h, x);
  }

  lemma NextCellMatches(s: State, t: State, addr: string, h: seq<Hit>, x: Hit)
    requires CellMatches(s, addr) && h == Hits(s.log, addr)
    requires x == Hit(s.now, IncrReply(s.cells, s.now, AddrKey(addr)))
    requires t.now == s.now && t.cells == AfterIncr(s.cells, s.now, AddrKey(addr))
    requires Hits(t.log, addr) == h + [x] && Lifetimes(h + [x])
    requires Birth(h + [x]) == if x.count == 1 then |h| else Birth(h)
    ensures CellMatches(t, addr)
  {
    if Holds(s.cells, s.now, AddrKey(addr)) {
      LiveCellMatches(s, t, addr, h, x);
    } else {
      FreshCellMatches(s, t, addr, h, x);
    }
  }

  lemma LiveCellMatches(s: State, t: State, addr: string, h: seq<Hit>, x: Hit)
    requires CellMatches(s, addr) && h == Hits(s.log, addr) && Holds(s.cells, s.now, AddrKey(addr))
    requires var c := s.cells[AddrKey(addr)];
      && x == Hit(s.now, c.count + 1) && t.now == s.now
      && t.cells == s.cells[AddrKey(addr) := Cell(c.count + 1, c.deadline)]
    requires Hits(t.log, addr) == h + [x] && Lifetimes(h + [x])
    requires Birth(h + [x]) == if x.count == 1 then |h| else Birth(h)
    ensures CellMatches(t, addr)
  {
    assert x.count != 1;
    assert (h + [x])[Birth(h)] == h[Birth(h)];
  }

  lemma FreshCellMatches(s: State, t: State, addr: string, h: seq<Hit>, x: Hit)
    requires CellMatches(s, addr) && h == Hits(s.log, addr)
    requires x == Hit(s.now, 1) && t.now == s.now && t.cells == s.cells[AddrKey(addr) := Cell(1, None)]
    requires Hits(t.log, addr) == h + [x] && Lifetimes(h + [x])
    ensures CellMatches(t, addr)
  {
  }

  lemma NextHitFollows(s: State, addr: string)
    requires CellMatches(s, addr)
    ensures Follows(Hits(s.log, addr), Hit(s.now, IncrReply(s.cells, s.now, AddrKey(addr))))
  {
  }

  lemma ExpireKeeps(s: State, key: Key, waiting: multiset<Key>, delivered: bool)
    requires Inv(s)
    ensures Inv(s.(waiting := waiting,
                   cells := if delivered then AfterExpire(s.cells, s.now, key, MINUTE_MS) else s.cells))
  {
    var t := s.(waiting := waiting,
                cells := if delivered then AfterExpire(s.cells, s.now, key, MINUTE_MS) else s.cells);
    forall a ensures CellMatches(t, a) {
      assert CellMatches(s, a);
    }
  }

  lemma AdvanceKeeps(s: State, ms: nat)
    requires Inv(s)
    ensures Inv(s.(now := s.now + ms))
  {
    var t := s.(now := s.now + ms);
    forall a ensures CellMatches(t, a) {
      assert CellMatches(s, a);
    }
  }

  lemma {:induction false} RunKeeps(start: nat, events: seq<Event>)
    ensures Inv(Run(Init(start), events))
  {
    if events != [] {
      var s := Run(Init(start), events[..|events| - 1]);
      RunKeeps(start, events[..|events| - 1]);
      StepKeeps(s, events[|events| - 1]);
    }
  }

  lemma StepKeeps(s: State, e: Event)
    requires Inv(s)
    ensures Inv(Step(s, e))
  {
    match e
    case Advance(ms) => AdvanceKeeps(s, ms);
    case Request(addr, outcome) => RequestKeeps(s, addr, outcome);
    case SendExpire(key, delivered) => ExpireKeeps(s, key, s.waiting - multiset{key}, delivered);
  }

  // ---------- counting admissions

  function AdmittedHit(from: nat, to: nat): Hit -> bool {
    (x: Hit) => from <= x.time <= to && x.count <= LIMIT
  }

  predicate WithinLimit(x: Hit) {
    x.count <= 100
  }

  /** Admitted by the counter, not because Redis failed. */
  function CountedIn(addr: string, from: nat, to: nat): Served -> bool {
    (r: Served) => r.addr == addr && from <= r.time <= to && r.outcome == Replied && r.admitted
  }

  /** Counts rising one by one from `first` admit at most LIMIT + 1 - first. */
  lemma {:induction false} RisingAdmits(g: seq<Hit>, first: nat, from: nat, to: nat)
    requires first >= 1 && forall i :: 0 <= i < |g| ==> g[i].count == first + i
    ensures Count(g, AdmittedHit(from, to)) <= |g|
    ensures first <= LIMIT + 1 ==> Count(g, AdmittedHit(from, to)) <= LIMIT + 1 - first
    ensures first > LIMIT ==> Count(g, AdmittedHit(from, to)) == 0
  {
    if g != [] {
      assert forall i :: 0 <= i < |g[1..]| ==> g[1..][i] == g[i + 1];
      RisingAdmits(g[1..], first + 1, from, to);
    }
  }

  lemma {:induction false} RisingCounts(h: seq<Hit>, a: nat, i: nat)
    requires Lifetimes(h) && a <= i < |h| && forall k :: a < k <= i ==> h[k].count != 1
    ensures h[i].count == h[a].count + (i - a)
  {
    if a < i { RisingCounts(h, a, i - 1); }
  }

  lemma SegmentAdmits(h: seq<Hit>, a: nat, b: nat, from: nat, to: nat)
    requires Lifetimes(h) && a < b <= |h| && forall k :: a < k < b ==> h[k].count != 1
    ensures Count(h[a..b], AdmittedHit(from, to)) <= LIMIT
    ensures h[a].count > 1 ==> Count(h[a..b], AdmittedHit(from, to)) <= LIMIT - 1
  {
    var g := h[a..b];
    forall i | 0 <= i < |g| ensures g[i].count == h[a].count + i {
      RisingCounts(h, a, a + i);
    }
    RisingAdmits(g, h[a].count, from, to);
  }

  /** The first position at or after `from` in time. */
  function FirstSince(h: seq<Hit>, from: nat): (a: nat)
    ensures a <= |h| && (forall i :: 0 <= i < a ==> h[i].time < from) && (a < |h| ==> from <= h[a].time)
  {
    if h == [] || from <= h[0].time then 0
    else
      var a := FirstSince(h[1..], from);
      assert forall i :: 0 < i < |h| ==> h[1..][i - 1] == h[i];
      1 + a
  }

  /** A stretch of hits no longer than a minute contains at most one restart after its first hit. */
  lemma StretchAdmits(h: seq<Hit>, a: nat, b: nat, from: nat, to: nat)
    requires Lifetimes(h) && a <= b <= |h| && (a < b ==> from <= h[a].time && h[b - 1].time <= to)
    ensures to <= from + MINUTE_MS ==> Count(h[a..b], AdmittedHit(from, to)) <= 2 * LIMIT
    ensures to < from + MINUTE_MS ==> Count(h[a..b], AdmittedHit(from, to)) <= 2 * LIMIT - 1
  {
    if a == b {
      assert h[a..b] == [];
    } else if r :| a < r < b && h[r].count == 1 {
      if to <= from + MINUTE_MS {
        OneRestart(h, a, r, b, to);
        SegmentAdmits(h, a, r, from, to);
        SegmentAdmits(h, r, b, from, to);
        assert h[a..b] == h[a..r] + h[r..b];
        CountAppend(h[a..r], h[r..b], AdmittedHit(from, to));
      }
    } else {
      SegmentAdmits(h, a, b, from, to);
    }
  }

  lemma OneRestart(h: seq<Hit>, a: nat, r: nat, b: nat, to: nat)
    requires Lifetimes(h) && a < r < b <= |h| && h[r].count == 1
    requires h[b - 1].time <= to <= h[a].time + MINUTE_MS
    ensures forall k :: a < k < b && k != r ==> h[k].count != 1
    ensures to < h[a].time + MINUTE_MS ==> h[a].count > 1
  {
    assert h[a].time <= h[r - 1].time < h[r].time;
    forall k | r < k < b ensures h[k].count != 1 {
      assert h[k].time <= h[b - 1].time;
    }
    forall k | a < k < r ensures h[k].count != 1 {
      assert h[a].time <= h[k - 1].time;
    }
    assert h[r].time <= h[b - 1].time;
  }

  lemma {:induction false} CountedAreHits(log: seq<Served>, addr: string, from: nat, to: nat)
    requires forall i :: 0 <= i < |log| ==> (log[i].admitted <==> log[i].outcome != Replied || log[i].count <= LIMIT)
    ensures Count(log, CountedIn(addr, from, to)) <= Count(Hits(log, addr), AdmittedHit(from, to))
  {
    if log != [] {
      var n := |log| - 1;
      var low, r := log[..n], log[n];
      CountedAreHits(low, addr, from, to);
      assert log == low + [r];
      CountAppend(low, [r], CountedIn(addr, from, to));
      HitsStep(low, r, addr);
      if r.addr == addr && r.outcome != NotApplied {
        CountAppend(Hits(low, addr), [Hit(r.time, r.count)], AdmittedHit(from, to));
      }
    }
  }

  lemma HitsInInterval(h: seq<Hit>, from: nat, to: nat)
    requires Lifetimes(h) && from <= to
    ensures to <= from + MINUTE_MS ==> Count(h, AdmittedHit(from, to)) <= 2 * LIMIT
    ensures to < from + MINUTE_MS ==> Count(h, AdmittedHit(from, to)) <= 2 * LIMIT - 1
  {
    var a, b := FirstSince(h, from), FirstSince(h, to + 1);
    CountWithin(h, a, b, from, to);
    StretchAdmits(h, a, b, from, to);
  }

  lemma CountWithin(h: seq<Hit>, a: nat, b: nat, from: nat, to: nat)
    requires a <= b <= |h|
    requires forall i :: 0 <= i < a ==> h[i].time < from
    requires forall i :: b <= i < |h| ==> to < h[i].time
    ensures Count(h, AdmittedHit(from, to)) == Count(h[a..b], AdmittedHit(from, to))
  {
    var p := AdmittedHit(from, to);
    CountNone(h[..a], p);
    CountNone(h[b..], p);
    CountMiddle(h, a, b, p);
  }

  // ---------- main results

  /** In every run and for every address: within a counter's life the counts rise by one from 1, a
      new counter starts at least a minute after every earlier one, and any stretch of one life
      admits at most LIMIT requests. */
  lemma LifetimeLimits(start: nat, events: seq<Event>, addr: string, a: nat, b: nat)
    ensures Lifetimes(Hits(Run(Init(start), events).log, addr))
    ensures var h := Hits(Run(Init(start), events).log, addr);
      a < b <= |h| && (forall k :: a < k < b ==> h[k].count != 1) ==>
        Count(h[a..b], WithinLimit) <= 100
  {
    RunKeeps(start, events);
    var s := Run(Init(start), events);
    assert CellMatches(s, addr);
    var h := Hits(s.log, addr);
    if a < b <= |h| && (forall k :: a < k < b ==> h[k].count != 1) {
      SegmentAdmits(h, a, b, 0, s.now);
      CountMono(h[a..b], WithinLimit, h[a..b], AdmittedHit(0, s.now));
    }
  }

  /** In every run, any 60 seconds with both ends see at most 200 requests of one address admitted by
      its counter, and any 60 seconds without one end at most 199, however EXPIREs are delayed, lost
      or interleaved. */
  lemma AnyMinuteLimit(start: nat, events: seq<Event>, addr: string, t: nat)
    ensures Count(Run(Init(start), events).log, CountedIn(addr, t, t + 60000)) <= 200
    ensures Count(Run(Init(start), events).log, CountedIn(addr, t, t + 59999)) <= 199
  {
    RunKeeps(start, events);
    var s := Run(Init(start), events);
    assert CellMatches(s, addr);
    CountedAreHits(s.log, addr, t, t + MINUTE_MS);
    CountedAreHits(s.log, addr, t, t + MINUTE_MS - 1);
    HitsInInterval(Hits(s.log, addr), t, t + MINUTE_MS);
    HitsInInterval(Hits(s.log, addr), t, t + MINUTE_MS - 1);
  }

  // ---------- who sends EXPIRE, and what it does

  lemma {:induction false} RunKeepsSender(start: nat, events: seq<Event>)
    ensures OneSender(Run(Init(start), events).cells, Run(Init(start), events).waiting)
  {
    if events != [] {
      var s, e := Run(Init(start), events[..|events| - 1]), events[|events| - 1];
      RunKeepsSender(start, events[..|events| - 1]);
      StepKeepsSender(s, e);
    }
  }

  lemma StepKeepsSender(s: State, e: Event)
    requires OneSender(s.cells, s.waiting)
    ensures OneSender(Step(s, e).cells, Step(s, e).waiting)
  {
    match e
    case Advance(_) =>
    case Request(addr, _) => IncrKeepsSender(s.cells, s.waiting, s.now, AddrKey(addr));
    case SendExpire(key, _) => if key in s.waiting { ExpireKeepsSender(s.cells, s.waiting, s.now, key, MINUTE_MS); }
  }

  /** The answered requests that started a counter of the address. */
  function AnsweredStart(addr: string): Served -> bool {
    (r: Served) => r.addr == addr && r.outcome == Replied && r.count == 1
  }

  /** The EXPIREs that the run has sent for the address, delivered or not. */
  function Sent(s: State, events: seq<Event>, addr: string): nat {
    if events == [] then 0
    else
      var e, t := events[|events| - 1], Run(s, events[..|events| - 1]);
      Sent(s, events[..|events| - 1], addr)
      + (if e.SendExpire? && e.key == AddrKey(addr) && e.key in t.waiting then 1 else 0)
  }

  /** In every run, each answered request that started a counter sends one EXPIRE, now or later, and no other
      request sends any. */
  lemma {:induction false} OneExpirePerStart(start: nat, events: seq<Event>, addr: string)
    ensures var s := Run(Init(start), events);
      Count(s.log, AnsweredStart(addr)) == s.waiting[AddrKey(addr)] + Sent(Init(start), events, addr)
  {
    if events != [] {
      var s, e := Run(Init(start), events[..|events| - 1]), events[|events| - 1];
      OneExpirePerStart(start, events[..|events| - 1], addr);
      SendersStep(s, e, addr);
    }
  }

  lemma SendersStep(s: State, e: Event, addr: string)
    ensures var t, key := Step(s, e), AddrKey(addr);
      Count(t.log, AnsweredStart(addr)) + s.waiting[key]
      == Count(s.log, AnsweredStart(addr)) + t.waiting[key]
         + (if e.SendExpire? && e.key == key && key in s.waiting then 1 else 0)
  {
    if e.Request? {
      CountAppend(s.log, [Step(s, e).log[|s.log|]], AnsweredStart(addr));
      if AddrKey(e.addr) == AddrKey(addr) { AddrKeyInjective(e.addr, addr); }
    }
  }

  /** No hit of the address from position `from` on has started a counter. */
  ghost predicate NoRestart(s: State, addr: string, from: nat) {
    forall j :: from <= j < |Hits(s.log, addr)| ==> Hits(s.log, addr)[j].count != 1
  }

  /** The counter of the address keeps this deadline, and its hits from position `from` on are before it. */
  ghost predicate EndsAt(s: State, addr: string, from: nat, deadline: nat) {
    && AddrKey(addr) in s.cells && s.cells[AddrKey(addr)].deadline == Some(deadline)
    && forall j :: from <= j < |Hits(s.log, addr)| ==> Hits(s.log, addr)[j].time < deadline
  }

  lemma HitsOfStep(s: State, e: Event, addr: string)
    ensures Hits(Step(s, e).log, addr) ==
      if e.Request? && e.addr == addr && e.outcome != NotApplied
      then Hits(s.log, addr) + [Hit(s.now, IncrReply(s.cells, s.now, AddrKey(addr)))] else Hits(s.log, addr)
  {
    if e.Request? { HitsStep(s.log, Step(s, e).log[|s.log|], addr); }
  }

  lemma EndStays(s: State, e: Event, addr: string, from: nat, deadline: nat)
    requires OneSender(s.cells, s.waiting) && from <= |Hits(s.log, addr)| && EndsAt(s, addr, from, deadline)
    requires NoRestart(Step(s, e), addr, from)
    ensures EndsAt(Step(s, e), addr, from, deadline) && |Hits(s.log, addr)| <= |Hits(Step(s, e).log, addr)|
  {
    HitsOfStep(s, e, addr);
    var h, g := Hits(s.log, addr), Hits(Step(s, e).log, addr);
    assert |g| > |h| ==> g[|h|].count != 1;
    if e.Request? && AddrKey(e.addr) == AddrKey(addr) { AddrKeyInjective(e.addr, addr); }
  }

  lemma NoRestartBefore(s: State, e: Event, addr: string, from: nat)
    requires NoRestart(Step(s, e), addr, from)
    ensures NoRestart(s, addr, from)
  {
    HitsOfStep(s, e, addr);
    var h, g := Hits(s.log, addr), Hits(Step(s, e).log, addr);
    assert forall j :: 0 <= j < |h| ==> g[j] == h[j];
  }

  lemma {:induction false} EndStaysInRun(s: State, events: seq<Event>, addr: string, from: nat, deadline: nat)
    requires OneSender(s.cells, s.waiting) && from <= |Hits(s.log, addr)| && EndsAt(s, addr, from, deadline)
    requires NoRestart(Run(s, events), addr, from)
    ensures OneSender(Run(s, events).cells, Run(s, events).waiting)
    ensures EndsAt(Run(s, events), addr, from, deadline) && from <= |Hits(Run(s, events).log, addr)|
  {
    if events != [] {
      var n := |events| - 1;
      var t := Run(s, events[..n]);
      NoRestartBefore(t, events[n], addr, from);
      EndStaysInRun(s, events[..n], addr, from, deadline);
      EndStays(t, events[n], addr, from, deadline);
      StepKeepsSender(t, events[n]);
    }
  }

  /** In every run: when the EXPIRE of a counter is executed at time d, whatever is admitted or refused
      afterwards, every later hit of that counter is before d + 60000, and as long as no hit has started a new
      one, an answered request at d + 60000 or later starts one and is admitted. */
  lemma ExpireEndsTheLife(start: nat, before: seq<Event>, after: seq<Event>, addr: string)
    requires AddrKey(addr) in Run(Init(start), before).waiting
    ensures var s := Run(Init(start), before);
      var u := Run(Step(s, SendExpire(AddrKey(addr), true)), after);
      var from := |Hits(s.log, addr)|;
      NoRestart(u, addr, from) ==>
        && (forall j :: from <= j < |Hits(u.log, addr)| ==> Hits(u.log, addr)[j].time < s.now + 60000)
        && (u.now >= s.now + 60000 ==>
             var r := AfterRequest(u, addr, Replied).log[|u.log|]; r.admitted && r.count == 1)
  {
    var s, key := Run(Init(start), before), AddrKey(addr);
    var t := Step(s, SendExpire(key, true));
    RunKeepsSender(start, before);
    ExpireKeepsSender(s.cells, s.waiting, s.now, key, MINUTE_MS);
    if NoRestart(Run(t, after), addr, |Hits(s.log, addr)|) {
      EndStaysInRun(t, after, addr, |Hits(s.log, addr)|, s.now + MINUTE_MS);
    }
  }

  /** In every run an answered request is admitted exactly when its count is at most 100, and every other
      request is let through. */
  lemma AdmittedIff(start: nat, events: seq<Event>, i: nat)
    requires i < |Run(Init(start), events).log|
    ensures var r := Run(Init(start), events).log[i]; r.admitted <==> r.outcome != Replied || r.count <= 100
  {
    RunKeeps(start, events);
  }

  // ---------- a lost EXPIRE

  /** The counter is spent, carries no deadline, and nobody will send its EXPIRE. */
  predicate LockedOut(s: State, addr: string) {
    var key := AddrKey(addr);
    key in s.cells && s.cells[key].deadline == None && s.cells[key].count >= 100 && key !in s.waiting
  }

  lemma LockedOutStays(s: State, e: Event, addr: string)
    requires LockedOut(s, addr)
    ensures LockedOut(Step(s, e), addr)
    ensures forall i :: |s.log| <= i < |Step(s, e).log| ==>
      var r := Step(s, e).log[i]; r.addr == addr && r.outcome == Replied ==> !r.admitted
  {
    if e.Request? && e.addr != addr && AddrKey(e.addr) == AddrKey(addr) {
      AddrKeyInjective(e.addr, addr);
    }
  }

  /** Once a counter has reached the limit with its EXPIRE lost, every later answered request of that
      address is refused, in every continuation, for ever. */
  lemma {:induction false} LostExpireLocksOut(s: State, events: seq<Event>, addr: string)
    requires LockedOut(s, addr)
    ensures LockedOut(Run(s, events), addr) && s.log <= Run(s, events).log
    ensures forall i :: |s.log| <= i < |Run(s, events).log| ==>
      var r := Run(s, events).log[i]; r.addr == addr && r.outcome == Replied ==> !r.admitted
  {
    if events != [] {
      var n := |events| - 1;
      LostExpireLocksOut(s, events[..n], addr);
      LockedOutStays(Run(s, events[..n]), events[n], addr);
    }
  }

  /** After these events the next answered request of the address is admitted. */
  predicate NextAdmitted(s: State, events: seq<Event>, addr: string) {
    var t := Run(s, events);
    AfterRequest(t, addr, Replied).log[|t.log|].admitted
  }

  /** Every other state has a continuation after which the address is served: none, waiting for the
      deadline, or delivering the pending EXPIRE and waiting a minute. */
  function WayOut(s: State, addr: string): seq<Event> {
    var key := AddrKey(addr);
    if !Holds(s.cells, s.now, key) || s.cells[key].count < LIMIT then []
    else if s.cells[key].deadline.Some? then [Advance(s.cells[key].deadline.value - s.now)]
    else [SendExpire(key, true), Advance(MINUTE_MS)]
  }

  lemma WayOutAdmits(s: State, addr: string)
    requires !LockedOut(s, addr)
    ensures NextAdmitted(s, WayOut(s, addr), addr)
  {
    var key := AddrKey(addr);
    if !Holds(s.cells, s.now, key) || s.cells[key].count < LIMIT {
    } else if s.cells[key].deadline.Some? {
      RunOne(s, Advance(s.cells[key].deadline.value - s.now));
    } else {
      RunTwo(s, SendExpire(key, true), Advance(MINUTE_MS));
    }
  }

  /** An address is refused in every continuation exactly when it is locked out. */
  lemma LockedOutIff(s: State, addr: string)
    ensures LockedOut(s, addr) <==> forall events :: !NextAdmitted(s, events, addr)
  {
    if LockedOut(s, addr) {
      forall events ensures !NextAdmitted(s, events, addr) {
        LostExpireLocksOut(s, events, addr);
      }
    } else {
      WayOutAdmits(s, addr);
    }
  }

  /** The allowance of an address spent with the only EXPIRE lost. */
  function LosingRun(addr: string): seq<Event> {
    [Request(addr, Replied), SendExpire(AddrKey(addr), false)] + Requests(addr, LIMIT - 1)
  }

  /** One lost EXPIRE is enough: this run locks the address out. */
  lemma LockoutIsReached(addr: string)
    ensures LockedOut(Run(Init(0), LosingRun(addr)), addr)
  {
    var e, f := Request(addr, Replied), SendExpire(AddrKey(addr), false);
    RunTwo(Init(0), e, f);
    FreshRequest(Init(0), addr);
    RunAppend(Init(0), [e, f], Requests(addr, LIMIT - 1));
    RunLive(Run(Init(0), [e, f]), addr, LIMIT - 1);
  }

  // ---------- sharpness

  function Requests(addr: string, k: nat): (events: seq<Event>)
    ensures |events| == k
  {
    seq(k, _ => Request(addr, Replied))
  }

  /** One request, its EXPIRE, the rest of the allowance a millisecond later, and a full allowance in
      the millisecond in which the counter has gone. */
  function WorstMinute(addr: string): seq<Event> {
    [Request(addr, Replied), SendExpire(AddrKey(addr), true), Advance(1)] + Requests(addr, LIMIT - 1)
    + ([Advance(MINUTE_MS - 1), Request(addr, Replied)] + Requests(addr, LIMIT - 1))
  }

  lemma {:induction false} RunAppend(s: State, a: seq<Event>, b: seq<Event>)
    ensures Run(s, a + b) == Run(Run(s, a), b)
  {
    if b == [] {
      assert a + b == a;
    } else {
      var n := |b| - 1;
      assert (a + b)[..|a + b| - 1] == a + b[..n];
      RunAppend(s, a, b[..n]);
    }
  }

  lemma RunOne(s: State, e: Event)
    ensures Run(s, [e]) == Step(s, e)
  {
    assert [e][..0] == [];
  }

  lemma RunTwo(s: State, e: Event, f: Event)
    ensures Run(s, [e, f]) == Step(Step(s, e), f)
  {
    RunOne(s, e);
    assert [e, f][..1] == [e];
  }

  function Admission(time: nat, addr: string, count: nat): Served {
    Served(time, addr, Replied, count, true)
  }

  /** The log entries of k admitted requests at one time, with counts from `first` on. */
  function Admissions(time: nat, addr: string, first: nat, k: nat): (log: seq<Served>)
    ensures |log| == k
  {
    seq(k, i requires 0 <= i < k => Admission(time, addr, first + i))
  }

  /** The state after k more requests of a live counter. */
  function Counted(s: State, addr: string, k: nat): State
    requires AddrKey(addr) in s.cells
  {
    var c := s.cells[AddrKey(addr)];
    s.(cells := s.cells[AddrKey(addr) := c.(count := c.count + k)],
       log := s.log + Admissions(s.now, addr, c.count + 1, k))
  }

  lemma {:induction false} RunLive(s: State, addr: string, k: nat)
    requires Holds(s.cells, s.now, AddrKey(addr)) && 1 <= s.cells[AddrKey(addr)].count <= LIMIT - k
    ensures Run(s, Requests(addr, k)) == Counted(s, addr, k)
  {
    if k == 0 {
      assert s.cells[AddrKey(addr) := s.cells[AddrKey(addr)]] == s.cells;
    } else {
      assert Requests(addr, k)[..k - 1] == Requests(addr, k - 1);
      RunLive(s, addr, k - 1);
      CountedStep(s, addr, k);
    }
  }

  lemma CountedStep(s: State, addr: string, k: nat)
    requires Holds(s.cells, s.now, AddrKey(addr)) && 1 <= s.cells[AddrKey(addr)].count <= LIMIT - k && k > 0
    ensures AfterRequest(Counted(s, addr, k - 1), addr, Replied) == Counted(s, addr, k)
  {
    var c := s.cells[AddrKey(addr)].count;
    LiveRequest(Counted(s, addr, k - 1), addr);
    assert Admissions(s.now, addr, c + 1, k)
        == Admissions(s.now, addr, c + 1, k - 1) + [Admission(s.now, addr, c + k)];
  }

  lemma LiveRequest(s: State, addr: string)
    requires Holds(s.cells, s.now, AddrKey(addr)) && 1 <= s.cells[AddrKey(addr)].count < LIMIT
    ensures var c := s.cells[AddrKey(addr)];
      AfterRequest(s, addr, Replied) == s.(cells := s.cells[AddrKey(addr) := c.(count := c.count + 1)],
                                           log := s.log + [Admission(s.now, addr, c.count + 1)])
  {
  }

  lemma FreshRequest(s: State, addr: string)
    requires !Holds(s.cells, s.now, AddrKey(addr))
    ensures AfterRequest(s, addr, Replied)
         == State(s.now, s.cells[AddrKey(addr) := Cell(1, None)], s.waiting + multiset{AddrKey(addr)},
                  s.log + [Admission(s.now, addr, 1)])
  {
  }

  lemma Opening(addr: string)
    ensures Run(Init(0), [Request(addr, Replied), SendExpire(AddrKey(addr), true)] + [Advance(1)])
         == State(1, map[AddrKey(addr) := Cell(1, Some(MINUTE_MS))], multiset{}, [Admission(0, addr, 1)])
  {
    var e, f := Request(addr, Replied), SendExpire(AddrKey(addr), true);
    RunTwo(Init(0), e, f);
    OpeningSteps(addr);
    RunAppend(Init(0), [e, f], [Advance(1)]);
    RunOne(Run(Init(0), [e, f]), Advance(1));
  }

  lemma OpeningSteps(addr: string)
    ensures Step(Step(Init(0), Request(addr, Replied)), SendExpire(AddrKey(addr), true))
         == State(0, map[AddrKey(addr) := Cell(1, Some(MINUTE_MS))], multiset{}, [Admission(0, addr, 1)])
  {
    FreshRequest(Init(0), addr);
  }

  lemma FirstHalf(addr: string)
    ensures var t := Run(Init(0), [Request(addr, Replied), SendExpire(AddrKey(addr), true), Advance(1)]
                                  + Requests(addr, LIMIT - 1));
      && t.now == 1 && t.cells == map[AddrKey(addr) := Cell(LIMIT, Some(MINUTE_MS))]
      && t.log == [Admission(0, addr, 1)] + Admissions(1, addr, 2, LIMIT - 1)
  {
    var a := [Request(addr, Replied), SendExpire(AddrKey(addr), true), Advance(1)];
    assert a == [a[0], a[1]] + [a[2]];
    Opening(addr);
    RunAppend(Init(0), a, Requests(addr, LIMIT - 1));
    RunLive(Run(Init(0), a), addr, LIMIT - 1);
  }

  lemma SecondHalf(s: State, addr: string)
    requires s.now == 1 && s.cells == map[AddrKey(addr) := Cell(LIMIT, Some(MINUTE_MS))]
    ensures Run(s, [Advance(MINUTE_MS - 1), Request(addr, Replied)] + Requests(addr, LIMIT - 1)).log
         == s.log + [Admission(MINUTE_MS, addr, 1)] + Admissions(MINUTE_MS, addr, 2, LIMIT - 1)
  {
    var a := [Advance(MINUTE_MS - 1), Request(addr, Replied)];
    RunTwo(s, a[0], a[1]);
    var t := s.(now := MINUTE_MS);
    FreshRequest(t, addr);
    RunAppend(s, a, Requests(addr, LIMIT - 1));
    RunLive(AfterRequest(t, addr, Replied), addr, LIMIT - 1);
  }

  /** Both bounds are sharp: 200 admissions in a closed minute, 199 in a half-open one. */
  lemma WorstMinuteIsReached(addr: string)
    ensures var log := Run(Init(0), WorstMinute(addr)).log;
      && Count(log, CountedIn(addr, 0, 60000)) == 200
      && Count(log, CountedIn(addr, 1, 60000)) == 199
  {
    var a := [Request(addr, Replied), SendExpire(AddrKey(addr), true), Advance(1)] + Requests(addr, LIMIT - 1);
    FirstHalf(addr);
    RunAppend(Init(0), a, [Advance(MINUTE_MS - 1), Request(addr, Replied)] + Requests(addr, LIMIT - 1));
    SecondHalf(Run(Init(0), a), addr);
    var log := Run(Init(0), WorstMinute(addr)).log;
    WorstLog(log, addr);
  }

  lemma WorstLog(log: seq<Served>, addr: string)
    requires log == [Admission(0, addr, 1)] + Admissions(1, addr, 2, LIMIT - 1)
                    + [Admission(MINUTE_MS, addr, 1)] + Admissions(MINUTE_MS, addr, 2, LIMIT - 1)
    ensures Count(log, CountedIn(addr, 0, MINUTE_MS)) == 2 * LIMIT
    ensures Count(log, CountedIn(addr, 1, MINUTE_MS)) == 2 * LIMIT - 1
  {
    WorstCount(addr, 0);
    WorstCount(addr, 1);
  }

  lemma WorstCount(addr: string, from: nat)
    requires from <= 1
    ensures Count([Admission(0, addr, 1)] + Admissions(1, addr, 2, LIMIT - 1)
                  + [Admission(MINUTE_MS, addr, 1)] + Admissions(MINUTE_MS, addr, 2, LIMIT - 1),
                  CountedIn(addr, from, MINUTE_MS)) == 2 * LIMIT - from
  {
    var p := CountedIn(addr, from, MINUTE_MS);
    var a, b := [Admission(0, addr, 1)], Admissions(1, addr, 2, LIMIT - 1);
    var c, d := [Admission(MINUTE_MS, addr, 1)], Admissions(MINUTE_MS, addr, 2, LIMIT - 1);
    CountAppend(a + b + c, d, p);
    CountAppend(a + b, c, p);
    CountAppend(a, b, p);
    CountAll(b, p);
    CountAll(d, p);
    assert Count(a, p) == 1 - from;
    assert Count(c, p) == 1;
  }
}

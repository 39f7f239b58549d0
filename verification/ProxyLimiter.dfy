/** The reverse proxy's limiter: one counter per client and aligned 60-second window. */
module ProxyLimiter {
  import opened Decimals
  import opened RedisStore
  import opened Sequences

  const WINDOW_SECS := 60
  const WINDOW_MS := 60000

  // ---------- keys

  /** The window number of a clock reading; the clock is read in whole seconds. */
  function WindowOf(now: nat): nat {
    (now / 1000) / WINDOW_SECS
  }

  function WindowKey(ip: string, window: nat): Key {
    "ratelimit:" + ip + ":" + Decimal(window)
  }

  /** Distinct clients or windows never share a counter, even when addresses contain colons. */
  lemma WindowKeyInjective(ip: string, w: nat, ip': string, w': nat)
    requires WindowKey(ip, w) == WindowKey(ip', w')
    ensures ip == ip' && w == w'
  {
    var pre := "ratelimit:";
    var k, k' := WindowKey(ip, w), WindowKey(ip', w');
    assert k == pre + (ip + ":" + Decimal(w)) && k' == pre + (ip' + ":" + Decimal(w'));
    assert k[|pre|..] == ip + ":" + Decimal(w) && k'[|pre|..] == ip' + ":" + Decimal(w');
    DecimalDigits(w);
    DecimalDigits(w');
    SplitAtLast(':', ip, Decimal(w), ip', Decimal(w'));
    DecimalInjective(w, w');
  }

  // ---------- the protocol, one atomic step at a time

  /** One request, logged when its INCR is applied: the times of the INCR and of the clock reading that
      chose the key, and the counter value it produced, 0 when the INCR was not applied. */
  datatype Served = Served(time: nat, reading: nat, ip: string, outcome: Outcome, count: nat, admitted: bool)

  /** `waiting` holds the keys whose creators have still to send EXPIRE. */
  datatype State = State(now: nat, cells: Store, waiting: multiset<Key>, log: seq<Served>)

  datatype Event =
    | Advance(ms: nat)
    | Request(ip: string, lag: nat, outcome: Outcome)
    | SendExpire(key: Key, delivered: bool)

  function Init(start: nat): State {
    State(start, map[], multiset{}, [])
  }

  /** The clock was read `lag` milliseconds before INCR is applied. */
  function Reading(now: nat, lag: nat): nat {
    if lag <= now then now - lag else 0
  }

  function AfterRequest(s: State, ip: string, lag: nat, outcome: Outcome, rpm: nat): State {
    var reading := Reading(s.now, lag);
    var key := WindowKey(ip, WindowOf(reading));
    var count := if outcome == NotApplied then 0 else IncrReply(s.cells, s.now, key);
    s.(cells := if outcome == NotApplied then s.cells else AfterIncr(s.cells, s.now, key),
       waiting := if outcome == Replied && count == 1 then s.waiting + multiset{key} else s.waiting,
       log := s.log + [Served(s.now, reading, ip, outcome, count, outcome == Replied && count <= rpm)])
  }

  function Step(s: State, e: Event, rpm: nat): State {
    match e
    case Advance(ms) => s.(now := s.now + ms)
    case Request(ip, lag, outcome) => AfterRequest(s, ip, lag, outcome, rpm)
    case SendExpire(key, delivered) =>
      if key !in s.waiting then s
      else s.(waiting := s.waiting - multiset{key},
              cells := if delivered then AfterExpire(s.cells, s.now, key, WINDOW_MS) else s.cells)
  }

  function Run(s: State, events: seq<Event>, rpm: nat): State {
    if events == [] then s
    else Step(Run(s, events[..|events| - 1], rpm), events[|events| - 1], rpm)
  }

  /** One request handled without interruption is the request step followed by its EXPIRE step. */
  method RateLimitMiddleware(redis: Redis, ip: string, rpm: nat, outcome: Outcome, delivered: bool)
    returns (allowed: bool)
    modifies redis`cells
    ensures var t := AfterRequest(State(redis.now, old(redis.cells), multiset{}, []), ip, 0, outcome, rpm);
      && redis.cells == Step(t, SendExpire(WindowKey(ip, WindowOf(redis.now)), delivered), rpm).cells
      && allowed == t.log[0].admitted
    ensures var key := "ratelimit:" + ip + ":" + Decimal(redis.now / 60000);
      allowed <==> outcome == Replied && IncrReply(old(redis.cells), redis.now, key) <= rpm
  {
    var key := WindowKey(ip, WindowOf(redis.now));
    if outcome == NotApplied {
      return false;
    }
    var count := redis.Incr(key);
    if outcome == ReplyLost {
      return false;
    }
    if count == 1 {
      if delivered { redis.Expire(key, WINDOW_MS); }
    }
    if count > rpm {
      return false;
    }
    return true;
  }

  // ---------- the log

  /** INCR was applied for this client with a reading in this window. */
  function AppliedIn(ip: string, w: nat): Served -> bool {
    (r: Served) => r.ip == ip && WindowOf(r.reading) == w && r.outcome != NotApplied
  }

  /** This INCR started the counter of the window. */
  function StartedIn(ip: string, w: nat): Served -> bool {
    (r: Served) => r.ip == ip && WindowOf(r.reading) == w && r.outcome != NotApplied && r.count == 1
  }

  function AdmittedIn(ip: string, w: nat): Served -> bool {
    (r: Served) => r.ip == ip && WindowOf(r.reading) == w && r.admitted
  }

  /** Admitted with the INCR between `from` and `to`. */
  function AdmittedDuring(ip: string, from: nat, to: nat): Served -> bool {
    (r: Served) => r.ip == ip && from <= r.time <= to && r.admitted
  }

  /** Admitted with the clock reading between `from` and `to`. */
  function ReadDuring(ip: string, from: nat, to: nat): Served -> bool {
    (r: Served) => r.ip == ip && from <= r.reading <= to && r.admitted
  }

  function Applied(log: seq<Served>, ip: string, w: nat): nat {
    Count(log, AppliedIn(ip, w))
  }

  function Starts(log: seq<Served>, ip: string, w: nat): nat {
    Count(log, StartedIn(ip, w))
  }

  function Admitted(log: seq<Served>, ip: string, w: nat): nat {
    Count(log, AdmittedIn(ip, w))
  }

  function One(b: bool): nat {
    if b then 1 else 0
  }

  lemma LogStep(log: seq<Served>, r: Served, ip: string, w: nat)
    ensures Applied(log + [r], ip, w) == Applied(log, ip, w) + One(AppliedIn(ip, w)(r))
    ensures Starts(log + [r], ip, w) == Starts(log, ip, w) + One(StartedIn(ip, w)(r))
    ensures Admitted(log + [r], ip, w) == Admitted(log, ip, w) + One(AdmittedIn(ip, w)(r))
  {
    CountAppend(log, [r], AppliedIn(ip, w));
    CountAppend(log, [r], StartedIn(ip, w));
    CountAppend(log, [r], AdmittedIn(ip, w));
  }

  lemma WindowBounds(now: nat)
    ensures WindowOf(now) * 60000 <= now < (WindowOf(now) + 1) * 60000
  {
  }

  lemma WindowMono(a: nat, b: nat)
    requires a <= b
    ensures WindowOf(a) <= WindowOf(b)
  {
  }

  // ---------- what every run keeps

  /** The counter exists exactly when an INCR was applied for it, its window is not in the future, and its
      deadline is not before the end of the window. */
  predicate CellSound(s: State, ip: string, w: nat) {
    var key := WindowKey(ip, w);
    && (key in s.cells <==> Applied(s.log, ip, w) > 0)
    && (key in s.cells ==>
         && w <= WindowOf(s.now)
         && s.cells[key].count >= 1
         && (s.cells[key].deadline.Some? ==> (w + 1) * WINDOW_MS <= s.cells[key].deadline.value))
  }

  /** An entry's request was admitted when it was answered with at most rpm. */
  predicate EntrySound(r: Served, now: nat, rpm: nat) {
    && r.reading <= r.time <= now
    && (r.outcome != NotApplied ==> r.count >= 1)
    && (r.admitted <==> r.outcome == Replied && r.count <= rpm)
  }

  ghost predicate Inv(s: State, rpm: nat) {
    && (forall i :: 0 <= i < |s.log| ==> EntrySound(s.log[i], s.now, rpm))
    && (forall ip, w :: CellSound(s, ip, w))
  }

  lemma AdvanceKeeps(s: State, ms: nat, rpm: nat)
    requires Inv(s, rpm)
    ensures Inv(s.(now := s.now + ms), rpm)
  {
    var t := s.(now := s.now + ms);
    WindowMono(s.now, t.now);
    forall ip, w ensures CellSound(t, ip, w) {
      assert CellSound(s, ip, w);
    }
  }

  lemma ExpireKeeps(s: State, key: Key, waiting: multiset<Key>, rpm: nat)
    requires Inv(s, rpm)
    ensures Inv(s.(waiting := waiting, cells := AfterExpire(s.cells, s.now, key, WINDOW_MS)), rpm)
    ensures Inv(s.(waiting := waiting), rpm)
  {
    var t := s.(waiting := waiting, cells := AfterExpire(s.cells, s.now, key, WINDOW_MS));
    var u := s.(waiting := waiting);
    forall ip, w: nat ensures CellSound(t, ip, w) && CellSound(u, ip, w) {
      assert CellSound(s, ip, w);
      if w <= WindowOf(s.now) { WindowEndNear(s.now, w); }
    }
  }

  lemma WindowEndNear(now: nat, w: nat)
    requires w <= WindowOf(now)
    ensures (w + 1) * WINDOW_MS <= now + WINDOW_MS
  {
    WindowBounds(now);
  }

  lemma RequestKeeps(s: State, ip: string, lag: nat, outcome: Outcome, rpm: nat)
    requires Inv(s, rpm)
    ensures Inv(AfterRequest(s, ip, lag, outcome, rpm), rpm)
  {
    var t := AfterRequest(s, ip, lag, outcome, rpm);
    var r := t.log[|s.log|];
    WindowMono(r.reading, s.now);
    forall ip', w ensures CellSound(t, ip', w) {
      RequestKeepsCell(s, ip, lag, outcome, rpm, ip', w);
    }
  }

  lemma RequestKeepsCell(s: State, ip: string, lag: nat, outcome: Outcome, rpm: nat, ip': string, w: nat)
    requires CellSound(s, ip', w)
    ensures CellSound(AfterRequest(s, ip, lag, outcome, rpm), ip', w)
  {
    var r := AfterRequest(s, ip, lag, outcome, rpm).log[|s.log|];
    WindowMono(r.reading, s.now);
    LogStep(s.log, r, ip', w);
    SameKey(ip', w, ip, WindowOf(r.reading));
  }

  lemma SameKey(ip: string, w: nat, ip': string, w': nat)
    ensures WindowKey(ip, w) == WindowKey(ip', w') <==> ip == ip' && w == w'
  {
    if WindowKey(ip, w) == WindowKey(ip', w') { WindowKeyInjective(ip, w, ip', w'); }
  }

  lemma StepKeeps(s: State, e: Event, rpm: nat)
    requires Inv(s, rpm)
    ensures Inv(Step(s, e, rpm), rpm)
  {
    match e
    case Advance(ms) => AdvanceKeeps(s, ms, rpm);
    case Request(ip, lag, outcome) => RequestKeeps(s, ip, lag, outcome, rpm);
    case SendExpire(key, delivered) => ExpireKeeps(s, key, s.waiting - multiset{key}, rpm);
  }

  lemma {:induction false} RunKeeps(start: nat, events: seq<Event>, rpm: nat)
    ensures Inv(Run(Init(start), events, rpm), rpm)
  {
    if events != [] {
      RunKeeps(start, events[..|events| - 1], rpm);
      StepKeeps(Run(Init(start), events[..|events| - 1], rpm), events[|events| - 1], rpm);
    }
  }

  // ---------- who sends EXPIRE, and what it does

  lemma StepKeepsSender(s: State, e: Event, rpm: nat)
    requires OneSender(s.cells, s.waiting)
    ensures OneSender(Step(s, e, rpm).cells, Step(s, e, rpm).waiting)
  {
    match e
    case Advance(_) =>
    case Request(ip, lag, _) =>
      IncrKeepsSender(s.cells, s.waiting, s.now, WindowKey(ip, WindowOf(Reading(s.now, lag))));
    case SendExpire(key, _) => if key in s.waiting { ExpireKeepsSender(s.cells, s.waiting, s.now, key, WINDOW_MS); }
  }

  lemma {:induction false} RunKeepsSender(start: nat, events: seq<Event>, rpm: nat)
    ensures OneSender(Run(Init(start), events, rpm).cells, Run(Init(start), events, rpm).waiting)
  {
    if events != [] {
      RunKeepsSender(start, events[..|events| - 1], rpm);
      StepKeepsSender(Run(Init(start), events[..|events| - 1], rpm), events[|events| - 1], rpm);
    }
  }

  /** The answered requests that started the counter of a client and window. */
  function AnsweredStart(ip: string, w: nat): Served -> bool {
    (r: Served) => r.ip == ip && WindowOf(r.reading) == w && r.outcome == Replied && r.count == 1
  }

  /** The EXPIREs that the run has sent for a client and window, delivered or not. */
  function Sent(s: State, events: seq<Event>, rpm: nat, ip: string, w: nat): nat {
    if events == [] then 0
    else
      var e, t := events[|events| - 1], Run(s, events[..|events| - 1], rpm);
      Sent(s, events[..|events| - 1], rpm, ip, w)
      + (if e.SendExpire? && e.key == WindowKey(ip, w) && e.key in t.waiting then 1 else 0)
  }

  /** In every run, each answered request that started a counter sends one EXPIRE, now or later, and no other
      request sends any. */
  lemma {:induction false} OneExpirePerStart(start: nat, events: seq<Event>, rpm: nat, ip: string, w: nat)
    ensures var s := Run(Init(start), events, rpm);
      Count(s.log, AnsweredStart(ip, w)) == s.waiting[WindowKey(ip, w)] + Sent(Init(start), events, rpm, ip, w)
  {
    if events != [] {
      var s, e := Run(Init(start), events[..|events| - 1], rpm), events[|events| - 1];
      OneExpirePerStart(start, events[..|events| - 1], rpm, ip, w);
      SendersStep(s, e, rpm, ip, w);
    }
  }

  lemma SendersStep(s: State, e: Event, rpm: nat, ip: string, w: nat)
    ensures var t, key := Step(s, e, rpm), WindowKey(ip, w);
      Count(t.log, AnsweredStart(ip, w)) + s.waiting[key]
      == Count(s.log, AnsweredStart(ip, w)) + t.waiting[key] + One(e.SendExpire? && e.key == key && key in s.waiting)
  {
    if e.Request? {
      CountAppend(s.log, [Step(s, e, rpm).log[|s.log|]], AnsweredStart(ip, w));
      SameKey(e.ip, WindowOf(Reading(s.now, e.lag)), ip, w);
    }
  }

  /** No INCR from entry `from` on has started the counter of the client and window. */
  ghost predicate NoRestart(log: seq<Served>, ip: string, w: nat, from: nat) {
    forall j :: from <= j < |log| ==> !StartedIn(ip, w)(log[j])
  }

  /** The counter keeps this deadline, and its INCRs from entry `from` on are before it. */
  ghost predicate EndsAt(s: State, ip: string, w: nat, from: nat, deadline: nat) {
    && WindowKey(ip, w) in s.cells && s.cells[WindowKey(ip, w)].deadline == Some(deadline)
    && forall j :: from <= j < |s.log| && AppliedIn(ip, w)(s.log[j]) ==> s.log[j].time < deadline
  }

  lemma EndStays(s: State, e: Event, rpm: nat, ip: string, w: nat, from: nat, deadline: nat)
    requires OneSender(s.cells, s.waiting) && from <= |s.log| && EndsAt(s, ip, w, from, deadline)
    requires NoRestart(Step(s, e, rpm).log, ip, w, from)
    ensures EndsAt(Step(s, e, rpm), ip, w, from, deadline) && |s.log| <= |Step(s, e, rpm).log|
  {
    if e.Request? {
      var t := Step(s, e, rpm);
      SameKey(e.ip, WindowOf(Reading(s.now, e.lag)), ip, w);
      assert !StartedIn(ip, w)(t.log[|s.log|]);
    }
  }

  lemma {:induction false} EndStaysInRun(s: State, events: seq<Event>, rpm: nat, ip: string, w: nat, from: nat,
                                         deadline: nat)
    requires OneSender(s.cells, s.waiting) && from <= |s.log| && EndsAt(s, ip, w, from, deadline)
    requires NoRestart(Run(s, events, rpm).log, ip, w, from)
    ensures OneSender(Run(s, events, rpm).cells, Run(s, events, rpm).waiting)
    ensures EndsAt(Run(s, events, rpm), ip, w, from, deadline) && from <= |Run(s, events, rpm).log|
  {
    if events != [] {
      var n := |events| - 1;
      var t := Run(s, events[..n], rpm);
      assert Step(t, events[n], rpm).log[..|t.log|] == t.log;
      assert forall j :: 0 <= j < |t.log| ==> Step(t, events[n], rpm).log[j] == t.log[j];
      EndStaysInRun(s, events[..n], rpm, ip, w, from, deadline);
      EndStays(t, events[n], rpm, ip, w, from, deadline);
      StepKeepsSender(t, events[n], rpm);
    }
  }

  /** In every run: when the EXPIRE of a counter is executed at time d, whatever is admitted or refused
      afterwards, every later INCR of that counter is before d + 60000, and as long as none has started a new
      one, an INCR at d + 60000 or later does. */
  lemma ExpireEndsTheCounter(start: nat, before: seq<Event>, after: seq<Event>, rpm: nat, ip: string, w: nat)
    requires WindowKey(ip, w) in Run(Init(start), before, rpm).waiting
    ensures var s := Run(Init(start), before, rpm);
      var u := Run(Step(s, SendExpire(WindowKey(ip, w), true), rpm), after, rpm);
      NoRestart(u.log, ip, w, |s.log|) ==>
        && (forall j :: |s.log| <= j < |u.log| && AppliedIn(ip, w)(u.log[j]) ==> u.log[j].time < s.now + 60000)
        && (u.now >= s.now + 60000 ==> IncrReply(u.cells, u.now, WindowKey(ip, w)) == 1)
  {
    var s, key := Run(Init(start), before, rpm), WindowKey(ip, w);
    var t := Step(s, SendExpire(key, true), rpm);
    RunKeepsSender(start, before, rpm);
    ExpireKeepsSender(s.cells, s.waiting, s.now, key, WINDOW_MS);
    if NoRestart(Run(t, after, rpm).log, ip, w, |s.log|) {
      EndStaysInRun(t, after, rpm, ip, w, |s.log|, s.now + WINDOW_MS);
    }
  }

  // ---------- at most rpm admissions for every start of the counter

  function Allowance(rpm: nat, starts: nat): nat {
    rpm * starts
  }

  function Capped(count: nat, rpm: nat): nat {
    if count <= rpm then count else rpm
  }

  /** Earlier lives of the counter admitted at most rpm each, the present one at most its count. */
  predicate WithinBudget(s: State, rpm: nat, ip: string, w: nat) {
    var key, starts, admitted := WindowKey(ip, w), Starts(s.log, ip, w), Admitted(s.log, ip, w);
    if key !in s.cells then starts == 0 && admitted == 0
    else starts >= 1 && admitted <= Allowance(rpm, starts - 1) + Capped(s.cells[key].count, rpm)
  }

  lemma AllowanceStep(rpm: nat, n: nat)
    ensures Allowance(rpm, n + 1) == Allowance(rpm, n) + rpm
  {
  }

  lemma BudgetRequest(s: State, ip: string, lag: nat, outcome: Outcome, rpm: nat, ip': string, w: nat)
    requires WithinBudget(s, rpm, ip', w) && CellSound(s, ip', w)
    ensures WithinBudget(AfterRequest(s, ip, lag, outcome, rpm), rpm, ip', w)
  {
    var r := AfterRequest(s, ip, lag, outcome, rpm).log[|s.log|];
    LogStep(s.log, r, ip', w);
    SameKey(ip', w, ip, WindowOf(r.reading));
    var starts := Starts(s.log, ip', w);
    if starts >= 1 { AllowanceStep(rpm, starts - 1); }
  }

  lemma {:induction false} RunBudget(start: nat, events: seq<Event>, rpm: nat, ip: string, w: nat)
    ensures WithinBudget(Run(Init(start), events, rpm), rpm, ip, w)
  {
    if events != [] {
      var s, e := Run(Init(start), events[..|events| - 1], rpm), events[|events| - 1];
      RunBudget(start, events[..|events| - 1], rpm, ip, w);
      RunKeeps(start, events[..|events| - 1], rpm);
      if e.Request? {
        assert CellSound(s, ip, w);
        BudgetRequest(s, e.ip, e.lag, e.outcome, rpm, ip, w);
      }
    }
  }

  /** In every run, with any delays and losses, a client and window get at most rpm admissions for each
      time their counter started. */
  lemma StartsLimit(start: nat, events: seq<Event>, rpm: nat, ip: string, w: nat)
    ensures var log := Run(Init(start), events, rpm).log;
      Admitted(log, ip, w) <= Allowance(rpm, Starts(log, ip, w))
  {
    RunBudget(start, events, rpm, ip, w);
    BudgetTotal(Run(Init(start), events, rpm), rpm, ip, w);
  }

  lemma BudgetTotal(s: State, rpm: nat, ip: string, w: nat)
    requires WithinBudget(s, rpm, ip, w)
    ensures Admitted(s.log, ip, w) <= Allowance(rpm, Starts(s.log, ip, w))
  {
    var starts := Starts(s.log, ip, w);
    if starts >= 1 { AllowanceStep(rpm, starts - 1); }
  }

  // ---------- exact counts

  /** This event applies an INCR to a counter that has expired. */
  predicate RevivesAt(s: State, e: Event) {
    e.Request? && e.outcome != NotApplied &&
    var key := WindowKey(e.ip, WindowOf(Reading(s.now, e.lag)));
    key in s.cells && !Live(s.cells[key], s.now)
  }

  predicate NoRevival(s: State, events: seq<Event>, rpm: nat) {
    events == [] ||
    var n := |events| - 1;
    NoRevival(s, events[..n], rpm) && !RevivesAt(Run(s, events[..n], rpm), events[n])
  }

  /** Entry i produced the number of INCRs applied so far for its client and window. */
  predicate CountedRight(log: seq<Served>, i: nat)
    requires i < |log|
  {
    log[i].outcome != NotApplied ==> log[i].count == Applied(log[..i + 1], log[i].ip, WindowOf(log[i].reading))
  }

  ghost predicate CountsExact(log: seq<Served>) {
    forall i :: 0 <= i < |log| ==> CountedRight(log, i)
  }

  predicate CellExact(s: State, ip: string, w: nat) {
    WindowKey(ip, w) in s.cells ==> s.cells[WindowKey(ip, w)].count == Applied(s.log, ip, w)
  }

  ghost predicate CellsExact(s: State) {
    forall ip, w :: CellExact(s, ip, w)
  }

  lemma CountsStep(log: seq<Served>, r: Served)
    ensures CountsExact(log + [r]) <==>
      CountsExact(log) &&
      (r.outcome != NotApplied ==> r.count == Applied(log, r.ip, WindowOf(r.reading)) + 1)
  {
    var long := log + [r];
    LogStep(log, r, r.ip, WindowOf(r.reading));
    forall i | 0 <= i < |log| ensures CountedRight(long, i) <==> CountedRight(log, i) {
      assert long[..i + 1] == log[..i + 1];
    }
    assert long[..|log| + 1] == long;
    assert CountedRight(long, |log|) <==>
      (r.outcome != NotApplied ==> r.count == Applied(log, r.ip, WindowOf(r.reading)) + 1);
  }

  lemma ExactRequest(s: State, ip: string, lag: nat, outcome: Outcome, rpm: nat)
    requires Inv(s, rpm) && CellsExact(s) && CountsExact(s.log)
    ensures var t := AfterRequest(s, ip, lag, outcome, rpm);
      if RevivesAt(s, Request(ip, lag, outcome)) then !CountsExact(t.log)
      else CountsExact(t.log) && CellsExact(t)
  {
    var t := AfterRequest(s, ip, lag, outcome, rpm);
    var r := t.log[|s.log|];
    var w := WindowOf(r.reading);
    assert CellSound(s, ip, w) && CellExact(s, ip, w);
    CountsStep(s.log, r);
    forall ip', w' | !RevivesAt(s, Request(ip, lag, outcome)) ensures CellExact(t, ip', w') {
      assert CellExact(s, ip', w') && CellSound(s, ip', w');
      LogStep(s.log, r, ip', w');
      SameKey(ip', w', ip, w);
    }
  }

  lemma ExactStep(s: State, e: Event, rpm: nat)
    requires Inv(s, rpm) && CellsExact(s) && CountsExact(s.log)
    ensures var t := Step(s, e, rpm);
      if RevivesAt(s, e) then !CountsExact(t.log) else CountsExact(t.log) && CellsExact(t)
  {
    if e.Request? {
      ExactRequest(s, e.ip, e.lag, e.outcome, rpm);
    } else {
      var t := Step(s, e, rpm);
      forall ip, w ensures CellExact(t, ip, w) {
        assert CellExact(s, ip, w);
      }
    }
  }

  lemma {:induction false} RunExact(start: nat, events: seq<Event>, rpm: nat)
    ensures NoRevival(Init(start), events, rpm) <==> CountsExact(Run(Init(start), events, rpm).log)
    ensures NoRevival(Init(start), events, rpm) ==> CellsExact(Run(Init(start), events, rpm))
  {
    if events != [] {
      var n := |events| - 1;
      var s := Run(Init(start), events[..n], rpm);
      RunExact(start, events[..n], rpm);
      RunKeeps(start, events[..n], rpm);
      if NoRevival(Init(start), events[..n], rpm) {
        ExactStep(s, events[n], rpm);
      } else if events[n].Request? {
        CountsStep(s.log, Step(s, events[n], rpm).log[|s.log|]);
      }
    }
  }

  /** In every run, the counter values are the numbers of INCRs applied for each client and window
      exactly when no INCR reached an expired counter. */
  lemma CountsExactIff(start: nat, events: seq<Event>, rpm: nat)
    ensures CountsExact(Run(Init(start), events, rpm).log) <==> NoRevival(Init(start), events, rpm)
  {
    RunExact(start, events, rpm);
  }

  // ---------- main results

  /** A request is admitted exactly when it was answered and is among the first rpm of its client
      and window to be counted. */
  ghost predicate AdmissionRule(log: seq<Served>, rpm: nat) {
    forall i :: 0 <= i < |log| ==>
      (log[i].admitted <==>
       log[i].outcome == Replied && Applied(log[..i + 1], log[i].ip, WindowOf(log[i].reading)) <= rpm)
  }

  /** As long as no INCR reaches an expired counter, whatever other clients do and however INCRs are
      delayed and EXPIREs delayed or lost, a request is admitted exactly when it is answered and among the
      first rpm counted for its client and window. */
  lemma ExactlyTheFirstRpm(start: nat, events: seq<Event>, rpm: nat)
    requires NoRevival(Init(start), events, rpm)
    ensures AdmissionRule(Run(Init(start), events, rpm).log, rpm)
  {
    RunExact(start, events, rpm);
    RunKeeps(start, events, rpm);
    var s := Run(Init(start), events, rpm);
    forall i | 0 <= i < |s.log|
      ensures s.log[i].admitted <==>
        s.log[i].outcome == Replied && Applied(s.log[..i + 1], s.log[i].ip, WindowOf(s.log[i].reading)) <= rpm
    {
      assert EntrySound(s.log[i], s.now, rpm) && CountedRight(s.log, i);
    }
  }

  lemma PrefixRule(log: seq<Served>, rpm: nat, n: nat)
    requires AdmissionRule(log, rpm) && n <= |log|
    ensures AdmissionRule(log[..n], rpm)
  {
    var low := log[..n];
    forall i | 0 <= i < n
      ensures low[i].admitted <==>
        low[i].outcome == Replied && Applied(low[..i + 1], low[i].ip, WindowOf(low[i].reading)) <= rpm
    {
      assert low[..i + 1] == log[..i + 1];
    }
  }

  lemma {:induction false} AdmittedCount(log: seq<Served>, rpm: nat, ip: string, w: nat)
    requires AdmissionRule(log, rpm)
    ensures Admitted(log, ip, w) <= Capped(Applied(log, ip, w), rpm)
    ensures (forall i :: 0 <= i < |log| ==> log[i].outcome == Replied) ==>
      Admitted(log, ip, w) == Capped(Applied(log, ip, w), rpm)
  {
    if log != [] {
      var n := |log| - 1;
      var low, r := log[..n], log[n];
      assert log == low + [r] && log[..n + 1] == log;
      PrefixRule(log, rpm, n);
      AdmittedCount(low, rpm, ip, w);
      LogStep(low, r, ip, w);
    }
  }

  /** Without revivals: at most rpm admissions per client and window, and without Redis errors exactly the
      smaller of rpm and the number of requests. */
  lemma WindowLimit(start: nat, events: seq<Event>, rpm: nat, ip: string, w: nat)
    requires NoRevival(Init(start), events, rpm)
    ensures var log := Run(Init(start), events, rpm).log;
      && Admitted(log, ip, w) <= Capped(Applied(log, ip, w), rpm)
      && ((forall i :: 0 <= i < |log| ==> log[i].outcome == Replied) ==>
           Admitted(log, ip, w) == Capped(Applied(log, ip, w), rpm))
  {
    ExactlyTheFirstRpm(start, events, rpm);
    AdmittedCount(Run(Init(start), events, rpm).log, rpm, ip, w);
  }

  lemma MinuteMeetsTwoWindows(t: nat, x: nat)
    requires t <= x <= t + WINDOW_MS
    ensures WindowOf(x) == WindowOf(t) || WindowOf(x) == WindowOf(t) + 1
  {
  }

  /** Without revivals, clock readings within any 60 seconds, ends included, lead to at most twice rpm
      admissions of one client, however late their INCRs are. */
  lemma ReadingMinuteLimit(start: nat, events: seq<Event>, rpm: nat, ip: string, t: nat)
    requires NoRevival(Init(start), events, rpm)
    ensures Count(Run(Init(start), events, rpm).log, ReadDuring(ip, t, t + 60000)) <= 2 * rpm
  {
    WindowLimit(start, events, rpm, ip, WindowOf(t));
    WindowLimit(start, events, rpm, ip, WindowOf(t) + 1);
    MinuteWithinWindows(Run(Init(start), events, rpm).log, ip, t);
  }

  lemma MinuteWithinWindows(log: seq<Served>, ip: string, t: nat)
    ensures Count(log, ReadDuring(ip, t, t + WINDOW_MS))
         <= Admitted(log, ip, WindowOf(t)) + Admitted(log, ip, WindowOf(t) + 1)
  {
    var w := WindowOf(t);
    forall i | 0 <= i < |log| && ReadDuring(ip, t, t + WINDOW_MS)(log[i])
      ensures AdmittedIn(ip, w)(log[i]) || AdmittedIn(ip, w + 1)(log[i])
    {
      MinuteMeetsTwoWindows(t, log[i].reading);
    }
    CountOr(log, ReadDuring(ip, t, t + WINDOW_MS), log, AdmittedIn(ip, w), AdmittedIn(ip, w + 1));
  }

  // ---------- delays within the window

  /** The INCR falls in the same window as the clock reading that chose its key. */
  predicate PromptAt(now: nat, e: Event) {
    e.Request? ==> e.lag <= now && WindowOf(now - e.lag) == WindowOf(now)
  }

  predicate Prompt(s: State, events: seq<Event>, rpm: nat) {
    events == [] ||
    var n := |events| - 1;
    Prompt(s, events[..n], rpm) && PromptAt(Run(s, events[..n], rpm).now, events[n])
  }

  /** A counter cannot expire before its window ends, so prompt INCRs revive nothing. */
  lemma {:induction false} PromptIsSafe(start: nat, events: seq<Event>, rpm: nat)
    requires Prompt(Init(start), events, rpm)
    ensures NoRevival(Init(start), events, rpm)
  {
    if events != [] {
      var n := |events| - 1;
      PromptIsSafe(start, events[..n], rpm);
      RunKeeps(start, events[..n], rpm);
      PromptStep(Run(Init(start), events[..n], rpm), events[n], rpm);
    }
  }

  lemma PromptStep(s: State, e: Event, rpm: nat)
    requires Inv(s, rpm) && PromptAt(s.now, e)
    ensures !RevivesAt(s, e)
  {
    if e.Request? {
      WindowBounds(s.now);
      assert CellSound(s, e.ip, WindowOf(s.now));
    }
  }

  ghost predicate ReadInWindow(log: seq<Served>) {
    forall i :: 0 <= i < |log| ==> WindowOf(log[i].reading) == WindowOf(log[i].time)
  }

  lemma {:induction false} PromptReadings(start: nat, events: seq<Event>, rpm: nat)
    requires Prompt(Init(start), events, rpm)
    ensures ReadInWindow(Run(Init(start), events, rpm).log)
  {
    if events != [] {
      var n := |events| - 1;
      var s := Run(Init(start), events[..n], rpm);
      PromptReadings(start, events[..n], rpm);
      if events[n].Request? {
        assert Step(s, events[n], rpm).log[..|s.log|] == s.log;
      }
    }
  }

  /** With prompt INCRs, any 60 seconds, ends included, see at most twice rpm admissions of one client. */
  lemma AnyMinuteLimit(start: nat, events: seq<Event>, rpm: nat, ip: string, t: nat)
    requires Prompt(Init(start), events, rpm)
    ensures Count(Run(Init(start), events, rpm).log, AdmittedDuring(ip, t, t + 60000)) <= 2 * rpm
  {
    PromptIsSafe(start, events, rpm);
    PromptReadings(start, events, rpm);
    WindowLimit(start, events, rpm, ip, WindowOf(t));
    WindowLimit(start, events, rpm, ip, WindowOf(t) + 1);
    PromptWithinWindows(Run(Init(start), events, rpm).log, ip, t);
  }

  lemma PromptWithinWindows(log: seq<Served>, ip: string, t: nat)
    requires ReadInWindow(log)
    ensures Count(log, AdmittedDuring(ip, t, t + WINDOW_MS))
         <= Admitted(log, ip, WindowOf(t)) + Admitted(log, ip, WindowOf(t) + 1)
  {
    var w := WindowOf(t);
    forall i | 0 <= i < |log| && AdmittedDuring(ip, t, t + WINDOW_MS)(log[i])
      ensures AdmittedIn(ip, w)(log[i]) || AdmittedIn(ip, w + 1)(log[i])
    {
      MinuteMeetsTwoWindows(t, log[i].time);
    }
    CountOr(log, AdmittedDuring(ip, t, t + WINDOW_MS), log, AdmittedIn(ip, w), AdmittedIn(ip, w + 1));
  }

  // ---------- runs of admitted requests

  function Requests(ip: string, lag: nat, k: nat): (events: seq<Event>)
    ensures |events| == k
  {
    seq(k, _ => Request(ip, lag, Replied))
  }

  function Admission(time: nat, lag: nat, ip: string, count: nat): Served {
    Served(time, Reading(time, lag), ip, Replied, count, true)
  }

  /** The log entries of k admitted requests at one time, counted from 1. */
  function Admissions(time: nat, lag: nat, ip: string, k: nat): (log: seq<Served>)
    ensures |log| == k
  {
    seq(k, i requires 0 <= i < k => Admission(time, lag, ip, i + 1))
  }

  /** The state after k >= 1 admitted requests that started a counter. */
  function Counted(s: State, ip: string, lag: nat, k: nat): State {
    var key := WindowKey(ip, WindowOf(Reading(s.now, lag)));
    State(s.now, s.cells[key := Cell(k, None)], s.waiting + multiset{key}, s.log + Admissions(s.now, lag, ip, k))
  }

  lemma FirstRequest(s: State, ip: string, lag: nat, rpm: nat)
    requires rpm >= 1 && !Holds(s.cells, s.now, WindowKey(ip, WindowOf(Reading(s.now, lag))))
    ensures AfterRequest(s, ip, lag, Replied, rpm) == Counted(s, ip, lag, 1)
  {
  }

  lemma NextRequest(s: State, ip: string, lag: nat, k: nat, rpm: nat)
    requires 1 <= k < rpm
    ensures AfterRequest(Counted(s, ip, lag, k), ip, lag, Replied, rpm) == Counted(s, ip, lag, k + 1)
  {
    var key := WindowKey(ip, WindowOf(Reading(s.now, lag)));
    assert Admissions(s.now, lag, ip, k + 1)
        == Admissions(s.now, lag, ip, k) + [Admission(s.now, lag, ip, k + 1)];
    assert s.cells[key := Cell(k, None)][key := Cell(k + 1, None)] == s.cells[key := Cell(k + 1, None)];
  }

  lemma {:induction false} RunFresh(s: State, ip: string, lag: nat, k: nat, rpm: nat)
    requires 1 <= k <= rpm && !Holds(s.cells, s.now, WindowKey(ip, WindowOf(Reading(s.now, lag))))
    ensures Run(s, Requests(ip, lag, k), rpm) == Counted(s, ip, lag, k)
  {
    assert Requests(ip, lag, k)[..k - 1] == Requests(ip, lag, k - 1);
    if k == 1 {
      FirstRequest(s, ip, lag, rpm);
    } else {
      RunFresh(s, ip, lag, k - 1, rpm);
      NextRequest(s, ip, lag, k - 1, rpm);
    }
  }

  lemma {:induction false} RunAppend(s: State, a: seq<Event>, b: seq<Event>, rpm: nat)
    ensures Run(s, a + b, rpm) == Run(Run(s, a, rpm), b, rpm)
  {
    if b == [] {
      assert a + b == a;
    } else {
      var n := |b| - 1;
      assert (a + b)[..|a + b| - 1] == a + b[..n];
      RunAppend(s, a, b[..n], rpm);
    }
  }

  lemma RunOne(s: State, e: Event, rpm: nat)
    ensures Run(s, [e], rpm) == Step(s, e, rpm)
  {
    assert [e][..0] == [];
  }

  lemma AllAdmitted(time: nat, lag: nat, ip: string, k: nat, from: nat, to: nat)
    requires from <= time <= to
    ensures Count(Admissions(time, lag, ip, k), AdmittedDuring(ip, from, to)) == k
  {
    CountAll(Admissions(time, lag, ip, k), AdmittedDuring(ip, from, to));
  }

  // ---------- the bound is sharp

  ghost predicate LagsAtMost(events: seq<Event>, lag: nat) {
    forall i :: 0 <= i < |events| && events[i].Request? ==> events[i].lag <= lag
  }

  lemma {:induction false} NoLagIsPrompt(s: State, events: seq<Event>, rpm: nat)
    requires LagsAtMost(events, 0)
    ensures Prompt(s, events, rpm)
  {
    if events != [] { NoLagIsPrompt(s, events[..|events| - 1], rpm); }
  }

  /** rpm requests in the last millisecond of one window and rpm in the first of the next. */
  function BoundaryBurst(ip: string, rpm: nat): seq<Event> {
    [Advance(WINDOW_MS - 1)] + Requests(ip, 0, rpm) + ([Advance(1)] + Requests(ip, 0, rpm))
  }

  lemma FreshWindow(ip: string)
    ensures WindowOf(WINDOW_MS - 1) == 0 && WindowOf(WINDOW_MS) == 1 && WindowKey(ip, 0) != WindowKey(ip, 1)
  {
    SameKey(ip, 0, ip, 1);
  }

  lemma RunAfterAdvance(s: State, t: State, ms: nat, events: seq<Event>, rpm: nat)
    requires t == s.(now := s.now + ms)
    ensures Run(s, [Advance(ms)] + events, rpm) == Run(t, events, rpm)
  {
    RunAppend(s, [Advance(ms)], events, rpm);
    RunOne(s, Advance(ms), rpm);
  }

  lemma BurstLog(ip: string, rpm: nat)
    requires rpm >= 1
    ensures Run(Init(0), BoundaryBurst(ip, rpm), rpm).log
         == Admissions(WINDOW_MS - 1, 0, ip, rpm) + Admissions(WINDOW_MS, 0, ip, rpm)
  {
    var a := [Advance(WINDOW_MS - 1)] + Requests(ip, 0, rpm);
    FreshWindow(ip);
    RunAfterAdvance(Init(0), Init(WINDOW_MS - 1), WINDOW_MS - 1, Requests(ip, 0, rpm), rpm);
    RunFresh(Init(WINDOW_MS - 1), ip, 0, rpm, rpm);
    var s := Run(Init(0), a, rpm);
    RunAppend(Init(0), a, [Advance(1)] + Requests(ip, 0, rpm), rpm);
    RunAfterAdvance(s, s.(now := WINDOW_MS), 1, Requests(ip, 0, rpm), rpm);
    RunFresh(s.(now := WINDOW_MS), ip, 0, rpm, rpm);
    assert [] + Admissions(WINDOW_MS - 1, 0, ip, rpm) == Admissions(WINDOW_MS - 1, 0, ip, rpm);
  }

  /** For every rpm a burst across a window boundary, without any delay, gets twice rpm admissions within
      one millisecond. */
  lemma TwiceTheLimitIsReached(ip: string, rpm: nat)
    ensures LagsAtMost(BoundaryBurst(ip, rpm), 0)
    ensures Count(Run(Init(0), BoundaryBurst(ip, rpm), rpm).log,
                  AdmittedDuring(ip, 59999, 60000)) == 2 * rpm
  {
    if rpm == 0 {
      NoLagIsPrompt(Init(0), BoundaryBurst(ip, 0), 0);
      AnyMinuteLimit(0, BoundaryBurst(ip, 0), 0, ip, 0);
      NoneEarlier(Run(Init(0), BoundaryBurst(ip, 0), 0).log, ip);
    } else {
      BurstLog(ip, rpm);
      BurstCount(ip, rpm);
    }
  }

  lemma NoneEarlier(log: seq<Served>, ip: string)
    ensures Count(log, AdmittedDuring(ip, WINDOW_MS - 1, WINDOW_MS)) <= Count(log, AdmittedDuring(ip, 0, WINDOW_MS))
  {
    CountMono(log, AdmittedDuring(ip, WINDOW_MS - 1, WINDOW_MS), log, AdmittedDuring(ip, 0, WINDOW_MS));
  }

  lemma BurstCount(ip: string, rpm: nat)
    ensures Count(Admissions(WINDOW_MS - 1, 0, ip, rpm) + Admissions(WINDOW_MS, 0, ip, rpm),
                  AdmittedDuring(ip, WINDOW_MS - 1, WINDOW_MS)) == 2 * rpm
  {
    CountAppend(Admissions(WINDOW_MS - 1, 0, ip, rpm), Admissions(WINDOW_MS, 0, ip, rpm),
                AdmittedDuring(ip, WINDOW_MS - 1, WINDOW_MS));
    AllAdmitted(WINDOW_MS - 1, 0, ip, rpm, WINDOW_MS - 1, WINDOW_MS);
    AllAdmitted(WINDOW_MS, 0, ip, rpm, WINDOW_MS - 1, WINDOW_MS);
  }

  // ---------- no delay is harmless

  /** rpm requests and their EXPIRE at time 0; when the counter has just expired, rpm requests that read the
      clock a millisecond earlier, and rpm requests that read it now. */
  function StaleRun(ip: string, rpm: nat): seq<Event> {
    Requests(ip, 0, rpm) + [SendExpire(WindowKey(ip, 0), true)] + [Advance(WINDOW_MS)]
    + Requests(ip, 1, rpm) + Requests(ip, 0, rpm)
  }

  lemma StaleOpening(ip: string, rpm: nat)
    requires rpm >= 1
    ensures var k0 := WindowKey(ip, 0);
      Run(Init(0), Requests(ip, 0, rpm) + [SendExpire(k0, true)] + [Advance(WINDOW_MS)], rpm)
      == State(WINDOW_MS, map[k0 := Cell(rpm, Some(WINDOW_MS))], multiset{}, Admissions(0, 0, ip, rpm))
  {
    var k0, first := WindowKey(ip, 0), Requests(ip, 0, rpm);
    var log := Admissions(0, 0, ip, rpm);
    FirstMinute(ip, rpm);
    ExpireThenAdvance(State(0, map[k0 := Cell(rpm, None)], multiset{k0}, log), k0, rpm);
    RunAppend(Init(0), first, [SendExpire(k0, true)], rpm);
    RunAppend(Init(0), first + [SendExpire(k0, true)], [Advance(WINDOW_MS)], rpm);
  }

  lemma FirstMinute(ip: string, rpm: nat)
    requires rpm >= 1
    ensures var k0 := WindowKey(ip, 0);
      Run(Init(0), Requests(ip, 0, rpm), rpm)
      == State(0, map[k0 := Cell(rpm, None)], multiset{k0}, Admissions(0, 0, ip, rpm))
  {
    RunFresh(Init(0), ip, 0, rpm, rpm);
    assert WindowOf(0) == 0;
    assert [] + Admissions(0, 0, ip, rpm) == Admissions(0, 0, ip, rpm);
  }

  lemma ExpireThenAdvance(s: State, key: Key, rpm: nat)
    requires s.now == 0 && s.cells == map[key := Cell(rpm, None)] && s.waiting == multiset{key}
    ensures Run(Run(s, [SendExpire(key, true)], rpm), [Advance(WINDOW_MS)], rpm)
         == State(WINDOW_MS, map[key := Cell(rpm, Some(WINDOW_MS))], multiset{}, s.log)
  {
    var t := Step(s, SendExpire(key, true), rpm);
    RunOne(s, SendExpire(key, true), rpm);
    assert t == State(0, map[key := Cell(rpm, Some(WINDOW_MS))], multiset{}, s.log);
    RunOne(t, Advance(WINDOW_MS), rpm);
  }

  lemma StaleLog(ip: string, rpm: nat)
    requires rpm >= 1
    ensures Run(Init(0), StaleRun(ip, rpm), rpm).log
         == Admissions(0, 0, ip, rpm) + Admissions(WINDOW_MS, 1, ip, rpm) + Admissions(WINDOW_MS, 0, ip, rpm)
  {
    var a := Requests(ip, 0, rpm) + [SendExpire(WindowKey(ip, 0), true)] + [Advance(WINDOW_MS)];
    var s := Run(Init(0), a, rpm);
    StaleOpening(ip, rpm);
    FreshWindow(ip);
    RunAppend(Init(0), a, Requests(ip, 1, rpm), rpm);
    RunFresh(s, ip, 1, rpm, rpm);
    RunAppend(Init(0), a + Requests(ip, 1, rpm), Requests(ip, 0, rpm), rpm);
    RunFresh(Counted(s, ip, 1, rpm), ip, 0, rpm, rpm);
  }

  /** With delays of one millisecond a client can get three times rpm admissions within 60 seconds. */
  lemma ThriceWhenStale(ip: string, rpm: nat)
    requires rpm >= 1
    ensures LagsAtMost(StaleRun(ip, rpm), 1)
    ensures Count(Run(Init(0), StaleRun(ip, rpm), rpm).log, AdmittedDuring(ip, 0, 60000)) == 3 * rpm
  {
    StaleLags(ip, rpm);
    StaleLog(ip, rpm);
    StaleCount(ip, rpm);
  }

  lemma StaleLags(ip: string, rpm: nat)
    ensures LagsAtMost(StaleRun(ip, rpm), 1)
  {
  }

  lemma StaleCount(ip: string, rpm: nat)
    ensures Count(Admissions(0, 0, ip, rpm) + Admissions(WINDOW_MS, 1, ip, rpm) + Admissions(WINDOW_MS, 0, ip, rpm),
                  AdmittedDuring(ip, 0, WINDOW_MS)) == 3 * rpm
  {
    var p := AdmittedDuring(ip, 0, WINDOW_MS);
    var a, b, c := Admissions(0, 0, ip, rpm), Admissions(WINDOW_MS, 1, ip, rpm), Admissions(WINDOW_MS, 0, ip, rpm);
    CountAppend(a + b, c, p);
    CountAppend(a, b, p);
    AllAdmitted(0, 0, ip, rpm, 0, WINDOW_MS);
    AllAdmitted(WINDOW_MS, 1, ip, rpm, 0, WINDOW_MS);
    AllAdmitted(WINDOW_MS, 0, ip, rpm, 0, WINDOW_MS);
  }

  /** Every run whose INCRs are at most `lag` milliseconds behind their clock readings admits at most twice
      rpm requests of each client within any 60 seconds. */
  ghost predicate MinuteBoundHolds(lag: nat, rpm: nat) {
    forall start: nat, events, ip, t: nat :: LagsAtMost(events, lag) ==> MinuteBound(start, events, ip, t, rpm)
  }

  predicate MinuteBound(start: nat, events: seq<Event>, ip: string, t: nat, rpm: nat) {
    Count(Run(Init(start), events, rpm).log, AdmittedDuring(ip, t, t + 60000)) <= 2 * rpm
  }

  /** The 60-second bound survives delays of up to `lag` milliseconds exactly when lag is 0. */
  lemma HarmlessLagIff(lag: nat, rpm: nat)
    requires rpm >= 1
    ensures MinuteBoundHolds(lag, rpm) <==> lag == 0
  {
    if lag == 0 {
      forall start: nat, events, ip, t: nat | LagsAtMost(events, 0) ensures MinuteBound(start, events, ip, t, rpm) {
        NoLagIsPrompt(Init(start), events, rpm);
        AnyMinuteLimit(start, events, rpm, ip, t);
      }
    } else {
      ThriceWhenStale("", rpm);
      assert LagsAtMost(StaleRun("", rpm), lag) && !MinuteBound(0, StaleRun("", rpm), "", 0, rpm);
    }
  }
}

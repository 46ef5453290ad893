/** internal/gateway/middleware/ratelimit.go: a counter per identity that expires a minute after its first request. */
module RateLimits {
  import opened Outcomes

  const WINDOW_MS: int := 60_000

  type Positive = n: int | n >= 1 witness 1

  /** A Redis counter; `deadline` is None when EXPIRE was never applied. */
  datatype Counter = Absent | Counting(count: Positive, deadline: Option<int>)

  /** One request: its time, and what Redis answers to INCR and to EXPIRE. */
  datatype Request = Request(now: int, incr: Answer, expire: Answer)

  predicate Live(c: Counter, now: int) {
    c.Counting? && (c.deadline.None? || now < c.deadline.value)
  }

  function CountAt(c: Counter, now: int): nat {
    if Live(c, now) then c.count else 0
  }

  /** EXPIRE is sent only after an INCR that was seen to succeed. */
  predicate SetsDeadline(r: Request) {
    r.incr == Done && r.expire != Refused
  }

  /** The counter after the request. */
  function Next(c: Counter, r: Request): Counter {
    if r.incr == Refused then c
    else if Live(c, r.now) then c.(count := c.count + 1)
    else Counting(1, if SetsDeadline(r) then Some(r.now + WINDOW_MS) else None)
  }

  predicate Admits(limit: nat, c: Counter, r: Request) {
    r.incr != Done || CountAt(c, r.now) < limit
  }

  function CounterOf(keys: map<string, Counter>, key: string): Counter {
    if key in keys then keys[key] else Absent
  }

  function Key(user: Option<string>, remoteAddr: string): string {
    "ratelimit:" + (if user.Some? then user.value else remoteAddr)
  }

  /** `remaining` is the X-RateLimit-Remaining header, None when the limiter failed open. */
  datatype Verdict = Verdict(admitted: bool, remaining: Option<nat>)

  class RateLimiter {
    const limit: nat
    var keys: map<string, Counter>

    constructor (limit: int)
      ensures (this.limit == limit > 0 || (limit <= 0 && this.limit == 60)) && keys == map[]
    {
      this.limit := if limit <= 0 then 60 else limit;
      keys := map[];
    }

    /** Authenticated requests are counted per user, the others per remote address. */
    method Handle(user: Option<string>, remoteAddr: string, r: Request) returns (v: Verdict)
      modifies this`keys
      ensures v.admitted <==> Admits(limit, old(CounterOf(keys, Key(user, remoteAddr))), r)
      ensures r.incr != Done ==> v.admitted
      ensures v.remaining.Some? <==> r.incr == Done
      ensures v.remaining.Some? ==>
        var before := CountAt(old(CounterOf(keys, Key(user, remoteAddr))), r.now);
        v.remaining.value == if before < limit then limit - before - 1 else 0
      ensures CounterOf(keys, Key(user, remoteAddr)) == Next(old(CounterOf(keys, Key(user, remoteAddr))), r)
      ensures forall key :: key != Key(user, remoteAddr) ==> CounterOf(keys, key) == old(CounterOf(keys, key))
    {
      var key := Key(user, remoteAddr);
      if r.incr == Refused {
        return Verdict(true, None);
      }
      if key in keys && !Live(keys[key], r.now) {
        keys := keys - {key};
      }
      var count: Positive, deadline := 1, None;
      if key in keys {
        count := keys[key].count + 1;
        deadline := keys[key].deadline;
      }
      keys := keys[key := Counting(count, deadline)];
      if r.incr == Lost {
        return Verdict(true, None);
      }
      if count == 1 && r.expire != Refused {
        keys := keys[key := Counting(count, Some(r.now + WINDOW_MS))];
      }
      var remaining: int := limit - count;
      if remaining < 0 {
        remaining := 0;
      }
      v := Verdict(count <= limit, Some(remaining));
    }
  }

  /**
   * Which requests share a counter: those of one user, from wherever they come; those from one address without a user;
   * and those of a user whose id is the other's address.
   */
  lemma SharedCounters(user: Option<string>, addr: string, user': Option<string>, addr': string)
    ensures Key(user, addr) == Key(user', addr') <==>
      match (user, user')
      case (Some(u), Some(u')) => u == u'
      case (None, None) => addr == addr'
      case (Some(u), None) => u == addr'
      case (None, Some(u')) => addr == u'
  {
    var n := |"ratelimit:"|;
    assert Key(user, addr)[n..] == if user.Some? then user.value else addr;
    assert Key(user', addr')[n..] == if user'.Some? then user'.value else addr';
  }

  // ---- Traces of one identity ----

  predicate InTime(reqs: seq<Request>) {
    forall i, j :: 0 <= i <= j < |reqs| ==> reqs[i].now <= reqs[j].now
  }

  /** The counter after all the requests. */
  function After(reqs: seq<Request>): Counter {
    if reqs == [] then Absent else Next(After(reqs[..|reqs| - 1]), reqs[|reqs| - 1])
  }

  function One(b: bool): nat { if b then 1 else 0 }

  /** How many requests with a time in [from, to) were admitted. */
  function Admitted(limit: nat, reqs: seq<Request>, from: int, until: int): nat {
    if reqs == [] then 0
    else
      var r := reqs[|reqs| - 1];
      Admitted(limit, reqs[..|reqs| - 1], from, until) +
        One(from <= r.now < until && Admits(limit, After(reqs[..|reqs| - 1]), r))
  }

  /** How many of them were let through because INCR reported an error. */
  function FailedOpen(reqs: seq<Request>, from: int, until: int): nat {
    if reqs == [] then 0
    else
      var r := reqs[|reqs| - 1];
      FailedOpen(reqs[..|reqs| - 1], from, until) + One(from <= r.now < until && r.incr != Done)
  }

  /** The limiter fails open: whatever the count, a request on which INCR reports an error is admitted. */
  lemma {:induction false} FailsOpen(limit: nat, reqs: seq<Request>, from: int, until: int)
    ensures FailedOpen(reqs, from, until) <= Admitted(limit, reqs, from, until)
    ensures limit == 0 ==> FailedOpen(reqs, from, until) == Admitted(limit, reqs, from, until)
  {
    if reqs != [] { FailsOpen(limit, reqs[..|reqs| - 1], from, until); }
  }

  function Min(a: int, b: int): int { if a <= b then a else b }

  predicate StartedBefore(deadline: Option<int>, from: int) {
    deadline.Some? ==> deadline.value - WINDOW_MS < from
  }

  predicate StartedFrom(deadline: Option<int>, from: int, last: int) {
    last >= from && (deadline.Some? ==> deadline.value - WINDOW_MS >= from)
  }

  /** What is known of the admissions in a minute from `from`, and of the counter, after requests up to time `last`. */
  ghost predicate Inv(limit: nat, c: Counter, from: int, last: int, admitted: int) {
    && 0 <= admitted && (last < from ==> admitted <= 0)
    && match c
       case Absent => admitted <= 0
       case Counting(count, deadline) =>
         // the lifetime began before the minute, within it, or the minute is over
         || (StartedBefore(deadline, from) && admitted <= Min(count, limit) - 1)
         || (StartedFrom(deadline, from, last) && admitted <= limit - 1 + Min(count, limit))
         || (last >= from + WINDOW_MS && admitted <= 2 * limit - 1)
  }

  lemma StepKeepsInv(limit: nat, c: Counter, r: Request, from: int, last: int, admitted: int)
    requires limit > 0 && r.incr != Refused && last <= r.now && Inv(limit, c, from, last, admitted)
    ensures
      var counted := from <= r.now < from + WINDOW_MS && r.incr == Done && Admits(limit, c, r);
      Inv(limit, Next(c, r), from, r.now, admitted + One(counted))
  {
  }

  lemma LaterKeepsInv(limit: nat, c: Counter, from: int, last: int, now: int, admitted: int)
    requires last <= now && Inv(limit, c, from, last, admitted)
    ensures Inv(limit, c, from, now, admitted)
  {
  }

  lemma {:induction false} TraceKeepsInv(limit: nat, reqs: seq<Request>, from: int)
    requires limit > 0 && reqs != [] && InTime(reqs)
    ensures Inv(limit, After(reqs), from, reqs[|reqs| - 1].now,
                Admitted(limit, reqs, from, from + WINDOW_MS) - FailedOpen(reqs, from, from + WINDOW_MS))
    decreases |reqs|
  {
    var init, r := reqs[..|reqs| - 1], reqs[|reqs| - 1];
    var admitted := Admitted(limit, init, from, from + WINDOW_MS) - FailedOpen(init, from, from + WINDOW_MS);
    var last := if init == [] then r.now else init[|init| - 1].now;
    if init != [] { TraceKeepsInv(limit, init, from); }
    if r.incr != Refused {
      StepKeepsInv(limit, After(init), r, from, last, admitted);
    } else {
      LaterKeepsInv(limit, After(init), from, last, r.now, admitted);
    }
  }

  /**
   * Over every trace of one identity, whatever Redis answers: of the requests in any half-open minute at most
   * 2 * limit - 1 are admitted, not counting those let through because INCR reported an error.
   */
  lemma MinuteBound(limit: nat, reqs: seq<Request>, from: int)
    requires limit > 0 && InTime(reqs)
    ensures Admitted(limit, reqs, from, from + WINDOW_MS) <= 2 * limit - 1 + FailedOpen(reqs, from, from + WINDOW_MS)
  {
    if reqs != [] { TraceKeepsInv(limit, reqs, from); }
  }

  // ---- The closed minute, which two whole lifetimes can fit at its ends ----

  ghost predicate ClosedInv(limit: nat, c: Counter, from: int, last: int, admitted: int) {
    && 0 <= admitted && (last < from ==> admitted <= 0)
    && match c
       case Absent => admitted <= 0
       case Counting(count, deadline) =>
         || (StartedBefore(deadline, from) && admitted <= Min(count, limit) - 1
             && (admitted > 0 && deadline.Some? ==> deadline.value > from))
         || (deadline == Some(from + WINDOW_MS) && last >= from && admitted <= Min(count, limit))
         || (StartedFrom(deadline, from + 1, last + 1) && admitted <= limit - 1 + Min(count, limit))
         || (last >= from + WINDOW_MS && StartedFrom(deadline, from + WINDOW_MS, last)
             && admitted <= limit + Min(count, limit))
         || (last > from + WINDOW_MS && admitted <= 2 * limit)
  }

  lemma ClosedStep(limit: nat, c: Counter, r: Request, from: int, last: int, admitted: int)
    requires limit > 0 && r.incr != Refused && last <= r.now && ClosedInv(limit, c, from, last, admitted)
    ensures
      var counted := from <= r.now < from + WINDOW_MS + 1 && r.incr == Done && Admits(limit, c, r);
      ClosedInv(limit, Next(c, r), from, r.now, admitted + One(counted))
  {
  }

  lemma ClosedLater(limit: nat, c: Counter, from: int, last: int, now: int, admitted: int)
    requires last <= now && ClosedInv(limit, c, from, last, admitted)
    ensures ClosedInv(limit, c, from, now, admitted)
  {
  }

  lemma {:induction false} ClosedTrace(limit: nat, reqs: seq<Request>, from: int)
    requires limit > 0 && reqs != [] && InTime(reqs)
    ensures ClosedInv(limit, After(reqs), from, reqs[|reqs| - 1].now,
                      Admitted(limit, reqs, from, from + WINDOW_MS + 1) - FailedOpen(reqs, from, from + WINDOW_MS + 1))
    decreases |reqs|
  {
    var init, r := reqs[..|reqs| - 1], reqs[|reqs| - 1];
    var admitted := Admitted(limit, init, from, from + WINDOW_MS + 1) - FailedOpen(init, from, from + WINDOW_MS + 1);
    var last := if init == [] then r.now else init[|init| - 1].now;
    if init != [] { ClosedTrace(limit, init, from); }
    if r.incr != Refused {
      ClosedStep(limit, After(init), r, from, last, admitted);
    } else {
      ClosedLater(limit, After(init), from, last, r.now, admitted);
    }
  }

  /** Both ends of the minute included, it is at most 2 * limit. */
  lemma ClosedMinuteBound(limit: nat, reqs: seq<Request>, from: int)
    requires limit > 0 && InTime(reqs)
    ensures Admitted(limit, reqs, from, from + WINDOW_MS + 1) <=
      2 * limit + FailedOpen(reqs, from, from + WINDOW_MS + 1)
  {
    if reqs != [] { ClosedTrace(limit, reqs, from); }
  }

  // ---- The bounds are reached ----

  /** The requests and `n` more at one instant. */
  function WithBurst(reqs: seq<Request>, n: nat, now: int): seq<Request> {
    if n == 0 then reqs else WithBurst(reqs, n - 1, now) + [Request(now, Done, Done)]
  }

  lemma OneMore(limit: nat, reqs: seq<Request>, r: Request, from: int, until: int)
    ensures After(reqs + [r]) == Next(After(reqs), r)
    ensures Admitted(limit, reqs + [r], from, until)
         == Admitted(limit, reqs, from, until) + One(from <= r.now < until && Admits(limit, After(reqs), r))
  {
    assert (reqs + [r])[..|reqs|] == reqs;
  }

  /** The counter after `n` more successful requests at one instant. */
  function Raised(c: Counter, n: nat, now: int): Counter {
    if n == 0 then c
    else if Live(c, now) then c.(count := c.count + n)
    else Counting(n, Some(now + WINDOW_MS))
  }

  lemma RaisedOnce(limit: nat, c: Counter, n: nat, now: int)
    requires CountAt(c, now) + n < limit
    ensures Admits(limit, Raised(c, n, now), Request(now, Done, Done))
    ensures Next(Raised(c, n, now), Request(now, Done, Done)) == Raised(c, n + 1, now)
  {
  }

  lemma {:induction false} BurstRaises(limit: nat, reqs: seq<Request>, n: nat, now: int)
    requires CountAt(After(reqs), now) + n <= limit
    ensures After(WithBurst(reqs, n, now)) == Raised(After(reqs), n, now)
  {
    if n > 0 {
      BurstRaises(limit, reqs, n - 1, now);
      RaisedOnce(limit, After(reqs), n - 1, now);
      OneMore(limit, WithBurst(reqs, n - 1, now), Request(now, Done, Done), now, now);
    }
  }

  lemma {:induction false} BurstAdmitted(limit: nat, reqs: seq<Request>, n: nat, now: int, from: int, until: int)
    requires CountAt(After(reqs), now) + n <= limit
    ensures After(WithBurst(reqs, n, now)) == Raised(After(reqs), n, now)
    ensures Admitted(limit, WithBurst(reqs, n, now), from, until)
         == Admitted(limit, reqs, from, until) + (if from <= now < until then n else 0)
  {
    BurstRaises(limit, reqs, n, now);
    if n > 0 {
      var shorter := WithBurst(reqs, n - 1, now);
      BurstAdmitted(limit, reqs, n - 1, now, from, until);
      RaisedOnce(limit, After(reqs), n - 1, now);
      OneMore(limit, shorter, Request(now, Done, Done), from, until);
      assert Admits(limit, After(shorter), Request(now, Done, Done));
    }
  }

  /** Requests in time order, none after `now`, all of which are counted. */
  predicate Steady(reqs: seq<Request>, now: int) {
    InTime(reqs) && forall i :: 0 <= i < |reqs| ==> reqs[i].incr == Done && reqs[i].now <= now
  }

  lemma {:induction false} BurstIsSteady(reqs: seq<Request>, n: nat, now: int)
    requires Steady(reqs, now)
    ensures Steady(WithBurst(reqs, n, now), now)
  {
    if n > 0 { BurstIsSteady(reqs, n - 1, now); }
  }

  lemma LaterIsSteady(reqs: seq<Request>, now: int, later: int)
    requires Steady(reqs, now) && now <= later
    ensures Steady(reqs, later)
  {
  }

  /** `n` requests at time `t0`, `m` at `t1` and `l` at `t2`. */
  function Bursts(n: nat, t0: int, m: nat, t1: int, l: nat, t2: int): seq<Request> {
    WithBurst(WithBurst(WithBurst([], n, t0), m, t1), l, t2)
  }

  lemma BurstsAreSteady(n: nat, t0: int, m: nat, t1: int, l: nat, t2: int)
    requires t0 <= t1 <= t2
    ensures Steady(Bursts(n, t0, m, t1, l, t2), t2)
  {
    var first := WithBurst([], n, t0);
    var second := WithBurst(first, m, t1);
    BurstIsSteady([], n, t0);
    LaterIsSteady(first, t0, t1);
    BurstIsSteady(first, m, t1);
    LaterIsSteady(second, t1, t2);
    BurstIsSteady(second, l, t2);
  }

  /** A lifetime begun at time 0 with `n` requests and used by `m` more before it ends, then a whole new lifetime. */
  lemma TwoLifetimes(limit: nat, n: nat, m: nat, from: int, until: int)
    requires n > 0 && n + m == limit && from <= WINDOW_MS - 1 && WINDOW_MS < until
    ensures Admitted(limit, Bursts(n, 0, m, WINDOW_MS - 1, limit, WINDOW_MS), from, until)
         == (if from <= 0 < until then n else 0) + m + limit
  {
    var first := WithBurst([], n, 0);
    BurstAdmitted(limit, [], n, 0, from, until);
    assert After(first) == Counting(n, Some(WINDOW_MS));
    BurstAdmitted(limit, first, m, WINDOW_MS - 1, from, until);
    var both := WithBurst(first, m, WINDOW_MS - 1);
    assert After(both) == Counting(limit, Some(WINDOW_MS));
    BurstAdmitted(limit, both, limit, WINDOW_MS, from, until);
  }

  lemma {:induction false} NoneFailedOpen(reqs: seq<Request>, from: int, until: int)
    requires forall i :: 0 <= i < |reqs| ==> reqs[i].incr == Done
    ensures FailedOpen(reqs, from, until) == 0
  {
    if reqs != [] { NoneFailedOpen(reqs[..|reqs| - 1], from, until); }
  }

  /** One request, the rest of its lifetime's quota just before it ends, then a whole new lifetime. */
  lemma MinuteBoundIsReached(limit: nat) returns (reqs: seq<Request>)
    requires limit > 0
    ensures InTime(reqs) && FailedOpen(reqs, 1, 1 + WINDOW_MS) == 0
    ensures Admitted(limit, reqs, 1, 1 + WINDOW_MS) == 2 * limit - 1
  {
    reqs := Bursts(1, 0, limit - 1, WINDOW_MS - 1, limit, WINDOW_MS);
    BurstsAreSteady(1, 0, limit - 1, WINDOW_MS - 1, limit, WINDOW_MS);
    TwoLifetimes(limit, 1, limit - 1, 1, 1 + WINDOW_MS);
    NoneFailedOpen(reqs, 1, 1 + WINDOW_MS);
  }

  lemma ClosedMinuteBoundIsReached(limit: nat) returns (reqs: seq<Request>)
    requires limit > 0
    ensures InTime(reqs) && FailedOpen(reqs, 0, WINDOW_MS + 1) == 0
    ensures Admitted(limit, reqs, 0, WINDOW_MS + 1) == 2 * limit
  {
    reqs := Bursts(limit, 0, 0, WINDOW_MS - 1, limit, WINDOW_MS);
    BurstsAreSteady(limit, 0, 0, WINDOW_MS - 1, limit, WINDOW_MS);
    TwoLifetimes(limit, limit, 0, 0, WINDOW_MS + 1);
    NoneFailedOpen(reqs, 0, WINDOW_MS + 1);
  }

  /** At most `limit` requests of the minute from `from` are admitted, if INCR succeeds on all of them. */
  predicate KeepsMinute(limit: nat, reqs: seq<Request>, from: int) {
    InTime(reqs) && FailedOpen(reqs, from, from + WINDOW_MS) == 0 ==>
      Admitted(limit, reqs, from, from + WINDOW_MS) <= limit
  }

  ghost predicate MinuteLimited(limit: nat) {
    forall reqs, from :: KeepsMinute(limit, reqs, from)
  }

  /** No minute admits more than the limit exactly when the limit is one: the window is fixed, not sliding. */
  lemma LimitedOnlyToOne(limit: nat)
    requires limit > 0
    ensures MinuteLimited(limit) <==> limit == 1
  {
    if limit == 1 {
      forall reqs, from ensures KeepsMinute(limit, reqs, from) {
        if InTime(reqs) { MinuteBound(limit, reqs, from); }
      }
    } else {
      var reqs := MinuteBoundIsReached(limit);
      assert !KeepsMinute(limit, reqs, 1);
    }
  }

  // ---- One lifetime, and a lifetime that never ends ----

  /** While its counter lives, an identity is admitted until the limit is used up, and not once more. */
  lemma {:induction false} LifetimeAdmits(limit: nat, before: seq<Request>, reqs: seq<Request>, from: int, until: int)
    requires After(before).Counting?
    requires forall i :: 0 <= i < |reqs| ==>
      reqs[i].incr == Done && Live(After(before), reqs[i].now) && from <= reqs[i].now < until
    ensures After(before + reqs) == Counting(After(before).count + |reqs|, After(before).deadline)
    ensures
      var left := if After(before).count < limit then limit - After(before).count else 0;
      Admitted(limit, before + reqs, from, until) == Admitted(limit, before, from, until) + Min(|reqs|, left)
  {
    if reqs == [] {
      assert before + reqs == before;
    } else {
      var init := reqs[..|reqs| - 1];
      LifetimeAdmits(limit, before, init, from, until);
      assert (before + reqs)[..|before| + |init|] == before + init;
    }
  }

  /** A counter that nothing will ever end. */
  predicate Endless(c: Counter) {
    c.Counting? && c.deadline.None?
  }

  /** The i-th request finds no live counter and starts one without a deadline: INCR was lost, or EXPIRE refused. */
  predicate StartsEndless(reqs: seq<Request>, i: nat)
    requires i < |reqs|
  {
    reqs[i].incr != Refused && !Live(After(reqs[..i]), reqs[i].now) && !SetsDeadline(reqs[i])
  }

  /** How many requests Redis counted. */
  function Counted(reqs: seq<Request>): nat {
    if reqs == [] then 0 else Counted(reqs[..|reqs| - 1]) + One(reqs[|reqs| - 1].incr != Refused)
  }

  lemma {:induction false} EndlessStays(reqs: seq<Request>, more: seq<Request>)
    requires Endless(After(reqs))
    ensures Endless(After(reqs + more)) && After(reqs + more).count == After(reqs).count + Counted(more)
  {
    if more == [] {
      assert reqs + more == reqs;
    } else {
      EndlessStays(reqs, more[..|more| - 1]);
      assert (reqs + more)[..|reqs| + |more| - 1] == reqs + more[..|more| - 1];
    }
  }

  lemma {:induction false} CountedSplits(first: seq<Request>, second: seq<Request>)
    ensures Counted(first + second) == Counted(first) + Counted(second)
  {
    if second == [] {
      assert first + second == first;
    } else {
      CountedSplits(first, second[..|second| - 1]);
      assert (first + second)[..|first| + |second| - 1] == first + second[..|second| - 1];
    }
  }

  /** Once a request starts an endless counter, every later count is the number of requests Redis counted since. */
  lemma CountedSince(reqs: seq<Request>, i: nat)
    requires i < |reqs| && StartsEndless(reqs, i)
    ensures Endless(After(reqs)) && After(reqs).count == Counted(reqs[i..])
  {
    assert reqs[..i + 1][..i] == reqs[..i];
    EndlessStays(reqs[..i + 1], reqs[i + 1..]);
    assert reqs[..i + 1] + reqs[i + 1..] == reqs;
    CountedSplits([reqs[i]], reqs[i + 1..]);
    assert [reqs[i]] + reqs[i + 1..] == reqs[i..];
    assert [reqs[i]][..0] == [];
  }

  /** A counter has no deadline exactly when some request started it without one. */
  lemma {:induction false} EndlessExactly(reqs: seq<Request>)
    ensures Endless(After(reqs)) <==> exists i :: 0 <= i < |reqs| && StartsEndless(reqs, i)
  {
    if i :| 0 <= i < |reqs| && StartsEndless(reqs, i) {
      CountedSince(reqs, i);
    } else if reqs != [] {
      var init := reqs[..|reqs| - 1];
      forall i | 0 <= i < |init| ensures !StartsEndless(init, i) {
        assert init[..i] == reqs[..i];
        assert !StartsEndless(reqs, i);
      }
      EndlessExactly(init);
      assert !StartsEndless(reqs, |reqs| - 1);
    }
  }

  predicate RefusedAfter(limit: nat, reqs: seq<Request>, more: seq<Request>, r: Request) {
    InTime(reqs + more + [r]) && r.incr == Done ==> !Admits(limit, After(reqs + more), r)
  }

  /** No later request that INCR succeeds on is ever admitted again. */
  ghost predicate ShutOut(limit: nat, reqs: seq<Request>) {
    forall more: seq<Request>, r: Request :: RefusedAfter(limit, reqs, more, r)
  }

  lemma AdmittedLater(limit: nat, reqs: seq<Request>) returns (r: Request)
    requires limit > 0 && InTime(reqs) && (Endless(After(reqs)) ==> After(reqs).count < limit)
    ensures InTime(reqs + [] + [r]) && r.incr == Done && Admits(limit, After(reqs + []), r)
  {
    var last := if reqs == [] then 0 else reqs[|reqs| - 1].now;
    var c := After(reqs);
    var now := if c.Counting? && c.deadline.Some? && c.deadline.value > last then c.deadline.value else last;
    r := Request(now, Done, Done);
    assert reqs + [] == reqs;
  }

  /**
   * An identity is shut out for good exactly when some request started an endless counter and Redis has counted `limit`
   * requests since. In every other case a later request is admitted.
   */
  lemma ShutOutExactly(limit: nat, reqs: seq<Request>)
    requires limit > 0 && InTime(reqs)
    ensures ShutOut(limit, reqs) <==>
      exists i :: 0 <= i < |reqs| && StartsEndless(reqs, i) && Counted(reqs[i..]) >= limit
  {
    if i :| 0 <= i < |reqs| && StartsEndless(reqs, i) && Counted(reqs[i..]) >= limit {
      CountedSince(reqs, i);
      forall more: seq<Request>, r: Request ensures RefusedAfter(limit, reqs, more, r) { EndlessStays(reqs, more); }
    } else {
      EndlessExactly(reqs);
      if j :| 0 <= j < |reqs| && StartsEndless(reqs, j) { CountedSince(reqs, j); }
      var r := AdmittedLater(limit, reqs);
      assert !RefusedAfter(limit, reqs, [], r);
    }
  }

  /**
   * From the request that starts an endless counter on, at any later time, exactly `limit` requests are admitted:
   * that one and the next limit - 1. It need not be the identity's first request, and no EXPIRE need have failed.
   */
  lemma LockedOut(limit: nat, before: seq<Request>, first: Request, reqs: seq<Request>, from: int, until: int)
    requires limit > 0 && StartsEndless(before + [first], |before|) && from <= first.now < until
    requires forall i :: 0 <= i < |reqs| ==> reqs[i].incr == Done && from <= reqs[i].now < until
    ensures Admitted(limit, before + [first] + reqs, from, until)
         == Admitted(limit, before, from, until) + Min(|reqs| + 1, limit)
  {
    assert (before + [first])[..|before|] == before;
    OneMore(limit, before, first, from, until);
    assert After(before + [first]) == Counting(1, None);
    LifetimeAdmits(limit, before + [first], reqs, from, until);
  }

  /** The shortest ways to be shut out under a limit of one: EXPIRE refused, or INCR lost, on a single request. */
  lemma OneRequestShutsOut(lost: bool)
    ensures ShutOut(1, [if lost then Request(0, Lost, Done) else Request(0, Done, Refused)])
  {
    var reqs := [if lost then Request(0, Lost, Done) else Request(0, Done, Refused)];
    assert reqs[..0] == [] && reqs[0..] == reqs;
    assert StartsEndless(reqs, 0);
    ShutOutExactly(1, reqs);
  }

  // ---- Many identities ----

  datatype Event = Event(key: string, req: Request)

  function KeysAfter(events: seq<Event>): map<string, Counter> {
    if events == [] then map[]
    else
      var keys, e := KeysAfter(events[..|events| - 1]), events[|events| - 1];
      keys[e.key := Next(CounterOf(keys, e.key), e.req)]
  }

  function AdmittedOf(limit: nat, events: seq<Event>, key: string, from: int, until: int): nat {
    if events == [] then 0
    else
      var keys, e := KeysAfter(events[..|events| - 1]), events[|events| - 1];
      AdmittedOf(limit, events[..|events| - 1], key, from, until)
        + One(e.key == key && from <= e.req.now < until && Admits(limit, CounterOf(keys, key), e.req))
  }

  /** The requests of one identity. */
  function Project(events: seq<Event>, key: string): seq<Request> {
    if events == [] then []
    else
      var e := events[|events| - 1];
      Project(events[..|events| - 1], key) + (if e.key == key then [e.req] else [])
  }

  /** What other identities do makes no difference to an identity's counter or its admissions. */
  lemma {:induction false} IdentitiesAreIndependent(limit: nat, events: seq<Event>, key: string, from: int, until: int)
    ensures CounterOf(KeysAfter(events), key) == After(Project(events, key))
    ensures AdmittedOf(limit, events, key, from, until) == Admitted(limit, Project(events, key), from, until)
  {
    if events != [] {
      var init, e := events[..|events| - 1], events[|events| - 1];
      IdentitiesAreIndependent(limit, init, key, from, until);
      if e.key == key {
        var reqs := Project(events, key);
        assert reqs[..|reqs| - 1] == Project(init, key);
      } else {
        assert Project(events, key) == Project(init, key);
      }
    }
  }

  predicate EventsInTime(events: seq<Event>) {
    forall i, j :: 0 <= i <= j < |events| ==> events[i].req.now <= events[j].req.now
  }

  lemma {:induction false} ProjectInTime(events: seq<Event>, key: string)
    requires EventsInTime(events)
    ensures InTime(Project(events, key))
    ensures forall i :: 0 <= i < |Project(events, key)| ==> Project(events, key)[i].now <= events[|events| - 1].req.now
  {
    if events != [] {
      ProjectInTime(events[..|events| - 1], key);
    }
  }

  /** The bound holds for every identity in every interleaving of requests. */
  lemma EveryIdentityIsBounded(limit: nat, events: seq<Event>, key: string, from: int)
    requires limit > 0 && EventsInTime(events)
    ensures AdmittedOf(limit, events, key, from, from + WINDOW_MS)
         <= 2 * limit - 1 + FailedOpen(Project(events, key), from, from + WINDOW_MS)
  {
    IdentitiesAreIndependent(limit, events, key, from, from + WINDOW_MS);
    ProjectInTime(events, key);
    MinuteBound(limit, Project(events, key), from);
  }
}

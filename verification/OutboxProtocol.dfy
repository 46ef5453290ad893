/**
 * The outbox as a protocol: any number of relays over one table, each step a claim, one publish, one mark or a crash.
 * The claim is a plain query, not held open in a transaction, so two relays may hold the same row at the same time.
 */
module OutboxProtocol {
  import opened Outbox

  /**
   * A row, with what happened to it: how many publishes were confirmed, failed, and reached the broker, and how many
   * outcomes were never recorded because the update was lost or the relay crashed first.
   */
  datatype Entry = Entry(attempts: nat, published: bool, confirmed: nat, failed: nat, delivered: nat, lost: nat) {
    function Publishes(): nat { confirmed + failed }
  }

  datatype Outcome = Unpublished | Confirmed | Failed

  /** The rest of a relay's batch, and the outcome of publishing its first row when that is still to be marked. */
  datatype RelayState = Idle | Holding(pending: seq<int>, outcome: Outcome)

  datatype State = State(rows: map<int, Entry>, relays: seq<RelayState>)

  datatype Step =
    | Insert(id: int)
    | Claim(r: nat, batch: seq<int>)
    | Publish(r: nat, confirmed: bool, delivered: bool)
    | Mark(r: nat, applied: bool)
    | Crash(r: nat)

  datatype Config = Config(maxAttempts: int, batchSize: int)

  function Initial(relayCount: nat): State {
    State(map[], seq(relayCount, i => Idle))
  }

  predicate Ascending(ids: seq<int>) {
    forall i, j :: 0 <= i < j < |ids| ==> ids[i] < ids[j]
  }

  predicate CanTake(e: Entry, maxAttempts: int) {
    !e.published && e.attempts < maxAttempts
  }

  predicate Enabled(cfg: Config, s: State, step: Step) {
    match step
    case Insert(id) => id !in s.rows
    case Claim(r, batch) =>
      && r < |s.relays| && s.relays[r] == Idle
      && 0 < |batch| <= cfg.batchSize && Ascending(batch)
      && forall id :: id in batch ==> id in s.rows && CanTake(s.rows[id], cfg.maxAttempts)
    case Publish(r, confirmed, delivered) =>
      && r < |s.relays| && s.relays[r].Holding? && s.relays[r].outcome == Unpublished
      && s.relays[r].pending != [] && s.relays[r].pending[0] in s.rows
      && (confirmed ==> delivered) // an error may or may not have reached the broker
    case Mark(r, applied) =>
      && r < |s.relays| && s.relays[r].Holding? && s.relays[r].outcome != Unpublished
      && s.relays[r].pending != [] && s.relays[r].pending[0] in s.rows
    case Crash(r) => r < |s.relays|
  }

  function Tried(e: Entry, confirmed: bool, delivered: bool): Entry {
    e.(confirmed := e.confirmed + (if confirmed then 1 else 0),
       failed := e.failed + (if confirmed then 0 else 1),
       delivered := e.delivered + (if delivered then 1 else 0))
  }

  function Counted(e: Entry, outcome: Outcome): Entry {
    e.(attempts := e.attempts + 1, published := e.published || outcome == Confirmed)
  }

  function Forgotten(e: Entry): Entry {
    e.(lost := e.lost + 1)
  }

  function Rest(pending: seq<int>): RelayState {
    if |pending| <= 1 then Idle else Holding(pending[1..], Unpublished)
  }

  /** A crash between a publish and its mark forgets the outcome. */
  function RowsAfterCrash(rows: map<int, Entry>, relay: RelayState): map<int, Entry> {
    if relay.Holding? && relay.outcome != Unpublished && relay.pending != [] && relay.pending[0] in rows
    then rows[relay.pending[0] := Forgotten(rows[relay.pending[0]])]
    else rows
  }

  function Next(cfg: Config, s: State, step: Step): State
    requires Enabled(cfg, s, step)
  {
    match step
    case Insert(id) => s.(rows := s.rows[id := Entry(0, false, 0, 0, 0, 0)])
    case Claim(r, batch) => s.(relays := s.relays[r := Holding(batch, Unpublished)])
    case Publish(r, confirmed, delivered) =>
      var relay := s.relays[r];
      var id := relay.pending[0];
      State(s.rows[id := Tried(s.rows[id], confirmed, delivered)],
            s.relays[r := Holding(relay.pending, if confirmed then Confirmed else Failed)])
    case Mark(r, applied) =>
      var relay := s.relays[r];
      var id := relay.pending[0];
      State(s.rows[id := if applied then Counted(s.rows[id], relay.outcome) else Forgotten(s.rows[id])],
            s.relays[r := Rest(relay.pending)])
    case Crash(r) => State(RowsAfterCrash(s.rows, s.relays[r]), s.relays[r := Idle])
  }

  predicate IsRun(cfg: Config, s: State, steps: seq<Step>)
    decreases |steps|
  {
    steps != [] ==> Enabled(cfg, s, steps[0]) && IsRun(cfg, Next(cfg, s, steps[0]), steps[1..])
  }

  function After(cfg: Config, s: State, steps: seq<Step>): State
    requires IsRun(cfg, s, steps)
    decreases |steps|
  {
    if steps == [] then s else After(cfg, Next(cfg, s, steps[0]), steps[1..])
  }

  // ---- Counting relays ----

  function One(b: bool): nat { if b then 1 else 0 }

  predicate Holds(relay: RelayState, id: int) {
    relay.Holding? && id in relay.pending
  }

  /** The relay has the outcome of a publish of this row, not yet marked. */
  predicate HasOutcome(relay: RelayState, id: int) {
    relay.Holding? && relay.outcome != Unpublished && relay.pending != [] && relay.pending[0] == id
  }

  predicate HasFailure(relay: RelayState, id: int) {
    HasOutcome(relay, id) && relay.outcome == Failed
  }

  datatype Question = Holder | InFlight | FailedInFlight

  predicate Answer(q: Question, relay: RelayState, id: int) {
    match q
    case Holder => Holds(relay, id)
    case InFlight => HasOutcome(relay, id)
    case FailedInFlight => HasFailure(relay, id)
  }

  /** How many relays hold the row, or have an unmarked (failed) publish of it. */
  function Count(q: Question, relays: seq<RelayState>, id: int): nat {
    if relays == [] then 0
    else Count(q, relays[..|relays| - 1], id) + One(Answer(q, relays[|relays| - 1], id))
  }

  lemma {:induction false} CountUpdate(q: Question, relays: seq<RelayState>, r: nat, relay: RelayState, id: int)
    requires r < |relays|
    ensures Count(q, relays[r := relay], id) + One(Answer(q, relays[r], id)) ==
      Count(q, relays, id) + One(Answer(q, relay, id))
  {
    var updated, last := relays[r := relay], |relays| - 1;
    if r == last {
      assert updated[..last] == relays[..last];
    } else {
      assert updated[..last] == relays[..last][r := relay];
      CountUpdate(q, relays[..last], r, relay, id);
    }
  }

  lemma {:induction false} CountBounds(q: Question, relays: seq<RelayState>, id: int)
    ensures Count(q, relays, id) <= |relays|
  {
    if relays != [] { CountBounds(q, relays[..|relays| - 1], id); }
  }

  /** A relay with an unmarked publish of the row holds the row. */
  lemma {:induction false} InFlightAreHolders(relays: seq<RelayState>, id: int)
    ensures Count(InFlight, relays, id) <= Count(Holder, relays, id)
  {
    if relays != [] { InFlightAreHolders(relays[..|relays| - 1], id); }
  }

  // ---- The invariant ----

  predicate EntryInv(cfg: Config, s: State, id: int)
    requires id in s.rows
  {
    var e := s.rows[id];
    && (e.published ==> e.confirmed >= 1)
    && e.attempts + Count(Holder, s.relays, id) <= cfg.maxAttempts - 1 + |s.relays|
    && e.Publishes() == e.attempts + Count(InFlight, s.relays, id) + e.lost
    && (!e.published ==> e.attempts + Count(FailedInFlight, s.relays, id) <= e.failed)
    && e.confirmed <= e.delivered <= e.confirmed + e.failed
  }

  predicate RelayInv(s: State, relay: RelayState) {
    relay.Holding? ==>
      && relay.pending != [] && Ascending(relay.pending)
      && (forall id :: id in relay.pending ==> id in s.rows)
      && (relay.outcome == Confirmed ==> relay.pending[0] in s.rows && s.rows[relay.pending[0]].confirmed >= 1)
  }

  predicate Inv(cfg: Config, s: State) {
    && cfg.maxAttempts > 0 && |s.relays| > 0
    && (forall id :: id in s.rows ==> EntryInv(cfg, s, id))
    && (forall r :: 0 <= r < |s.relays| ==> RelayInv(s, s.relays[r]))
  }

  lemma InitialInv(cfg: Config, relayCount: nat)
    requires cfg.maxAttempts > 0 && relayCount > 0
    ensures Inv(cfg, Initial(relayCount))
  {
  }

  lemma {:induction false} CountOfUnknown(q: Question, relays: seq<RelayState>, id: int)
    requires forall r :: 0 <= r < |relays| ==> !Holds(relays[r], id)
    ensures Count(q, relays, id) == 0
  {
    if relays != [] {
      assert !Holds(relays[|relays| - 1], id);
      CountOfUnknown(q, relays[..|relays| - 1], id);
    }
  }

  /** How replacing one relay moves the three counts for one row. */
  lemma CountsMove(relays: seq<RelayState>, r: nat, relay: RelayState, id: int)
    requires r < |relays|
    ensures
      var updated := relays[r := relay];
      && Count(Holder, updated, id) + One(Holds(relays[r], id)) == Count(Holder, relays, id) + One(Holds(relay, id))
      && Count(InFlight, updated, id) + One(HasOutcome(relays[r], id)) ==
        Count(InFlight, relays, id) + One(HasOutcome(relay, id))
      && Count(FailedInFlight, updated, id) + One(HasFailure(relays[r], id))
         == Count(FailedInFlight, relays, id) + One(HasFailure(relay, id))
  {
    CountUpdate(Holder, relays, r, relay, id);
    CountUpdate(InFlight, relays, r, relay, id);
    CountUpdate(FailedInFlight, relays, r, relay, id);
  }

  /** No relay holds a row that is not in the table. */
  lemma NoneHold(cfg: Config, s: State, id: int)
    requires Inv(cfg, s) && id !in s.rows
    ensures Count(Holder, s.relays, id) == Count(InFlight, s.relays, id) == Count(FailedInFlight, s.relays, id) == 0
  {
    forall r | 0 <= r < |s.relays| ensures !Holds(s.relays[r], id) { assert RelayInv(s, s.relays[r]); }
    CountOfUnknown(Holder, s.relays, id);
    CountOfUnknown(InFlight, s.relays, id);
    CountOfUnknown(FailedInFlight, s.relays, id);
  }

  lemma InsertKeepsEntry(cfg: Config, s: State, added: int, id: int)
    requires Inv(cfg, s) && Enabled(cfg, s, Insert(added)) && id in Next(cfg, s, Insert(added)).rows
    ensures EntryInv(cfg, Next(cfg, s, Insert(added)), id)
  {
    var s' := Next(cfg, s, Insert(added));
    assert s'.relays == s.relays;
    if id == added {
      NoneHold(cfg, s, id);
      assert s'.rows[id] == Entry(0, false, 0, 0, 0, 0);
    } else {
      assert s'.rows[id] == s.rows[id] && EntryInv(cfg, s, id);
    }
  }

  lemma PublishKeepsEntry(cfg: Config, s: State, step: Step, id: int)
    requires Inv(cfg, s) && step.Publish? && Enabled(cfg, s, step) && id in s.rows
    ensures EntryInv(cfg, Next(cfg, s, step), id)
  {
    assert EntryInv(cfg, s, id);
    CountsMove(s.relays, step.r, Next(cfg, s, step).relays[step.r], id);
  }

  lemma RestDrops(pending: seq<int>)
    requires pending != [] && Ascending(pending)
    ensures !Holds(Rest(pending), pending[0])
    ensures forall id :: id != pending[0] ==> (Holds(Rest(pending), id) <==> id in pending)
  {
    if |pending| > 1 {
      forall id | id != pending[0] && id in pending
        ensures id in pending[1..]
      {
        var k :| 0 <= k < |pending| && pending[k] == id;
        assert pending[1..][k - 1] == id;
      }
    }
  }

  lemma MarkKeepsEntry(cfg: Config, s: State, step: Step, id: int)
    requires Inv(cfg, s) && step.Mark? && Enabled(cfg, s, step) && id in s.rows
    ensures EntryInv(cfg, Next(cfg, s, step), id)
  {
    assert EntryInv(cfg, s, id);
    assert RelayInv(s, s.relays[step.r]);
    CountsMove(s.relays, step.r, Next(cfg, s, step).relays[step.r], id);
    RestDrops(s.relays[step.r].pending);
  }

  lemma EntryStep(cfg: Config, s: State, step: Step, id: int)
    requires Inv(cfg, s) && Enabled(cfg, s, step) && id in Next(cfg, s, step).rows
    ensures EntryInv(cfg, Next(cfg, s, step), id)
  {
    match step
    case Insert(added) => InsertKeepsEntry(cfg, s, added, id);
    case Publish(r, confirmed, delivered) => PublishKeepsEntry(cfg, s, step, id);
    case Mark(r, applied) => MarkKeepsEntry(cfg, s, step, id);
    case Claim(r, batch) =>
      assert EntryInv(cfg, s, id);
      CountsMove(s.relays, r, Holding(batch, Unpublished), id);
      CountBounds(Holder, Next(cfg, s, step).relays, id);
    case Crash(r) =>
      assert EntryInv(cfg, s, id);
      CountsMove(s.relays, r, Idle, id);
  }

  lemma RelayStep(cfg: Config, s: State, step: Step, r: nat)
    requires Inv(cfg, s) && Enabled(cfg, s, step) && r < |s.relays|
    ensures RelayInv(Next(cfg, s, step), Next(cfg, s, step).relays[r])
  {
    assert RelayInv(s, s.relays[r]);
  }

  lemma StepKeepsInv(cfg: Config, s: State, step: Step)
    requires Inv(cfg, s) && Enabled(cfg, s, step)
    ensures Inv(cfg, Next(cfg, s, step))
  {
    var s' := Next(cfg, s, step);
    forall id | id in s'.rows ensures EntryInv(cfg, s', id) { EntryStep(cfg, s, step, id); }
    forall r | 0 <= r < |s'.relays| ensures RelayInv(s', s'.relays[r]) { RelayStep(cfg, s, step, r); }
  }

  lemma {:induction false} RunKeepsInv(cfg: Config, s: State, steps: seq<Step>)
    requires Inv(cfg, s) && IsRun(cfg, s, steps)
    ensures Inv(cfg, After(cfg, s, steps)) && |After(cfg, s, steps).relays| == |s.relays|
    decreases |steps|
  {
    if steps != [] {
      StepKeepsInv(cfg, s, steps[0]);
      RunKeepsInv(cfg, Next(cfg, s, steps[0]), steps[1..]);
    }
  }

  /**
   * Safety over every run of any number of relays, with crashes, lost updates and publish errors that may still have
   * delivered: a row marked published was confirmed (and delivered) at least once; the recorded attempts of a row and
   * the relays holding it never exceed MaxAttempts - 1 + R; every publish is a recorded attempt, in flight, or lost;
   * and a row that is not published is still eligible or has seen at least MaxAttempts failed publishes.
   */
  lemma RelaySafety(cfg: Config, relayCount: nat, steps: seq<Step>, id: int)
    requires cfg.maxAttempts > 0 && relayCount > 0 && IsRun(cfg, Initial(relayCount), steps)
    requires id in After(cfg, Initial(relayCount), steps).rows
    ensures
      var s := After(cfg, Initial(relayCount), steps);
      var e := s.rows[id];
      && (e.published ==> e.delivered >= e.confirmed >= 1)
      && e.attempts + Count(Holder, s.relays, id) <= cfg.maxAttempts - 1 + relayCount
      && e.Publishes() == e.attempts + Count(InFlight, s.relays, id) + e.lost
      && e.Publishes() <= cfg.maxAttempts - 1 + relayCount + e.lost
      && (e.published || CanTake(e, cfg.maxAttempts) || e.failed >= cfg.maxAttempts)
  {
    InitialInv(cfg, relayCount);
    RunKeepsInv(cfg, Initial(relayCount), steps);
    var s := After(cfg, Initial(relayCount), steps);
    assert EntryInv(cfg, s, id);
    InFlightAreHolders(s.relays, id);
  }

  /** A row once inserted is never lost, and once published stays published. */
  lemma {:induction false} RowsPersist(cfg: Config, s: State, steps: seq<Step>, id: int)
    requires IsRun(cfg, s, steps) && id in s.rows
    ensures id in After(cfg, s, steps).rows
    ensures s.rows[id].published ==> After(cfg, s, steps).rows[id].published
    ensures s.rows[id].attempts <= After(cfg, s, steps).rows[id].attempts
    decreases |steps|
  {
    if steps != [] { RowsPersist(cfg, Next(cfg, s, steps[0]), steps[1..], id); }
  }

  // ---- Building runs ----

  lemma OneStep(cfg: Config, s: State, step: Step)
    requires Enabled(cfg, s, step)
    ensures IsRun(cfg, s, [step]) && After(cfg, s, [step]) == Next(cfg, s, step)
  {
    assert [step][1..] == [];
    assert After(cfg, Next(cfg, s, step), []) == Next(cfg, s, step);
  }

  lemma TwoSteps(cfg: Config, s: State, first: Step, second: Step)
    requires Enabled(cfg, s, first) && Enabled(cfg, Next(cfg, s, first), second)
    ensures IsRun(cfg, s, [first, second])
    ensures After(cfg, s, [first, second]) == Next(cfg, Next(cfg, s, first), second)
  {
    var mid := Next(cfg, s, first);
    assert [first, second][1..] == [second] && [second][1..] == [];
    assert IsRun(cfg, Next(cfg, mid, second), []);
    assert IsRun(cfg, mid, [second]);
    assert After(cfg, mid, [second]) == After(cfg, Next(cfg, mid, second), []);
  }

  lemma {:induction false} RunsCompose(cfg: Config, s: State, first: seq<Step>, second: seq<Step>)
    requires IsRun(cfg, s, first) && IsRun(cfg, After(cfg, s, first), second)
    ensures IsRun(cfg, s, first + second) && After(cfg, s, first + second) == After(cfg, After(cfg, s, first), second)
    decreases |first|
  {
    if first == [] {
      assert first + second == second;
    } else {
      assert (first + second)[1..] == first[1..] + second;
      RunsCompose(cfg, Next(cfg, s, first[0]), first[1..], second);
    }
  }

  // ---- The bound on attempts is reached ----

  /** One row, failed `a` times, held by the relays from `lo` to `hi`. */
  function Stuck(a: nat, relayCount: nat, lo: nat, hi: nat): State {
    State(map[1 := Entry(a, false, 0, a, 0, 0)],
          seq(relayCount, r => if lo <= r < hi then Holding([1], Unpublished) else Idle))
  }

  lemma ClaimOne(cfg: Config, a: nat, relayCount: nat, r: nat)
    requires a < cfg.maxAttempts && cfg.batchSize > 0 && r < relayCount
    ensures Enabled(cfg, Stuck(a, relayCount, 0, r), Claim(r, [1]))
    ensures Next(cfg, Stuck(a, relayCount, 0, r), Claim(r, [1])) == Stuck(a, relayCount, 0, r + 1)
  {
  }

  lemma FailOne(cfg: Config, a: nat, relayCount: nat, r: nat, hi: nat)
    requires r < hi <= relayCount
    ensures IsRun(cfg, Stuck(a, relayCount, r, hi), [Publish(r, false, false), Mark(r, true)])
    ensures After(cfg, Stuck(a, relayCount, r, hi), [Publish(r, false, false), Mark(r, true)]) ==
      Stuck(a + 1, relayCount, r + 1, hi)
  {
    var s := Stuck(a, relayCount, r, hi);
    var mid := Next(cfg, s, Publish(r, false, false));
    assert Next(cfg, mid, Mark(r, true)).relays == Stuck(a + 1, relayCount, r + 1, hi).relays;
    assert Next(cfg, mid, Mark(r, true)).rows == Stuck(a + 1, relayCount, r + 1, hi).rows;
    TwoSteps(cfg, s, Publish(r, false, false), Mark(r, true));
  }

  /** One relay alone uses up the attempts from `a` to `b`. */
  lemma {:induction false} FailAlone(cfg: Config, relayCount: nat, a: nat, b: nat) returns (steps: seq<Step>)
    requires a <= b <= cfg.maxAttempts && cfg.batchSize > 0 && relayCount > 0
    ensures IsRun(cfg, Stuck(a, relayCount, 0, 0), steps)
    ensures After(cfg, Stuck(a, relayCount, 0, 0), steps) == Stuck(b, relayCount, 0, 0)
    decreases b - a
  {
    if a == b { return []; }
    var s := Stuck(a, relayCount, 0, 0);
    ClaimOne(cfg, a, relayCount, 0);
    OneStep(cfg, s, Claim(0, [1]));
    FailOne(cfg, a, relayCount, 0, 1);
    RunsCompose(cfg, s, [Claim(0, [1])], [Publish(0, false, false), Mark(0, true)]);
    assert Stuck(a + 1, relayCount, 1, 1) == Stuck(a + 1, relayCount, 0, 0);
    var attempt := [Claim(0, [1])] + [Publish(0, false, false), Mark(0, true)];
    var more := FailAlone(cfg, relayCount, a + 1, b);
    RunsCompose(cfg, s, attempt, more);
    steps := attempt + more;
  }

  /** Every relay from `r` on claims the row. */
  lemma {:induction false} ClaimTogether(cfg: Config, relayCount: nat, a: nat, r: nat) returns (steps: seq<Step>)
    requires a < cfg.maxAttempts && cfg.batchSize > 0 && r <= relayCount
    ensures IsRun(cfg, Stuck(a, relayCount, 0, r), steps)
    ensures After(cfg, Stuck(a, relayCount, 0, r), steps) == Stuck(a, relayCount, 0, relayCount)
    decreases relayCount - r
  {
    if r == relayCount { return []; }
    ClaimOne(cfg, a, relayCount, r);
    OneStep(cfg, Stuck(a, relayCount, 0, r), Claim(r, [1]));
    var more := ClaimTogether(cfg, relayCount, a, r + 1);
    RunsCompose(cfg, Stuck(a, relayCount, 0, r), [Claim(r, [1])], more);
    steps := [Claim(r, [1])] + more;
  }

  /** Every relay from `r` on publishes, fails and counts the attempt. */
  lemma {:induction false} FailTogether(cfg: Config, relayCount: nat, a: nat, r: nat) returns (steps: seq<Step>)
    requires r <= relayCount
    ensures IsRun(cfg, Stuck(a + r, relayCount, r, relayCount), steps)
    ensures After(cfg, Stuck(a + r, relayCount, r, relayCount), steps) ==
      Stuck(a + relayCount, relayCount, relayCount, relayCount)
    decreases relayCount - r
  {
    if r == relayCount { return []; }
    FailOne(cfg, a + r, relayCount, r, relayCount);
    var more := FailTogether(cfg, relayCount, a, r + 1);
    RunsCompose(cfg, Stuck(a + r, relayCount, r, relayCount), [Publish(r, false, false), Mark(r, true)], more);
    steps := [Publish(r, false, false), Mark(r, true)] + more;
  }

  /**
   * The bound of RelaySafety is the best there is: for every MaxAttempts and every number of relays some run, without
   * any loss, attempts a row MaxAttempts - 1 + R times. With two relays that is more than MaxAttempts, so they do
   * overlap.
   */
  lemma BoundIsReached(cfg: Config, relayCount: nat) returns (steps: seq<Step>)
    requires cfg.maxAttempts > 0 && cfg.batchSize > 0 && relayCount > 0
    ensures IsRun(cfg, Initial(relayCount), steps)
    ensures
      var s := After(cfg, Initial(relayCount), steps);
      && 1 in s.rows && s.rows[1].lost == 0
      && s.rows[1].attempts == s.rows[1].Publishes() == cfg.maxAttempts - 1 + relayCount
  {
    var m := cfg.maxAttempts - 1;
    var start := Initial(relayCount);
    OneStep(cfg, start, Insert(1));
    assert Next(cfg, start, Insert(1)) == Stuck(0, relayCount, 0, 0);
    var alone := FailAlone(cfg, relayCount, 0, m);
    RunsCompose(cfg, start, [Insert(1)], alone);
    steps := [Insert(1)] + alone;
    var claims := ClaimTogether(cfg, relayCount, m, 0);
    RunsCompose(cfg, start, steps, claims);
    steps := steps + claims;
    var fails := FailTogether(cfg, relayCount, m, 0);
    RunsCompose(cfg, start, steps, fails);
    steps := steps + fails;
  }

  /** One row, published `n` times without any outcome being recorded; all relays idle. */
  function Unrecorded(n: nat, relayCount: nat): State {
    State(map[1 := Entry(0, false, 0, n, 0, n)], seq(relayCount, r => Idle))
  }

  lemma ForgetOne(cfg: Config, relayCount: nat, n: nat) returns (steps: seq<Step>)
    requires cfg.maxAttempts > 0 && cfg.batchSize > 0 && relayCount > 0
    ensures IsRun(cfg, Unrecorded(n, relayCount), steps)
    ensures After(cfg, Unrecorded(n, relayCount), steps) == Unrecorded(n + 1, relayCount)
  {
    var s := Unrecorded(n, relayCount);
    var claimed := Next(cfg, s, Claim(0, [1]));
    OneStep(cfg, s, Claim(0, [1]));
    var tried := Next(cfg, claimed, Publish(0, false, false));
    var after := Next(cfg, tried, Mark(0, false));
    assert after.relays == Unrecorded(n + 1, relayCount).relays;
    assert after.rows == Unrecorded(n + 1, relayCount).rows;
    TwoSteps(cfg, claimed, Publish(0, false, false), Mark(0, false));
    RunsCompose(cfg, s, [Claim(0, [1])], [Publish(0, false, false), Mark(0, false)]);
    steps := [Claim(0, [1])] + [Publish(0, false, false), Mark(0, false)];
  }

  /** When updates are lost nothing bounds the publishes of a row: any number of them goes with no recorded attempt. */
  lemma {:induction false} PublishesUnbounded(cfg: Config, relayCount: nat, n: nat) returns (steps: seq<Step>)
    requires cfg.maxAttempts > 0 && cfg.batchSize > 0 && relayCount > 0
    ensures IsRun(cfg, Initial(relayCount), steps)
    ensures After(cfg, Initial(relayCount), steps) == Unrecorded(n, relayCount)
  {
    if n == 0 {
      OneStep(cfg, Initial(relayCount), Insert(1));
      assert Next(cfg, Initial(relayCount), Insert(1)).relays == Unrecorded(0, relayCount).relays;
      return [Insert(1)];
    }
    var before := PublishesUnbounded(cfg, relayCount, n - 1);
    var one := ForgetOne(cfg, relayCount, n - 1);
    RunsCompose(cfg, Initial(relayCount), before, one);
    steps := before + one;
  }

  /** In every run, the recorded attempts of every row stay within MaxAttempts. */
  ghost predicate AttemptsCapped(cfg: Config, relayCount: nat) {
    forall steps: seq<Step>, id: int ::
      IsRun(cfg, Initial(relayCount), steps) && id in After(cfg, Initial(relayCount), steps).rows ==>
        After(cfg, Initial(relayCount), steps).rows[id].attempts <= cfg.maxAttempts
  }

  predicate WithinCap(cfg: Config, e: Entry, losses: bool) {
    losses || e.lost == 0 ==> e.Publishes() <= cfg.maxAttempts
  }

  /** In every run, the publishes of every row stay within MaxAttempts; `losses` says whether outcomes may be lost. */
  ghost predicate PublishesCapped(cfg: Config, relayCount: nat, losses: bool) {
    forall steps: seq<Step>, id: int ::
      IsRun(cfg, Initial(relayCount), steps) && id in After(cfg, Initial(relayCount), steps).rows ==>
        WithinCap(cfg, After(cfg, Initial(relayCount), steps).rows[id], losses)
  }

  /** MaxAttempts caps the recorded attempts on a row exactly when there is one relay. */
  lemma CappedOnlyAlone(cfg: Config, relayCount: nat)
    requires cfg.maxAttempts > 0 && cfg.batchSize > 0 && relayCount > 0
    ensures AttemptsCapped(cfg, relayCount) <==> relayCount == 1
  {
    if relayCount == 1 {
      forall steps: seq<Step>, id: int
        | IsRun(cfg, Initial(relayCount), steps) && id in After(cfg, Initial(relayCount), steps).rows
        ensures After(cfg, Initial(relayCount), steps).rows[id].attempts <= cfg.maxAttempts
      {
        RelaySafety(cfg, relayCount, steps, id);
      }
    } else {
      var steps := BoundIsReached(cfg, relayCount);
      assert After(cfg, Initial(relayCount), steps).rows[1].attempts > cfg.maxAttempts;
    }
  }

  /** It caps how often a row is published exactly when there is one relay and no outcome is ever lost. */
  lemma PublishesCappedExactly(cfg: Config, relayCount: nat, losses: bool)
    requires cfg.maxAttempts > 0 && cfg.batchSize > 0 && relayCount > 0
    ensures PublishesCapped(cfg, relayCount, losses) <==> relayCount == 1 && !losses
  {
    if relayCount == 1 && !losses {
      forall steps: seq<Step>, id: int
        | IsRun(cfg, Initial(relayCount), steps) && id in After(cfg, Initial(relayCount), steps).rows
        ensures WithinCap(cfg, After(cfg, Initial(relayCount), steps).rows[id], losses)
      {
        RelaySafety(cfg, relayCount, steps, id);
      }
    } else if losses {
      var steps := PublishesUnbounded(cfg, relayCount, cfg.maxAttempts + 1);
      assert !WithinCap(cfg, After(cfg, Initial(relayCount), steps).rows[1], losses);
    } else {
      var steps := BoundIsReached(cfg, relayCount);
      assert !WithinCap(cfg, After(cfg, Initial(relayCount), steps).rows[1], losses);
    }
  }


  // Automatic induction is off in this part: its hypotheses over the rows of the table only add noise.

  // ---- One tick is a run of the protocol ----

  function Ids(batch: seq<Row>): seq<int> {
    seq(|batch|, k requires 0 <= k < |batch| => batch[k].id)
  }

  predicate SameRow(e: Entry, row: Row) {
    e.attempts == row.attempts && e.published == row.published
  }

  /** The protocol's rows are the table's rows. */
  predicate Matches(s: State, rows: seq<Row>) {
    && (forall i :: 0 <= i < |rows| ==> rows[i].id in s.rows && SameRow(s.rows[rows[i].id], rows[i]))
    && s.rows.Keys == set row <- rows :: row.id
  }

  lemma {:induction false} BatchRows(rows: seq<Row>, n: nat, maxAttempts: int, limit: int)
    requires n <= |rows|
    ensures forall row :: row in Batch(rows, n, maxAttempts, limit) ==> row in rows[..n] && Eligible(row, maxAttempts)
  {
    if n > 0 {
      BatchRows(rows, n - 1, maxAttempts, limit);
      assert rows[..n] == rows[..n - 1] + [rows[n - 1]];
    }
  }

  lemma {:induction false} BatchAscends(rows: seq<Row>, n: nat, maxAttempts: int, limit: int)
    requires Table(rows) && n <= |rows|
    ensures Table(Batch(rows, n, maxAttempts, limit))
  {
    if n > 0 {
      BatchAscends(rows, n - 1, maxAttempts, limit);
      BatchRows(rows, n - 1, maxAttempts, limit);
      var sofar := Batch(rows, n - 1, maxAttempts, limit);
      forall k | 0 <= k < |sofar| ensures sofar[k].id < rows[n - 1].id { assert sofar[k] in rows[..n - 1]; }
    }
  }

  lemma {:induction false} ClaimEnabled(cfg: Config, s: State, rows: seq<Row>, r: nat)
    requires Table(rows) && Matches(s, rows) && r < |s.relays| && s.relays[r] == Idle
    requires Batch(rows, |rows|, cfg.maxAttempts, cfg.batchSize) != []
    ensures Enabled(cfg, s, Claim(r, Ids(Batch(rows, |rows|, cfg.maxAttempts, cfg.batchSize))))
  {
    var batch := Batch(rows, |rows|, cfg.maxAttempts, cfg.batchSize);
    BatchAscends(rows, |rows|, cfg.maxAttempts, cfg.batchSize);
    BatchRows(rows, |rows|, cfg.maxAttempts, cfg.batchSize);
    BatchLength(rows, |rows|, cfg.maxAttempts, cfg.batchSize);
    forall id | id in Ids(batch)
      ensures id in s.rows && CanTake(s.rows[id], cfg.maxAttempts)
    {
      var k :| 0 <= k < |batch| && batch[k].id == id;
      assert batch[k] in rows[..|rows|];
      var i :| 0 <= i < |rows| && rows[i] == batch[k];
      assert SameRow(s.rows[id], rows[i]);
    }
  }

  function Pair(r: nat, id: int, answers: Answers): seq<Step> {
    [Publish(r, answers.confirmed(id), answers.confirmed(id)), Mark(r, answers.Applied(id))]
  }

  /** The table once one row has been published and marked. */
  function AnsweredRows(rows: seq<Row>, id: int, answers: Answers): seq<Row> {
    if answers.Applied(id) then Updated(rows, id, answers.confirmed(id)) else rows
  }

  lemma {:induction false} SameIds(rows: seq<Row>, rows': seq<Row>)
    requires |rows| == |rows'| && forall i :: 0 <= i < |rows| ==> rows[i].id == rows'[i].id
    ensures (set row <- rows :: row.id) == (set row <- rows' :: row.id)
  {
    forall row | row in rows ensures row.id in (set r <- rows' :: r.id) {
      var i :| 0 <= i < |rows| && rows[i] == row;
      assert rows'[i] in rows';
    }
    forall row | row in rows' ensures row.id in (set r <- rows :: r.id) {
      var i :| 0 <= i < |rows'| && rows'[i] == row;
      assert rows[i] in rows;
    }
  }

  /** Changing one entry the way the table's row with that id changes keeps the two in step. */
  lemma {:induction false} EntryMatches(s: State, rows: seq<Row>, id: int, entry: Entry, s': State, rows': seq<Row>)
    requires Matches(s, rows) && id in s.rows && s'.rows == s.rows[id := entry]
    requires |rows'| == |rows| && forall i :: 0 <= i < |rows| ==> rows'[i].id == rows[i].id
    requires forall i :: 0 <= i < |rows| && rows[i].id == id ==> SameRow(entry, rows'[i])
    requires forall i :: 0 <= i < |rows| && rows[i].id != id ==> rows'[i] == rows[i]
    ensures Matches(s', rows')
  {
    SameIds(rows, rows');
    assert s'.rows.Keys == s.rows.Keys;
    forall i | 0 <= i < |rows'|
      ensures rows'[i].id in s'.rows && SameRow(s'.rows[rows'[i].id], rows'[i])
    {
      assert SameRow(s.rows[rows[i].id], rows[i]);
    }
  }

  lemma {:induction false} PublishMatches(cfg: Config, s: State, rows: seq<Row>, step: Step)
    requires Matches(s, rows) && step.Publish? && Enabled(cfg, s, step)
    ensures Matches(Next(cfg, s, step), rows)
  {
    var id := s.relays[step.r].pending[0];
    var entry := Tried(s.rows[id], step.confirmed, step.delivered);
    forall i | 0 <= i < |rows| && rows[i].id == id
      ensures SameRow(entry, rows[i])
    {
      assert SameRow(s.rows[rows[i].id], rows[i]);
    }
    EntryMatches(s, rows, id, entry, Next(cfg, s, step), rows);
  }

  lemma {:induction false} MarkMatches(cfg: Config, s: State, rows: seq<Row>, r: nat, applied: bool)
    requires Matches(s, rows) && Enabled(cfg, s, Mark(r, applied))
    ensures
      var relay := s.relays[r];
      Matches(Next(cfg, s, Mark(r, applied)),
              if applied then Updated(rows, relay.pending[0], relay.outcome == Confirmed) else rows)
  {
    var id := s.relays[r].pending[0];
    var outcome := s.relays[r].outcome;
    var entry := if applied then Counted(s.rows[id], outcome) else Forgotten(s.rows[id]);
    var rows' := if applied then Updated(rows, id, outcome == Confirmed) else rows;
    forall i | 0 <= i < |rows| && rows[i].id == id
      ensures SameRow(entry, rows'[i])
    {
      assert SameRow(s.rows[rows[i].id], rows[i]);
    }
    EntryMatches(s, rows, id, entry, Next(cfg, s, Mark(r, applied)), rows');
  }

  /** Publishing the row in hand and marking the outcome changes the protocol's rows as it changes the table. */
  lemma {:induction false} PairOfSteps(cfg: Config, s: State, rows: seq<Row>, r: nat, pending: seq<int>,
          answers: Answers)
    requires Matches(s, rows) && r < |s.relays|
    requires pending != [] && pending[0] in s.rows && s.relays[r] == Holding(pending, Unpublished)
    ensures IsRun(cfg, s, Pair(r, pending[0], answers))
    ensures
      var s' := After(cfg, s, Pair(r, pending[0], answers));
      Matches(s', AnsweredRows(rows, pending[0], answers)) && s'.relays == s.relays[r := Rest(pending)]
  {
    var id := pending[0];
    var publish, mark := Publish(r, answers.confirmed(id), answers.confirmed(id)), Mark(r, answers.Applied(id));
    var mid := Next(cfg, s, publish);
    PublishMatches(cfg, s, rows, publish);
    TwoSteps(cfg, s, publish, mark);
    MarkMatches(cfg, mid, rows, r, answers.Applied(id));
  }

  lemma HeadOfBatch(cfg: Config, s: State, rows: seq<Row>, k: nat, answers: Answers)
    requires Table(rows) && k < |Batch(rows, |rows|, cfg.maxAttempts, cfg.batchSize)|
    requires Matches(s, RowsUpTo(rows, cfg.maxAttempts, k, answers))
    ensures
      var id := Ids(Batch(rows, |rows|, cfg.maxAttempts, cfg.batchSize))[k];
      && id in s.rows
      && RowsUpTo(rows, cfg.maxAttempts, k + 1, answers) ==
        AnsweredRows(RowsUpTo(rows, cfg.maxAttempts, k, answers), id, answers)
  {
    var now := RowsUpTo(rows, cfg.maxAttempts, k, answers);
    ProcessNext(rows, cfg.maxAttempts, cfg.batchSize, k, answers);
    var i := BatchRank(rows, |rows|, cfg.maxAttempts, cfg.batchSize, k);
    assert now[i].id == rows[i].id;
  }

  /** The steps from the k-th row of the batch on. */
  lemma {:induction false} RestOfBatch(cfg: Config, s: State, rows: seq<Row>, batch: seq<Row>, r: nat, k: nat,
          answers: Answers)
    returns (steps: seq<Step>)
    requires Table(rows) && r < |s.relays|
    requires batch == Batch(rows, |rows|, cfg.maxAttempts, cfg.batchSize) && k < |batch|
    requires Matches(s, RowsUpTo(rows, cfg.maxAttempts, k, answers))
    requires s.relays[r] == Holding(Ids(batch)[k..], Unpublished)
    ensures IsRun(cfg, s, steps)
    ensures Matches(After(cfg, s, steps), RowsUpTo(rows, cfg.maxAttempts, |batch|, answers))
    ensures After(cfg, s, steps).relays == s.relays[r := Idle]
    decreases |batch| - k
  {
    var pending := Ids(batch)[k..];
    var now := RowsUpTo(rows, cfg.maxAttempts, k, answers);
    HeadOfBatch(cfg, s, rows, k, answers);
    assert pending[0] == Ids(batch)[k];
    PairOfSteps(cfg, s, now, r, pending, answers);
    steps := Pair(r, pending[0], answers);
    if k + 1 < |batch| {
      assert pending[1..] == Ids(batch)[k + 1..];
      var more := RestOfBatch(cfg, After(cfg, s, steps), rows, batch, r, k + 1, answers);
      RunsCompose(cfg, s, steps, more);
      steps := steps + more;
    }
  }

  /**
   * A tick of a relay is a run of the protocol, from any state that matches the table: the run leads to a state that
   * matches the table after the tick, and leaves the relay idle. So what holds of every run holds of the code.
   */
  lemma {:induction false} TickIsRun(cfg: Config, s: State, rows: seq<Row>, r: nat, answers: Answers)
    returns (steps: seq<Step>)
    requires Table(rows) && Matches(s, rows) && r < |s.relays| && s.relays[r] == Idle
    ensures IsRun(cfg, s, steps)
    ensures Matches(After(cfg, s, steps), TickRows(rows, cfg.maxAttempts, cfg.batchSize, answers))
    ensures After(cfg, s, steps).relays == s.relays
  {
    var batch := Batch(rows, |rows|, cfg.maxAttempts, cfg.batchSize);
    NothingProcessed(rows, cfg.maxAttempts, answers);
    if batch == [] {
      WholeBatch(rows, cfg.maxAttempts, cfg.batchSize, answers);
      return [];
    }
    var claim := Claim(r, Ids(batch));
    ClaimEnabled(cfg, s, rows, r);
    var s' := Next(cfg, s, claim);
    assert Ids(batch)[0..] == Ids(batch);
    var more := RestOfBatch(cfg, s', rows, batch, r, 0, answers);
    WholeBatch(rows, cfg.maxAttempts, cfg.batchSize, answers);
    OneStep(cfg, s, claim);
    RunsCompose(cfg, s, [claim], more);
    steps := [claim] + more;
  }
}

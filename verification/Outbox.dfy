/** pkg/outbox/outbox.go: the job_events table, the producer's insert and one relay tick. */
module Outbox {
  import opened Outcomes

  datatype Event = Event(jobId: string, stageAttemptId: string, queueName: string, traceId: string)

  datatype Row = Row(id: int, event: Event, payload: string, published: bool, attempts: nat)

  datatype RelayConfig = RelayConfig(pollIntervalMs: int, batchSize: int, maxAttempts: int) {
    predicate Usable() { pollIntervalMs > 0 && batchSize > 0 && maxAttempts > 0 }

    /** Each setting that is missing or not positive gets its default by itself: 1 second, 100 rows, 8 attempts. */
    function WithDefaults(): (c: RelayConfig)
      ensures c.Usable()
      ensures c.pollIntervalMs == pollIntervalMs || (pollIntervalMs <= 0 && c.pollIntervalMs == 1000)
      ensures c.batchSize == batchSize || (batchSize <= 0 && c.batchSize == 100)
      ensures c.maxAttempts == maxAttempts || (maxAttempts <= 0 && c.maxAttempts == 8)
    {
      RelayConfig(if pollIntervalMs <= 0 then 1000 else pollIntervalMs,
                  if batchSize <= 0 then 100 else batchSize,
                  if maxAttempts <= 0 then 8 else maxAttempts)
    }
  }

  /** Rows in id order, each id once. */
  predicate Table(rows: seq<Row>) {
    forall i, j :: 0 <= i < j < |rows| ==> rows[i].id < rows[j].id
  }

  predicate Eligible(row: Row, maxAttempts: int) {
    !row.published && row.attempts < maxAttempts
  }

  /** How many of the first `n` rows are eligible. */
  function EligibleBefore(rows: seq<Row>, n: nat, maxAttempts: int): nat
    requires n <= |rows|
  {
    if n == 0 then 0
    else EligibleBefore(rows, n - 1, maxAttempts) + (if Eligible(rows[n - 1], maxAttempts) then 1 else 0)
  }

  /** The row is among the first `limit` eligible ones. */
  predicate Claimed(rows: seq<Row>, i: nat, maxAttempts: int, limit: int)
    requires i < |rows|
  {
    Eligible(rows[i], maxAttempts) && EligibleBefore(rows, i, maxAttempts) < limit
  }

  /** The claimed rows among the first `n`, in id order. */
  function Batch(rows: seq<Row>, n: nat, maxAttempts: int, limit: int): seq<Row>
    requires n <= |rows|
  {
    if n == 0 then []
    else
      var last := if Claimed(rows, n - 1, maxAttempts, limit) then [rows[n - 1]] else [];
      Batch(rows, n - 1, maxAttempts, limit) + last
  }

  /** For each row of one tick: whether the broker confirms the publish, and what the database answers to the update. */
  datatype Answers = Answers(confirmed: int -> bool, update: int -> Answer) {
    predicate Applied(id: int) { update(id) != Refused }
  }

  function Marked(row: Row, confirmed: bool): Row {
    row.(published := row.published || confirmed, attempts := row.attempts + 1)
  }

  function Processed(row: Row, answers: Answers): Row {
    if answers.Applied(row.id) then Marked(row, answers.confirmed(row.id)) else row
  }

  function RowAfter(rows: seq<Row>, i: nat, maxAttempts: int, limit: int, answers: Answers): Row
    requires i < |rows|
  {
    if Claimed(rows, i, maxAttempts, limit) then Processed(rows[i], answers) else rows[i]
  }

  /** The table after a tick: each claimed row processed once, every other row untouched. */
  function TickRows(rows: seq<Row>, maxAttempts: int, limit: int, answers: Answers): seq<Row> {
    seq(|rows|, i requires 0 <= i < |rows| => RowAfter(rows, i, maxAttempts, limit, answers))
  }

  function UpdatedRow(row: Row, id: int, confirmed: bool): Row {
    if row.id == id then Marked(row, confirmed) else row
  }

  function Updated(rows: seq<Row>, id: int, confirmed: bool): seq<Row> {
    seq(|rows|, i requires 0 <= i < |rows| => UpdatedRow(rows[i], id, confirmed))
  }

  class JobEvents {
    var rows: seq<Row>
    var nextId: int

    predicate Valid()
      reads this
    {
      Table(rows) && forall i :: 0 <= i < |rows| ==> rows[i].id < nextId
    }

    constructor ()
      ensures Valid() && rows == []
    {
      rows, nextId := [], 1;
    }

    /**
     * `generated` is the fresh stage attempt id; `encoded` is the JSON of the payload, None when it cannot be encoded;
     * `inserts` says whether the INSERT succeeds.
     */
    method TxPublish(ev: Event, encoded: Option<string>, generated: string, inserts: bool)
      returns (r: Result<int, string>)
      requires Valid()
      modifies this
      ensures Valid()
      ensures r.Err? <==> ev.jobId == "" || ev.queueName == "" || encoded.None? || !inserts
      ensures r.Err? ==> rows == old(rows) && nextId == old(nextId)
      ensures r.Ok? ==>
        var attempt := if ev.stageAttemptId == "" then generated else ev.stageAttemptId;
        && r.value == old(nextId) < nextId
        && rows == old(rows) + [Row(r.value, ev.(stageAttemptId := attempt), encoded.value, false, 0)]
    {
      if ev.jobId == "" || ev.queueName == "" {
        return Err("outbox: job_id and queue_name are required");
      }
      var stored := ev;
      if ev.stageAttemptId == "" {
        stored := ev.(stageAttemptId := generated);
      }
      if encoded.None? {
        return Err("marshal outbox payload");
      }
      if !inserts {
        return Err("outbox insert");
      }
      rows := rows + [Row(nextId, stored, encoded.value, false, 0)];
      r := Ok(nextId);
      nextId := nextId + 1;
    }

    /** SELECT ... WHERE published_at IS NULL AND attempts < max ORDER BY id LIMIT limit */
    method Claim(maxAttempts: int, limit: int) returns (batch: seq<Row>)
      ensures batch == Batch(rows, |rows|, maxAttempts, limit)
    {
      batch := [];
      var eligible := 0;
      for i := 0 to |rows|
        invariant eligible == EligibleBefore(rows, i, maxAttempts)
        invariant batch == Batch(rows, i, maxAttempts, limit)
      {
        if Eligible(rows[i], maxAttempts) {
          if eligible < limit {
            batch := batch + [rows[i]];
          }
          eligible := eligible + 1;
        }
      }
    }

    /** UPDATE job_events SET attempts = attempts + 1 [, published_at = NOW()] WHERE id = $1 */
    method Update(id: int, confirmed: bool)
      modifies this`rows
      ensures rows == Updated(old(rows), id, confirmed)
    {
      var updated: seq<Row> := [];
      for i := 0 to |rows|
        invariant |updated| == i && forall j :: 0 <= j < i ==> updated[j] == UpdatedRow(rows[j], id, confirmed)
      {
        updated := updated + [if rows[i].id == id then Marked(rows[i], confirmed) else rows[i]];
      }
      rows := updated;
    }
  }

  class Broker {
    /** Every message handed over for publishing, in order. */
    var sent: seq<Row>

    constructor ()
      ensures sent == []
    {
      sent := [];
    }

    method Publish(row: Row, confirmed: bool) returns (ok: bool)
      modifies this
      ensures sent == old(sent) + [row] && ok == confirmed
    {
      sent := sent + [row];
      ok := confirmed;
    }
  }

  /** How many of the first `n` rows were confirmed and marked. */
  function PublishedCount(batch: seq<Row>, n: nat, answers: Answers): nat
    requires n <= |batch|
  {
    if n == 0 then 0
    else
      var row := batch[n - 1];
      var counted := answers.confirmed(row.id) && answers.update(row.id) == Done;
      PublishedCount(batch, n - 1, answers) + (if counted then 1 else 0)
  }

  /** The table once the first `k` eligible rows have been processed. */
  function RowsUpTo(rows: seq<Row>, maxAttempts: int, k: int, answers: Answers): seq<Row> {
    TickRows(rows, maxAttempts, k, answers)
  }

  lemma NothingProcessed(rows: seq<Row>, maxAttempts: int, answers: Answers)
    ensures RowsUpTo(rows, maxAttempts, 0, answers) == rows
  {
  }

  lemma {:induction false} EligibleBeforeGrows(rows: seq<Row>, i: nat, j: nat, maxAttempts: int)
    requires i <= j <= |rows|
    ensures EligibleBefore(rows, i, maxAttempts) <= EligibleBefore(rows, j, maxAttempts)
    ensures i < j && Eligible(rows[i], maxAttempts) ==>
      EligibleBefore(rows, i, maxAttempts) < EligibleBefore(rows, j, maxAttempts)
    decreases j
  {
    if i < j { EligibleBeforeGrows(rows, i, j - 1, maxAttempts); }
  }

  lemma {:induction false} BatchLength(rows: seq<Row>, n: nat, maxAttempts: int, limit: int)
    requires n <= |rows|
    ensures |Batch(rows, n, maxAttempts, limit)|
         == if limit <= 0 then 0
            else if EligibleBefore(rows, n, maxAttempts) < limit then EligibleBefore(rows, n, maxAttempts)
            else limit
  {
    if n > 0 { BatchLength(rows, n - 1, maxAttempts, limit); }
  }

  /** The k-th row of the batch is the eligible row with k eligible ones before it. */
  lemma {:induction false} BatchRank(rows: seq<Row>, n: nat, maxAttempts: int, limit: int, k: nat) returns (i: nat)
    requires n <= |rows| && k < |Batch(rows, n, maxAttempts, limit)|
    ensures i < n && Claimed(rows, i, maxAttempts, limit) && EligibleBefore(rows, i, maxAttempts) == k
    ensures Batch(rows, n, maxAttempts, limit)[k] == rows[i]
  {
    BatchLength(rows, n, maxAttempts, limit);
    if Claimed(rows, n - 1, maxAttempts, limit) && k == |Batch(rows, n, maxAttempts, limit)| - 1 {
      BatchLength(rows, n - 1, maxAttempts, limit);
      i := n - 1;
    } else {
      i := BatchRank(rows, n - 1, maxAttempts, limit, k);
    }
  }

  lemma ProcessNext(rows: seq<Row>, maxAttempts: int, limit: int, k: nat, answers: Answers)
    requires Table(rows) && k < |Batch(rows, |rows|, maxAttempts, limit)|
    ensures
      var row, now := Batch(rows, |rows|, maxAttempts, limit)[k], RowsUpTo(rows, maxAttempts, k, answers);
      RowsUpTo(rows, maxAttempts, k + 1, answers)
        == if answers.Applied(row.id) then Updated(now, row.id, answers.confirmed(row.id)) else now
  {
    var i := BatchRank(rows, |rows|, maxAttempts, limit, k);
    forall j | 0 <= j < |rows|
      ensures RowAfter(rows, j, maxAttempts, k + 1, answers)
           == if answers.Applied(rows[i].id)
              then UpdatedRow(RowAfter(rows, j, maxAttempts, k, answers), rows[i].id, answers.confirmed(rows[i].id))
              else RowAfter(rows, j, maxAttempts, k, answers)
    {
      if j < i { EligibleBeforeGrows(rows, j, i, maxAttempts); }
      if i < j { EligibleBeforeGrows(rows, i, j, maxAttempts); }
    }
  }

  lemma WholeBatch(rows: seq<Row>, maxAttempts: int, limit: int, answers: Answers)
    ensures RowsUpTo(rows, maxAttempts, |Batch(rows, |rows|, maxAttempts, limit)|, answers)
         == TickRows(rows, maxAttempts, limit, answers)
  {
    BatchLength(rows, |rows|, maxAttempts, limit);
    forall i | 0 <= i < |rows|
      ensures RowAfter(rows, i, maxAttempts, |Batch(rows, |rows|, maxAttempts, limit)|, answers)
           == RowAfter(rows, i, maxAttempts, limit, answers)
    {
      EligibleBeforeGrows(rows, i, |rows|, maxAttempts);
    }
  }

  lemma NextOfBatch(batch: seq<Row>, k: nat, answers: Answers)
    requires k < |batch|
    ensures batch[..k + 1] == batch[..k] + [batch[k]]
    ensures
      var counted := answers.confirmed(batch[k].id) && answers.update(batch[k].id) == Done;
      PublishedCount(batch, k + 1, answers) == PublishedCount(batch, k, answers) + if counted then 1 else 0
  {
  }

  class Relay {
    const db: JobEvents
    const pub: Broker
    const cfg: RelayConfig

    constructor (db: JobEvents, pub: Broker, cfg: RelayConfig)
      ensures this.db == db && this.pub == pub && this.cfg == cfg.WithDefaults()
    {
      this.db, this.pub, this.cfg := db, pub, cfg.WithDefaults();
    }

    /**
     * One tick; `claims` says whether the claim query and reading its rows succeed. `answers` stands for the broker and
     * the database.
     */
    method Tick(claims: bool, answers: Answers) returns (r: Result<nat, string>)
      requires db.Valid()
      modifies db`rows, pub
      ensures db.Valid()
      ensures r.Ok? <==> claims
      ensures r.Err? ==> db.rows == old(db.rows) && pub.sent == old(pub.sent)
      ensures r.Ok? ==>
        var batch := Batch(old(db.rows), |old(db.rows)|, cfg.maxAttempts, cfg.batchSize);
        && db.rows == TickRows(old(db.rows), cfg.maxAttempts, cfg.batchSize, answers)
        && pub.sent == old(pub.sent) + batch
        && r.value == PublishedCount(batch, |batch|, answers)
    {
      if !claims {
        return Err("claim batch");
      }
      var published := PublishBatch(answers);
      r := Ok(published);
    }

    /** One batch: claim, publish each row, mark the outcome. */
    method PublishBatch(answers: Answers) returns (published: nat)
      requires db.Valid()
      modifies db`rows, pub
      ensures db.rows == TickRows(old(db.rows), cfg.maxAttempts, cfg.batchSize, answers)
      ensures
        var batch := Batch(old(db.rows), |old(db.rows)|, cfg.maxAttempts, cfg.batchSize);
        && pub.sent == old(pub.sent) + batch
        && published == PublishedCount(batch, |batch|, answers)
      ensures db.Valid()
    {
      ghost var before := db.rows;
      var batch := db.Claim(cfg.maxAttempts, cfg.batchSize);
      published := 0;
      NothingProcessed(before, cfg.maxAttempts, answers);
      for k := 0 to |batch|
        invariant db.rows == RowsUpTo(before, cfg.maxAttempts, k, answers)
        invariant pub.sent == old(pub.sent) + batch[..k]
        invariant published == PublishedCount(batch, k, answers)
      {
        var row := batch[k];
        NextOfBatch(batch, k, answers);
        ProcessNext(before, cfg.maxAttempts, cfg.batchSize, k, answers);
        var ok := pub.Publish(row, answers.confirmed(row.id));
        if !ok {
          if answers.Applied(row.id) {
            db.Update(row.id, false);
          }
          continue;
        }
        if answers.Applied(row.id) {
          db.Update(row.id, true);
        }
        if answers.update(row.id) != Done {
          continue;
        }
        published := published + 1;
      }
      assert batch[..|batch|] == batch;
      WholeBatch(before, cfg.maxAttempts, cfg.batchSize, answers);
    }
  }

  // ---- The number a tick returns ----

  /** How many of the first `n` rows became published. */
  function NewlyPublished(before: seq<Row>, after: seq<Row>, n: nat): nat
    requires n <= |before| == |after|
  {
    if n == 0 then 0
    else
      NewlyPublished(before, after, n - 1) + (if !before[n - 1].published && after[n - 1].published then 1 else 0)
  }

  lemma {:induction false} CountOfPrefix(batch: seq<Row>, more: seq<Row>, n: nat, answers: Answers)
    requires n <= |batch|
    ensures PublishedCount(batch + more, n, answers) == PublishedCount(batch, n, answers)
  {
    if n > 0 { CountOfPrefix(batch, more, n - 1, answers); }
  }

  /** Some row was published and marked, but the update reported an error. */
  predicate UncountedBefore(rows: seq<Row>, n: nat, maxAttempts: int, limit: int, answers: Answers)
    requires n <= |rows|
  {
    exists i :: 0 <= i < n && Claimed(rows, i, maxAttempts, limit) &&
      answers.confirmed(rows[i].id) && answers.update(rows[i].id) == Lost
  }

  /**
   * A tick never returns more than the number of rows it published in the table, and exactly that number unless an
   * update that marked a published row reported an error.
   */
  lemma {:induction false} CountsNewlyPublished(rows: seq<Row>, n: nat, maxAttempts: int, limit: int, answers: Answers)
    requires n <= |rows|
    ensures
      var batch, after := Batch(rows, n, maxAttempts, limit), TickRows(rows, maxAttempts, limit, answers);
      var returned, newly := PublishedCount(batch, |batch|, answers), NewlyPublished(rows, after, n);
      returned <= newly && (returned == newly <==> !UncountedBefore(rows, n, maxAttempts, limit, answers))
  {
    if n > 0 {
      CountsNewlyPublished(rows, n - 1, maxAttempts, limit, answers);
      var row, before := rows[n - 1], Batch(rows, n - 1, maxAttempts, limit);
      assert TickRows(rows, maxAttempts, limit, answers)[n - 1] == RowAfter(rows, n - 1, maxAttempts, limit, answers);
      if Claimed(rows, n - 1, maxAttempts, limit) {
        CountOfPrefix(before, [row], |before|, answers);
        assert Batch(rows, n, maxAttempts, limit) == before + [row];
      } else {
        assert Batch(rows, n, maxAttempts, limit) == before;
      }
      if UncountedBefore(rows, n - 1, maxAttempts, limit, answers) {
        assert UncountedBefore(rows, n, maxAttempts, limit, answers);
      }
    }
  }

  // ---- No starvation ----

  /** The attempts left, before they run out, on the eligible rows among the first `n`. */
  function AttemptsLeft(rows: seq<Row>, n: nat, maxAttempts: int): nat
    requires n <= |rows|
  {
    if n == 0 then 0
    else
      var row := rows[n - 1];
      AttemptsLeft(rows, n - 1, maxAttempts) + (if Eligible(row, maxAttempts) then maxAttempts - row.attempts else 0)
  }

  lemma OneMore(k: int, e: int)
    ensures k * (e + 1) == k * e + k
  {
  }

  lemma {:induction false} AttemptsLeftBounds(rows: seq<Row>, n: nat, maxAttempts: int)
    requires n <= |rows| && maxAttempts > 0
    ensures EligibleBefore(rows, n, maxAttempts) <= AttemptsLeft(rows, n, maxAttempts)
    ensures AttemptsLeft(rows, n, maxAttempts) <= maxAttempts * EligibleBefore(rows, n, maxAttempts)
  {
    if n > 0 {
      AttemptsLeftBounds(rows, n - 1, maxAttempts);
      OneMore(maxAttempts, EligibleBefore(rows, n - 1, maxAttempts));
    }
  }

  /** The updates of this tick all apply. */
  ghost predicate WritesWork(answers: Answers) {
    forall id :: answers.Applied(id)
  }

  /** Whatever the publish outcomes, a tick uses up one attempt on each claimed row. */
  lemma {:induction false} TickUsesAttempts(rows: seq<Row>, n: nat, maxAttempts: int, limit: nat, answers: Answers)
    requires n <= |rows| && WritesWork(answers)
    ensures
      var e := EligibleBefore(rows, n, maxAttempts);
      AttemptsLeft(TickRows(rows, maxAttempts, limit, answers), n, maxAttempts) + (if e < limit then e else limit)
        <= AttemptsLeft(rows, n, maxAttempts)
  {
    if n > 0 {
      TickUsesAttempts(rows, n - 1, maxAttempts, limit, answers);
      assert TickRows(rows, maxAttempts, limit, answers)[n - 1] == RowAfter(rows, n - 1, maxAttempts, limit, answers);
    }
  }

  /** One period of a single relay: a tick, then any number of new rows with larger ids. */
  datatype Period = Period(answers: Answers, inserted: seq<Row>)

  function AfterPeriod(rows: seq<Row>, cfg: RelayConfig, p: Period): seq<Row> {
    TickRows(rows, cfg.maxAttempts, cfg.batchSize, p.answers) + p.inserted
  }

  /** The table the n-th tick finds. */
  function RowsAt(rows: seq<Row>, cfg: RelayConfig, periods: seq<Period>, n: nat): seq<Row>
    requires n <= |periods|
    decreases n
  {
    if n == 0 then rows else RowsAt(AfterPeriod(rows, cfg, periods[0]), cfg, periods[1..], n - 1)
  }

  lemma {:induction false} CountsIgnoreLaterRows(rows: seq<Row>, more: seq<Row>, n: nat, maxAttempts: int)
    requires n <= |rows|
    ensures EligibleBefore(rows + more, n, maxAttempts) == EligibleBefore(rows, n, maxAttempts)
    ensures AttemptsLeft(rows + more, n, maxAttempts) == AttemptsLeft(rows, n, maxAttempts)
  {
    if n > 0 { CountsIgnoreLaterRows(rows, more, n - 1, maxAttempts); }
  }

  lemma TimesNext(n: int, size: int)
    ensures (n + 1) * size == n * size + size
  {
  }

  /**
   * A row with a full batch ahead of it waits, while the attempts left ahead of it go down by the size of the batch.
   */
  lemma PeriodUsesAttempts(rows: seq<Row>, cfg: RelayConfig, p: Period, i: nat)
    requires cfg.Usable() && i < |rows| && WritesWork(p.answers)
    requires EligibleBefore(rows, i, cfg.maxAttempts) >= cfg.batchSize
    ensures i < |AfterPeriod(rows, cfg, p)| && AfterPeriod(rows, cfg, p)[i] == rows[i]
    ensures AttemptsLeft(AfterPeriod(rows, cfg, p), i, cfg.maxAttempts) + cfg.batchSize <=
      AttemptsLeft(rows, i, cfg.maxAttempts)
  {
    var ticked := TickRows(rows, cfg.maxAttempts, cfg.batchSize, p.answers);
    TickUsesAttempts(rows, i, cfg.maxAttempts, cfg.batchSize, p.answers);
    CountsIgnoreLaterRows(ticked, p.inserted, i, cfg.maxAttempts);
    assert ticked[i] == rows[i];
  }

  /**
   * No starvation: as long as updates apply, an eligible row is claimed by the tick number `n` with
   * n * BatchSize at most the attempts left on the smaller ids, whatever is published, fails or arrives meanwhile.
   */
  lemma {:induction false} ClaimedInTime(rows: seq<Row>, cfg: RelayConfig, periods: seq<Period>, i: nat)
    returns (n: nat)
    requires cfg.Usable() && i < |rows| && Eligible(rows[i], cfg.maxAttempts)
    requires forall p :: 0 <= p < |periods| ==> WritesWork(periods[p].answers)
    requires |periods| * cfg.batchSize > AttemptsLeft(rows, i, cfg.maxAttempts)
    ensures n < |periods| && n * cfg.batchSize <= AttemptsLeft(rows, i, cfg.maxAttempts)
    ensures i < |RowsAt(rows, cfg, periods, n)| &&
      Claimed(RowsAt(rows, cfg, periods, n), i, cfg.maxAttempts, cfg.batchSize)
    decreases |periods|
  {
    if EligibleBefore(rows, i, cfg.maxAttempts) < cfg.batchSize {
      n := 0;
    } else {
      PeriodUsesAttempts(rows, cfg, periods[0], i);
      TimesNext(|periods| - 1, cfg.batchSize);
      var m := ClaimedInTime(AfterPeriod(rows, cfg, periods[0]), cfg, periods[1..], i);
      TimesNext(m, cfg.batchSize);
      n := m + 1;
    }
  }

  lemma DeadlineCovers(work: nat, size: nat)
    requires size > 0
    ensures (work / size + 1) * size > work
  {
  }

  lemma FirstPeriods(rows: seq<Row>, cfg: RelayConfig, periods: seq<Period>, d: nat)
    requires d <= |periods|
    requires forall p :: 0 <= p < |periods| ==> WritesWork(periods[p].answers)
    ensures forall p :: 0 <= p < |periods[..d]| ==> WritesWork(periods[..d][p].answers)
  {
  }

  lemma {:induction false} PrefixRows(rows: seq<Row>, cfg: RelayConfig, periods: seq<Period>, d: nat, n: nat)
    requires n <= d <= |periods|
    ensures RowsAt(rows, cfg, periods[..d], n) == RowsAt(rows, cfg, periods, n)
    decreases n
  {
    if n > 0 {
      assert periods[..d][1..] == periods[1..][..d - 1];
      PrefixRows(AfterPeriod(rows, cfg, periods[0]), cfg, periods[1..], d - 1, n - 1);
    }
  }

  /**
   * In the form of a deadline: with k eligible rows ahead the row is claimed within floor(k * MaxAttempts /
   * BatchSize) + 1 ticks.
   */
  lemma NoStarvation(rows: seq<Row>, cfg: RelayConfig, periods: seq<Period>, i: nat, k: nat) returns (n: nat)
    requires cfg.Usable() && i < |rows| && Eligible(rows[i], cfg.maxAttempts)
    requires k == EligibleBefore(rows, i, cfg.maxAttempts)
    requires forall p :: 0 <= p < |periods| ==> WritesWork(periods[p].answers)
    requires |periods| >= (k * cfg.maxAttempts) / cfg.batchSize + 1
    ensures n < (k * cfg.maxAttempts) / cfg.batchSize + 1 <= |periods|
    ensures i < |RowsAt(rows, cfg, periods, n)| &&
      Claimed(RowsAt(rows, cfg, periods, n), i, cfg.maxAttempts, cfg.batchSize)
  {
    AttemptsLeftBounds(rows, i, cfg.maxAttempts);
    var work := k * cfg.maxAttempts;
    var deadline := work / cfg.batchSize + 1;
    DeadlineCovers(work, cfg.batchSize);
    FirstPeriods(rows, cfg, periods, deadline);
    n := ClaimedInTime(rows, cfg, periods[..deadline], i);
    PrefixRows(rows, cfg, periods, deadline, n);
  }

  /**
   * A backlog with nothing new arriving is settled: after as many ticks as attempts are left, no row is eligible any
   * more.
   */
  lemma {:induction false} BacklogDrains(rows: seq<Row>, cfg: RelayConfig, periods: seq<Period>)
    requires cfg.Usable() && |periods| >= AttemptsLeft(rows, |rows|, cfg.maxAttempts)
    requires forall p :: 0 <= p < |periods| ==> WritesWork(periods[p].answers) && periods[p].inserted == []
    ensures |RowsAt(rows, cfg, periods, |periods|)| == |rows|
    ensures forall i :: 0 <= i < |rows| ==>
      RowsAt(rows, cfg, periods, |periods|)[i].published ||
        RowsAt(rows, cfg, periods, |periods|)[i].attempts >= cfg.maxAttempts
    decreases |periods|
  {
    AttemptsLeftBounds(rows, |rows|, cfg.maxAttempts);
    if periods == [] {
      forall i | 0 <= i < |rows|
        ensures !Eligible(rows[i], cfg.maxAttempts)
      {
        EligibleBeforeGrows(rows, i, |rows|, cfg.maxAttempts);
      }
    } else {
      var next := AfterPeriod(rows, cfg, periods[0]);
      TickUsesAttempts(rows, |rows|, cfg.maxAttempts, cfg.batchSize, periods[0].answers);
      assert periods[0].inserted == [];
      assert next == TickRows(rows, cfg.maxAttempts, cfg.batchSize, periods[0].answers);
      AttemptsLeftBounds(next, |next|, cfg.maxAttempts);
      BacklogDrains(next, cfg, periods[1..]);
    }
  }
}

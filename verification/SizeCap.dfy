/**
 * The 2 GiB cap under concurrent chunk posts of one upload: the size check, the store and the record are separate
 * steps, and steps of other posts may come between them (cmd/upload-service/main.go:263-285).
 */
module SizeCap {
  import opened Assembly
  import opened Decimal
  import opened Keys
  import opened Outcomes
  import opened Tracker
  import opened Upload

  /** A post that has passed the size check and not yet been recorded; `stored` once its body is in the store. */
  datatype Pending = Pending(idx: Int64, size: Int64, stored: bool)

  /** What is recorded, the length of the body stored under each index, and the posts under way. */
  datatype State = State(sizes: Sizes, bodies: Sizes, pending: seq<Pending>)

  datatype Step =
    | Check(idx: Int64, size: Int64)
    | Keep(i: nat)
    | Record(i: nat)
    | Abort(i: nat)
    | Purge

  /** How many posts may be under way at once, and whether a post may fail once its body is stored. */
  datatype Setting = Setting(k: nat, failures: bool)

  const EMPTY := State(map[], map[], [])

  /** Up to this many posts at once the int64 total of the check cannot wrap around. */
  const MAX_PENDING: int := 0x40_0000_0000 - 65

  ghost predicate Enabled(c: Setting, s: State, step: Step) {
    match step
    case Check(idx, size) =>
      && |s.pending| < c.k && idx >= 0 && 1 <= size <= MAX_CHUNK
      && Wrap(Wrap(Sum(s.sizes)) + size) <= MAX_TOTAL
    case Keep(i) => i < |s.pending| && !s.pending[i].stored
    case Record(i) => i < |s.pending| && s.pending[i].stored
    case Abort(i) => i < |s.pending| && (s.pending[i].stored ==> c.failures)
    case Purge => true
  }

  function Without(pending: seq<Pending>, i: nat): seq<Pending>
    requires i < |pending|
  {
    pending[..i] + pending[i + 1..]
  }

  ghost function Next(c: Setting, s: State, step: Step): State
    requires Enabled(c, s, step)
  {
    match step
    case Check(idx, size) => s.(pending := s.pending + [Pending(idx, size, false)])
    case Keep(i) =>
      var post := s.pending[i];
      s.(bodies := s.bodies[post.idx := post.size], pending := s.pending[i := post.(stored := true)])
    case Record(i) =>
      var post := s.pending[i];
      s.(sizes := s.sizes[post.idx := post.size], pending := Without(s.pending, i))
    case Abort(i) => s.(pending := Without(s.pending, i))
    case Purge => s.(sizes := map[])
  }

  ghost predicate IsRun(c: Setting, s: State, steps: seq<Step>)
    decreases |steps|
  {
    steps != [] ==> Enabled(c, s, steps[0]) && IsRun(c, Next(c, s, steps[0]), steps[1..])
  }

  ghost function After(c: Setting, s: State, steps: seq<Step>): State
    requires IsRun(c, s, steps)
    decreases |steps|
  {
    if steps == [] then s else After(c, Next(c, s, steps[0]), steps[1..])
  }

  function PendingBytes(pending: seq<Pending>): int {
    if pending == [] then 0 else PendingBytes(pending[..|pending| - 1]) + pending[|pending| - 1].size
  }

  // ---- Recorded bytes ----

  /** What all but one of the pending posts may add. */
  function Spare(k: nat): int {
    if k == 0 then 0 else (k - 1) * MAX_CHUNK
  }

  predicate SizesFit(pending: seq<Pending>) {
    forall i :: 0 <= i < |pending| ==> 1 <= pending[i].size <= MAX_CHUNK
  }

  ghost predicate Inv(k: nat, s: State) {
    && |s.pending| <= k && SizesFit(s.pending)
    && (forall idx :: idx in s.sizes ==> s.sizes[idx] >= 0)
    && Sum(s.sizes) + PendingBytes(s.pending) <= MAX_TOTAL + Spare(k)
  }

  lemma {:induction false} PendingWithout(pending: seq<Pending>, i: nat)
    requires i < |pending|
    ensures PendingBytes(Without(pending, i)) == PendingBytes(pending) - pending[i].size
    ensures SizesFit(pending) ==> SizesFit(Without(pending, i))
  {
    var last := |pending| - 1;
    if i == last {
      assert Without(pending, i) == pending[..last];
    } else {
      assert Without(pending, i)[..last - 1] == Without(pending[..last], i);
      PendingWithout(pending[..last], i);
    }
  }

  lemma {:induction false} PendingStored(pending: seq<Pending>, i: nat)
    requires i < |pending|
    ensures PendingBytes(pending[i := pending[i].(stored := true)]) == PendingBytes(pending)
  {
    var last, updated := |pending| - 1, pending[i := pending[i].(stored := true)];
    if i == last {
      assert updated[..last] == pending[..last];
    } else {
      assert updated[..last] == pending[..last][i := pending[i].(stored := true)];
      PendingStored(pending[..last], i);
    }
  }

  lemma {:induction false} PendingWithin(pending: seq<Pending>)
    requires SizesFit(pending)
    ensures 0 <= PendingBytes(pending) <= |pending| * MAX_CHUNK
  {
    if pending != [] { PendingWithin(pending[..|pending| - 1]); }
  }

  /** Within the invariant the wrapped sum of the check is the true one. */
  lemma CheckIsExact(k: nat, total: int, size: int)
    requires 0 < k <= MAX_PENDING && 0 <= total <= MAX_TOTAL + Spare(k) && 1 <= size <= MAX_CHUNK
    ensures Wrap(Wrap(total) + size) == total + size
  {
    assert (k - 1) * MAX_CHUNK <= (MAX_PENDING - 1) * MAX_CHUNK;
    WrapExact(total);
    WrapExact(total + size);
  }

  lemma CheckKeepsInv(c: Setting, s: State, step: Step)
    requires c.k <= MAX_PENDING && Inv(c.k, s) && step.Check? && Enabled(c, s, step)
    ensures Inv(c.k, Next(c, s, step)) && Sum(s.sizes) + step.size <= MAX_TOTAL
  {
    var after := Next(c, s, step).pending;
    assert after[..|after| - 1] == s.pending;
    PendingWithin(s.pending);
    SumNotNegative(s.sizes, s.sizes.Keys);
    CheckIsExact(c.k, Sum(s.sizes), step.size);
    assert |s.pending| * MAX_CHUNK <= (c.k - 1) * MAX_CHUNK;
  }

  lemma StepKeepsInv(c: Setting, s: State, step: Step)
    requires c.k <= MAX_PENDING && Inv(c.k, s) && Enabled(c, s, step)
    ensures Inv(c.k, Next(c, s, step))
  {
    match step
    case Check(idx, size) => CheckKeepsInv(c, s, step);
    case Keep(i) => PendingStored(s.pending, i);
    case Record(i) =>
      SumUpdate(s.sizes, s.pending[i].idx, s.pending[i].size);
      PendingWithout(s.pending, i);
    case Abort(i) => PendingWithout(s.pending, i);
    case Purge => SumNotNegative(s.sizes, s.sizes.Keys);
  }

  lemma {:induction false} RunKeepsInv(c: Setting, s: State, steps: seq<Step>)
    requires c.k <= MAX_PENDING && Inv(c.k, s) && IsRun(c, s, steps)
    ensures Inv(c.k, After(c, s, steps))
    decreases |steps|
  {
    if steps != [] {
      StepKeepsInv(c, s, steps[0]);
      RunKeepsInv(c, Next(c, s, steps[0]), steps[1..]);
    }
  }

  /**
   * With at most k posts of an upload under way, recorded and pending bytes never exceed 2 GiB + (k - 1) * 32 MiB
   * together, whatever is overwritten, fails or is purged. (With some 2^38 posts at once the int64 total would wrap
   * around and the check would admit anything.)
   */
  lemma CapHolds(c: Setting, steps: seq<Step>)
    requires 0 < c.k <= MAX_PENDING && IsRun(c, EMPTY, steps)
    ensures
      var s := After(c, EMPTY, steps);
      && Sum(s.sizes) + PendingBytes(s.pending) <= MAX_TOTAL + (c.k - 1) * MAX_CHUNK
      && Sum(s.sizes) <= MAX_TOTAL + (c.k - 1) * MAX_CHUNK
  {
    RunKeepsInv(c, EMPTY, steps);
    PendingWithin(After(c, EMPTY, steps).pending);
  }

  // ---- Stored bytes ----

  /** The lengths of the bodies stored for the recorded indices: what a completion would assemble. */
  function Assembles(s: State): Sizes {
    map k | k in s.sizes && k in s.bodies :: s.bodies[k]
  }

  ghost function StoredBytes(s: State): int {
    Sum(Assembles(s))
  }

  /**
   * With one post at a time, none of which fails once it is stored, records are true but for the index of a post whose
   * body is stored already, and that post still fits beside all that is recorded.
   */
  ghost predicate Truthful(s: State) {
    && |s.pending| <= 1
    && (forall k :: k in s.sizes ==> k in s.bodies)
    && if s.pending == [] then Assembles(s) == s.sizes
       else
         var post := s.pending[0];
         && Sum(s.sizes) + post.size <= MAX_TOTAL
         && (if post.stored then post.idx in s.bodies && s.bodies[post.idx] == post.size else Assembles(s) == s.sizes)
         && forall k :: k in s.sizes && k != post.idx ==> s.bodies[k] == s.sizes[k]
  }

  lemma {:induction false} StepKeepsTruthful(c: Setting, s: State, step: Step)
    requires c.k == 1 && !c.failures && Inv(1, s) && Truthful(s) && Enabled(c, s, step)
    ensures Truthful(Next(c, s, step))
  {
    var s' := Next(c, s, step);
    match step
    case Check(idx, size) =>
      CheckKeepsInv(c, s, step);
      assert Assembles(s') == Assembles(s);
    case Keep(i) =>
    case Record(i) =>
      assert s'.pending == [];
      assert Assembles(s') == s'.sizes;
    case Abort(i) =>
      assert s'.pending == [];
      assert Assembles(s') == Assembles(s);
    case Purge =>
      SumNotNegative(s.sizes, s.sizes.Keys);
      assert Assembles(s') == s'.sizes;
  }

  lemma {:induction false} RunKeepsTruthful(c: Setting, s: State, steps: seq<Step>)
    requires c.k == 1 && !c.failures && Inv(1, s) && Truthful(s) && IsRun(c, s, steps)
    ensures Truthful(After(c, s, steps))
    decreases |steps|
  {
    if steps != [] {
      StepKeepsInv(c, s, steps[0]);
      StepKeepsTruthful(c, s, steps[0]);
      RunKeepsTruthful(c, Next(c, s, steps[0]), steps[1..]);
    }
  }

  /** Changing one entry to `v` leaves at most the old sum and `v`. */
  lemma SumReplaced(sizes: Sizes, bodies: Sizes, idx: Int64, v: Int64)
    requires bodies.Keys == sizes.Keys && v >= 0
    requires forall k :: k in sizes ==> sizes[k] >= 0
    requires forall k :: k in sizes && k != idx ==> bodies[k] == sizes[k]
    requires idx in bodies ==> bodies[idx] == v
    ensures Sum(bodies) <= Sum(sizes) + v
  {
    if idx in sizes {
      assert bodies == sizes[idx := v];
      SumUpdate(sizes, idx, v);
    } else {
      assert bodies == sizes;
    }
  }

  lemma TruthfulFits(s: State)
    requires Inv(1, s) && Truthful(s)
    ensures StoredBytes(s) <= MAX_TOTAL
  {
    PendingWithin(s.pending);
    if s.pending != [] {
      var post := s.pending[0];
      if post.stored { SumReplaced(s.sizes, Assembles(s), post.idx, post.size); }
    }
  }

  // ---- Building runs ----

  lemma {:induction false} RunsCompose(c: Setting, s: State, first: seq<Step>, second: seq<Step>)
    requires IsRun(c, s, first) && IsRun(c, After(c, s, first), second)
    ensures IsRun(c, s, first + second) && After(c, s, first + second) == After(c, After(c, s, first), second)
    decreases |first|
  {
    if first == [] {
      assert first + second == second;
    } else {
      assert (first + second)[1..] == first[1..] + second;
      RunsCompose(c, Next(c, s, first[0]), first[1..], second);
    }
  }

  lemma OneMore(c: Setting, s: State, steps: seq<Step>, step: Step)
    requires IsRun(c, s, steps) && Enabled(c, After(c, s, steps), step)
    ensures IsRun(c, s, steps + [step]) && After(c, s, steps + [step]) == Next(c, After(c, s, steps), step)
  {
    var last := After(c, s, steps);
    assert [step][1..] == [];
    assert After(c, Next(c, last, step), []) == Next(c, last, step);
    RunsCompose(c, s, steps, [step]);
  }

  // ---- A post of the server is a run of these steps ----

  /** The bodies stored for the upload have these lengths. */
  ghost predicate HasLengths(store: Store, id: string, bodies: Sizes) {
    forall k: Int64 ::
      && (k in bodies <==> ChunkKey(id, k) in store)
      && (k in bodies ==> |store[ChunkKey(id, k)]| == bodies[k])
  }

  lemma PostKeepsLengths(store: Store, id: string, bodies: Sizes, k: Int64, body: Body, size: Int64,
          answers: ChunkAnswers)
    requires SafeId(id) && HasLengths(store, id, bodies) && |body| == size
    ensures HasLengths(PostedStore(store, id, k, body, answers), id,
                       if answers.upload == Refused then bodies else bodies[k := size])
  {
    forall j: Int64 | j != k ensures ChunkKey(id, j) != ChunkKey(id, k) {
      if ChunkKey(id, j) == ChunkKey(id, k) { ChunkKeysDiffer(id, j, id, k); }
    }
  }

  /** The check of the first step, against the check the server makes. */
  lemma CheckIsTheServers(sizes: Sizes, bodies: Sizes, k: Int64, size: Int64)
    requires SizesOk(sizes) && k >= 0 && 1 <= size <= MAX_CHUNK
    ensures Enabled(Setting(1, true), State(sizes, bodies, []), Check(k, size)) <==> Sum(sizes) + size <= MAX_TOTAL
  {
    WrapExact(Sum(sizes));
    WrapExact(Sum(sizes) + size);
  }

  /**
   * A post the server admits is a run of these steps from what the server holds to what it holds afterwards, whatever
   * the store and the tracker answer.
   */
  lemma PostIsRun(store: Store, id: string, sizes: Sizes, bodies: Sizes, k: Int64, body: Body, answers: ChunkAnswers)
    returns (steps: seq<Step>)
    requires SafeId(id) && SizesOk(sizes) && HasLengths(store, id, bodies)
    requires k >= 0 && 1 <= |body| <= MAX_CHUNK && Sum(sizes) + |body| <= MAX_TOTAL
    ensures IsRun(Setting(1, true), State(sizes, bodies, []), steps)
    ensures
      var s := After(Setting(1, true), State(sizes, bodies, []), steps);
      && s.pending == [] && s.sizes == PostedSizes(sizes, k, |body|, answers)
      && HasLengths(PostedStore(store, id, k, body, answers), id, s.bodies)
  {
    var c, s, size := Setting(1, true), State(sizes, bodies, []), |body|;
    CheckIsTheServers(sizes, bodies, k, size);
    PostKeepsLengths(store, id, bodies, k, body, size, answers);
    OneMore(c, s, [], Check(k, size));
    steps := [] + [Check(k, size)];
    if answers.upload == Refused {
      OneMore(c, s, steps, Abort(0));
      return steps + [Abort(0)];
    }
    OneMore(c, s, steps, Keep(0));
    steps := steps + [Keep(0)];
    var last := if answers.upload == Done && answers.record != Refused then Record(0) else Abort(0);
    OneMore(c, s, steps, last);
    steps := steps + [last];
  }

  // ---- The bound on recorded bytes is reached ----

  function FullSizes(n: nat): Sizes
    requires n <= MAX_INT64
  {
    if n == 0 then map[] else FullSizes(n - 1)[n - 1 := MAX_CHUNK]
  }

  /** `n` chunks of 32 MiB stored and recorded, indices 0 to n - 1, and `p` more that have passed the check. */
  function Full(n: nat, p: nat): State
    requires n + p <= MAX_INT64
  {
    State(FullSizes(n), FullSizes(n), seq(p, i requires 0 <= i < p => Pending(n + i, MAX_CHUNK, false)))
  }

  lemma {:induction false} FullKeys(n: nat)
    requires n <= MAX_INT64
    ensures forall k: Int64 :: k in FullSizes(n) <==> 0 <= k < n
  {
    if n > 0 { FullKeys(n - 1); }
  }

  lemma {:induction false} FullSum(n: nat)
    requires n <= MAX_INT64
    ensures Sum(FullSizes(n)) == n * MAX_CHUNK
  {
    if n > 0 {
      FullSum(n - 1);
      FullKeys(n - 1);
      SumUpdate<Int64>(FullSizes(n - 1), n - 1, MAX_CHUNK);
    }
  }

  lemma CheckOne(c: Setting, n: nat, p: nat)
    requires n + p + 1 <= MAX_INT64 && n <= 63 && p < c.k
    ensures Enabled(c, Full(n, p), Check(n + p, MAX_CHUNK))
    ensures Next(c, Full(n, p), Check(n + p, MAX_CHUNK)) == Full(n, p + 1)
  {
    FullSum(n);
    WrapExact(n * MAX_CHUNK);
    WrapExact(n * MAX_CHUNK + MAX_CHUNK);
  }

  lemma StoreOne(c: Setting, n: nat, p: nat)
    requires n + p <= MAX_INT64 && p > 0
    ensures IsRun(c, Full(n, p), [Keep(0), Record(0)])
    ensures After(c, Full(n, p), [Keep(0), Record(0)]) == Full(n + 1, p - 1)
  {
    var s := Full(n, p);
    var kept := Next(c, s, Keep(0));
    var recorded := Next(c, kept, Record(0));
    assert recorded.pending == Full(n + 1, p - 1).pending;
    assert recorded == Full(n + 1, p - 1);
    assert [Keep(0), Record(0)][1..] == [Record(0)] && [Record(0)][1..] == [];
    assert IsRun(c, recorded, []);
    assert IsRun(c, kept, [Record(0)]) && After(c, kept, [Record(0)]) == After(c, recorded, []);
  }

  /** Up to `m` posts check in together while the recorded total still leaves room for one. */
  lemma {:induction false} CheckTogether(c: Setting, n: nat, p: nat, m: nat) returns (steps: seq<Step>)
    requires n + m <= MAX_INT64 && n <= 63 && p <= m <= c.k
    ensures IsRun(c, Full(n, p), steps) && After(c, Full(n, p), steps) == Full(n, m)
    decreases m
  {
    if p == m { return []; }
    var before := CheckTogether(c, n, p, m - 1);
    CheckOne(c, n, m - 1);
    OneMore(c, Full(n, p), before, Check(n + m - 1, MAX_CHUNK));
    steps := before + [Check(n + m - 1, MAX_CHUNK)];
  }

  lemma {:induction false} StoreTogether(c: Setting, n: nat, p: nat) returns (steps: seq<Step>)
    requires n + p <= MAX_INT64
    ensures IsRun(c, Full(n, p), steps) && After(c, Full(n, p), steps) == Full(n + p, 0)
    decreases p
  {
    if p == 0 { return []; }
    StoreOne(c, n, p);
    var more := StoreTogether(c, n + 1, p - 1);
    RunsCompose(c, Full(n, p), [Keep(0), Record(0)], more);
    steps := [Keep(0), Record(0)] + more;
  }

  /** One post at a time, up to `n` chunks of 32 MiB. */
  lemma {:induction false} FillUp(c: Setting, n: nat) returns (steps: seq<Step>)
    requires c.k > 0 && n <= 63
    ensures IsRun(c, EMPTY, steps) && After(c, EMPTY, steps) == Full(n, 0)
  {
    if n == 0 {
      assert Full(0, 0) == EMPTY;
      return [];
    }
    var before := FillUp(c, n - 1);
    CheckOne(c, n - 1, 0);
    OneMore(c, EMPTY, before, Check(n - 1, MAX_CHUNK));
    StoreOne(c, n - 1, 1);
    RunsCompose(c, EMPTY, before + [Check(n - 1, MAX_CHUNK)], [Keep(0), Record(0)]);
    steps := before + [Check(n - 1, MAX_CHUNK)] + [Keep(0), Record(0)];
  }

  lemma FullAssembles(n: nat)
    requires n <= MAX_INT64
    ensures StoredBytes(Full(n, 0)) == n * MAX_CHUNK
  {
    assert Assembles(Full(n, 0)) == FullSizes(n);
    FullSum(n);
  }

  /** With room for k posts at once, m of them can store and record exactly 2 GiB + (m - 1) * 32 MiB. */
  lemma TotalIsReached(c: Setting, m: nat) returns (steps: seq<Step>)
    requires 0 < m <= c.k && m <= MAX_INT64 - 63
    ensures IsRun(c, EMPTY, steps)
    ensures
      var s := After(c, EMPTY, steps);
      Sum(s.sizes) == StoredBytes(s) == MAX_TOTAL + (m - 1) * MAX_CHUNK
  {
    var fill := FillUp(c, 63);
    var checks := CheckTogether(c, 63, 0, m);
    var stores := StoreTogether(c, 63, m);
    RunsCompose(c, EMPTY, fill, checks);
    RunsCompose(c, EMPTY, fill + checks, stores);
    steps := fill + checks + stores;
    FullSum(63 + m);
    FullAssembles(63 + m);
  }

  /** The bound of CapHolds is reached for every k it covers: two posts at once can pass the documented limit. */
  lemma CapIsReached(c: Setting) returns (steps: seq<Step>)
    requires 0 < c.k <= MAX_PENDING
    ensures IsRun(c, EMPTY, steps) && Sum(After(c, EMPTY, steps).sizes) == MAX_TOTAL + (c.k - 1) * MAX_CHUNK
  {
    steps := TotalIsReached(c, c.k);
  }

  ghost predicate RecordsWithinLimit(c: Setting) {
    forall steps :: IsRun(c, EMPTY, steps) ==> Sum(After(c, EMPTY, steps).sizes) <= MAX_TOTAL
  }

  /** What is recorded stays within 2 GiB exactly when the posts of an upload come one at a time. */
  lemma RecordsWithinLimitExactly(c: Setting)
    requires c.k > 0
    ensures RecordsWithinLimit(c) <==> c.k == 1
  {
    if c.k == 1 {
      forall steps | IsRun(c, EMPTY, steps) ensures Sum(After(c, EMPTY, steps).sizes) <= MAX_TOTAL {
        CapHolds(c, steps);
      }
    } else {
      var steps := TotalIsReached(c, 2);
      assert Sum(After(c, EMPTY, steps).sizes) > MAX_TOTAL;
    }
  }

  // ---- Stored bytes have no such bound ----

  /** 62 full chunks, and `n` records of a single byte. */
  function OnesSizes(n: nat): Sizes
    requires n <= MAX_CHUNK
  {
    if n == 0 then FullSizes(62) else OnesSizes(n - 1)[62 + n - 1 := 1]
  }

  /** Records of a single byte over bodies of 32 MiB. */
  function Swollen(n: nat): State
    requires n <= MAX_CHUNK
  {
    State(OnesSizes(n), FullSizes(62 + n), [])
  }

  lemma {:induction false} OnesKeys(n: nat)
    requires n <= MAX_CHUNK
    ensures forall k: Int64 :: k in OnesSizes(n) <==> 0 <= k < 62 + n
  {
    if n == 0 { FullKeys(62); } else { OnesKeys(n - 1); }
  }

  lemma {:induction false} OnesSum(n: nat)
    requires n <= MAX_CHUNK
    ensures Sum(OnesSizes(n)) == 62 * MAX_CHUNK + n
  {
    if n == 0 {
      FullSum(62);
    } else {
      OnesSum(n - 1);
      OnesKeys(n - 1);
      SumUpdate<Int64>(OnesSizes(n - 1), 62 + n - 1, 1);
    }
  }

  lemma SwollenAssembles(n: nat)
    requires n <= MAX_CHUNK
    ensures StoredBytes(Swollen(n)) == (62 + n) * MAX_CHUNK
  {
    OnesKeys(n);
    FullKeys(62 + n);
    assert Assembles(Swollen(n)) == FullSizes(62 + n);
    FullSum(62 + n);
  }

  lemma CheckFits(c: Setting, s: State, n: nat, idx: Int64, size: Int64)
    requires n < MAX_CHUNK && |s.pending| < c.k && idx >= 0 && 1 <= size <= MAX_CHUNK
    requires Sum(s.sizes) <= 63 * MAX_CHUNK && 0 <= Sum(s.sizes)
    ensures Enabled(c, s, Check(idx, size))
  {
    WrapExact(Sum(s.sizes));
    WrapExact(Sum(s.sizes) + size);
  }

  /** A byte is posted; then 32 MiB are stored under the same index and not recorded. */
  lemma SwellByFailure(c: Setting, n: nat) returns (steps: seq<Step>)
    requires c.k > 0 && c.failures && n < MAX_CHUNK
    ensures IsRun(c, Swollen(n), steps) && After(c, Swollen(n), steps) == Swollen(n + 1)
  {
    var s, idx := Swollen(n), 62 + n;
    OnesSum(n);
    OnesSum(n + 1);
    CheckFits(c, s, n, idx, 1);
    OneMore(c, s, [], Check(idx, 1));
    steps := [] + [Check(idx, 1)];
    OneMore(c, s, steps, Keep(0));
    steps := steps + [Keep(0)];
    OneMore(c, s, steps, Record(0));
    steps := steps + [Record(0)];
    assert After(c, s, steps) == State(OnesSizes(n + 1), FullSizes(62 + n)[idx := 1], []);
    CheckFits(c, After(c, s, steps), n, idx, MAX_CHUNK);
    OneMore(c, s, steps, Check(idx, MAX_CHUNK));
    steps := steps + [Check(idx, MAX_CHUNK)];
    OneMore(c, s, steps, Keep(0));
    steps := steps + [Keep(0)];
    OneMore(c, s, steps, Abort(0));
    steps := steps + [Abort(0)];
    assert FullSizes(62 + n)[idx := 1][idx := MAX_CHUNK] == FullSizes(62 + n + 1);
  }

  /** A byte and 32 MiB are posted together under one index; they are stored in one order and recorded in the other. */
  lemma SwellBySwap(c: Setting, n: nat) returns (steps: seq<Step>)
    requires c.k > 1 && n < MAX_CHUNK
    ensures IsRun(c, Swollen(n), steps) && After(c, Swollen(n), steps) == Swollen(n + 1)
  {
    var s, idx := Swollen(n), 62 + n;
    OnesSum(n);
    CheckFits(c, s, n, idx, 1);
    OneMore(c, s, [], Check(idx, 1));
    steps := [] + [Check(idx, 1)];
    CheckFits(c, After(c, s, steps), n, idx, MAX_CHUNK);
    OneMore(c, s, steps, Check(idx, MAX_CHUNK));
    steps := steps + [Check(idx, MAX_CHUNK)];
    OneMore(c, s, steps, Keep(0));
    steps := steps + [Keep(0)];
    OneMore(c, s, steps, Keep(1));
    steps := steps + [Keep(1)];
    OneMore(c, s, steps, Record(1));
    steps := steps + [Record(1)];
    OneMore(c, s, steps, Record(0));
    steps := steps + [Record(0)];
    assert OnesSizes(n)[idx := MAX_CHUNK][idx := 1] == OnesSizes(n + 1);
    assert FullSizes(62 + n)[idx := 1][idx := MAX_CHUNK] == FullSizes(62 + n + 1);
  }

  /** Either way, whatever the limit: up to 2^25 chunks of 32 MiB, a petabyte, over records that keep to 2 GiB. */
  lemma {:induction false} StoredBytesOvershoot(c: Setting, n: nat) returns (steps: seq<Step>)
    requires n <= MAX_CHUNK && c.k > 0 && (c.k > 1 || c.failures)
    ensures IsRun(c, EMPTY, steps) && After(c, EMPTY, steps) == Swollen(n)
    ensures Sum(After(c, EMPTY, steps).sizes) <= MAX_TOTAL
    ensures StoredBytes(After(c, EMPTY, steps)) == (62 + n) * MAX_CHUNK
  {
    if n == 0 {
      steps := FillUp(c, 62);
    } else {
      var before := StoredBytesOvershoot(c, n - 1);
      var one;
      if c.failures { one := SwellByFailure(c, n - 1); } else { one := SwellBySwap(c, n - 1); }
      RunsCompose(c, EMPTY, before, one);
      steps := before + one;
    }
    OnesSum(n);
    SwollenAssembles(n);
  }

  ghost predicate FilesWithinLimit(c: Setting) {
    forall steps :: IsRun(c, EMPTY, steps) ==> StoredBytes(After(c, EMPTY, steps)) <= MAX_TOTAL
  }

  /**
   * The documented limit, on the total over all chunks: what a completion would assemble stays within 2 GiB exactly
   * when posts come one at a time and none fails once its body is stored.
   */
  lemma FilesWithinLimitExactly(c: Setting)
    requires c.k > 0
    ensures FilesWithinLimit(c) <==> c.k == 1 && !c.failures
  {
    if c.k == 1 && !c.failures {
      forall steps | IsRun(c, EMPTY, steps) ensures StoredBytes(After(c, EMPTY, steps)) <= MAX_TOTAL {
        RunKeepsInv(c, EMPTY, steps);
        RunKeepsTruthful(c, EMPTY, steps);
        TruthfulFits(After(c, EMPTY, steps));
      }
    } else {
      var steps := StoredBytesOvershoot(c, 3);
      assert StoredBytes(After(c, EMPTY, steps)) > MAX_TOTAL;
    }
  }
}

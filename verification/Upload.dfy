/** The handlers of cmd/upload-service/main.go over an object store and a chunk tracker. */
module Upload {
  import opened Assembly
  import opened Decimal
  import opened Keys
  import opened Outcomes
  import opened Tracker

  const MAX_TOTAL: int := 0x8000_0000 // 2 GiB over all chunks
  const MAX_CHUNK: int := 0x200_0000 // 32 MiB for one chunk
  const MAX_DURATION_MS: int := 7_200_000 // 2 hours
  const EXTENSIONS: set<string> := {".mp4", ".mov", ".webm", ".avi", ".mkv"}

  type Store = map<string, Body>

  datatype Reply =
    | Stored(uploadId: string, chunkIdx: int, received: int)
    | Queued(objectKey: string, durationMs: int)
    | Cleared(count: nat)
    | Rejected(status: int)

  datatype Probe = Probe(hasVideo: bool, durationMs: int)

  /** What the tracker and the store answer during one chunk post. */
  datatype ChunkAnswers = ChunkAnswers(totals: bool, upload: Answer, record: Answer)

  const ALL_DONE := ChunkAnswers(true, Done, Done)

  /** What the tracker, the file system, the store, ffprobe and the queue answer during one completion. */
  datatype CompleteAnswers = CompleteAnswers(
    lists: bool, totals: bool, files: bool, readable: int -> bool, probe: Body -> Option<Probe>,
    upload: Answer, deletes: int -> bool, purge: Answer, publish: bool)

  // ---- The stored chunks of an upload ----

  function ChunksAt(store: Store, uploadId: string, keys: set<int>): map<int, Body> {
    map k | k in keys && ChunkKey(uploadId, k) in store :: store[ChunkKey(uploadId, k)]
  }

  ghost predicate AllStored(store: Store, uploadId: string, keys: set<int>) {
    forall k :: k in keys ==> ChunkKey(uploadId, k) in store
  }

  function ChunkKeys(uploadId: string, keys: set<int>, deletes: int -> bool): set<string> {
    set k | k in keys && deletes(k) :: ChunkKey(uploadId, k)
  }

  lemma PutChunk(store: Store, uploadId: string, keys: set<int>, k: int, body: Body)
    requires SafeId(uploadId)
    ensures ChunksAt(store[ChunkKey(uploadId, k) := body], uploadId, keys + {k}) ==
      ChunksAt(store, uploadId, keys)[k := body]
  {
    forall j | j != k ensures ChunkKey(uploadId, j) != ChunkKey(uploadId, k) {
      if ChunkKey(uploadId, j) == ChunkKey(uploadId, k) { ChunkKeysDiffer(uploadId, j, uploadId, k); }
    }
  }

  lemma PutElsewhere(store: Store, uploadId: string, keys: set<int>, key: string, body: Body)
    requires forall k :: k in keys ==> ChunkKey(uploadId, k) != key
    ensures ChunksAt(store[key := body], uploadId, keys) == ChunksAt(store, uploadId, keys)
  {
  }

  lemma RemoveElsewhere(store: Store, uploadId: string, keys: set<int>, gone: set<string>)
    requires forall k :: k in keys ==> ChunkKey(uploadId, k) !in gone
    ensures ChunksAt(store - gone, uploadId, keys) == ChunksAt(store, uploadId, keys)
  {
  }

  // ---- Sizes within the limits ----

  ghost predicate SizesOk(sizes: Sizes) {
    (forall k :: k in sizes ==> k >= 0 && 1 <= sizes[k] <= MAX_CHUNK) && 0 <= Sum(sizes) <= MAX_TOTAL
  }

  lemma {:induction false} SumNotNegative<K(!new)>(sizes: map<K, int>, keys: set<K>)
    requires keys <= sizes.Keys && forall k :: k in keys ==> sizes[k] >= 0
    ensures SumOver(sizes, keys) >= 0
  {
    if k :| k in keys {
      SumTakesAny(sizes, keys, k);
      SumNotNegative(sizes, keys - {k});
    }
  }

  lemma AdmittedKeepsSizes(sizes: Sizes, k: Int64, n: Int64)
    requires SizesOk(sizes) && k >= 0 && 1 <= n <= MAX_CHUNK && Sum(sizes) + n <= MAX_TOTAL
    ensures SizesOk(sizes[k := n])
  {
    SumUpdate(sizes, k, n);
    SumNotNegative(sizes[k := n], sizes[k := n].Keys);
  }

  /**
   * The size check against the true total after the post: exact for a new index, but a re-sent index is counted twice,
   * so a re-send that would fit is refused exactly when it fits by no more than the size it replaces.
   */
  lemma SizeCheckOnResend(sizes: Sizes, k: Int64, n: Int64)
    requires n > 0
    ensures k !in sizes ==> (Sum(sizes) + n <= MAX_TOTAL <==> Sum(sizes[k := n]) <= MAX_TOTAL)
    ensures k in sizes ==> (Sum(sizes) + n <= MAX_TOTAL <==> Sum(sizes[k := n]) <= MAX_TOTAL - sizes[k])
  {
    SumUpdate(sizes, k, n);
  }

  /** The store once the first `n` deletions were tried. */
  function RemovedFirst(store: Store, uploadId: string, indices: seq<int>, n: nat, deletes: int -> bool): Store
    requires n <= |indices|
  {
    if n == 0 then store
    else
      RemovedFirst(store, uploadId, indices, n - 1, deletes)
        - (if deletes(indices[n - 1]) then {ChunkKey(uploadId, indices[n - 1])} else {})
  }

  function KeysFirst(uploadId: string, indices: seq<int>, n: nat, deletes: int -> bool): set<string>
    requires n <= |indices|
  {
    if n == 0 then {}
    else
      var key := ChunkKey(uploadId, indices[n - 1]);
      KeysFirst(uploadId, indices, n - 1, deletes) + (if deletes(indices[n - 1]) then {key} else {})
  }

  lemma {:induction false} RemovedFirstIsMinus(store: Store, uploadId: string, indices: seq<int>, n: nat,
          deletes: int -> bool)
    requires n <= |indices|
    ensures RemovedFirst(store, uploadId, indices, n, deletes) == store - KeysFirst(uploadId, indices, n, deletes)
  {
    if n > 0 { RemovedFirstIsMinus(store, uploadId, indices, n - 1, deletes); }
  }

  lemma {:induction false} KeysFirstHas(uploadId: string, indices: seq<int>, n: nat, deletes: int -> bool, i: nat)
    requires i < n <= |indices| && deletes(indices[i])
    ensures ChunkKey(uploadId, indices[i]) in KeysFirst(uploadId, indices, n, deletes)
  {
    if i < n - 1 { KeysFirstHas(uploadId, indices, n - 1, deletes, i); }
  }

  lemma {:induction false} KeysFirstWithin(uploadId: string, indices: seq<int>, n: nat, keys: set<int>,
          deletes: int -> bool)
    requires n <= |indices| && IsListing(indices, keys)
    ensures KeysFirst(uploadId, indices, n, deletes) <= ChunkKeys(uploadId, keys, deletes)
  {
    if n > 0 {
      KeysFirstWithin(uploadId, indices, n - 1, keys, deletes);
      assert indices[n - 1] in indices;
    }
  }

  lemma SameKeys(uploadId: string, indices: seq<int>, keys: set<int>, deletes: int -> bool)
    requires IsListing(indices, keys)
    ensures KeysFirst(uploadId, indices, |indices|, deletes) == ChunkKeys(uploadId, keys, deletes)
  {
    KeysFirstWithin(uploadId, indices, |indices|, keys, deletes);
    forall key | key in ChunkKeys(uploadId, keys, deletes)
      ensures key in KeysFirst(uploadId, indices, |indices|, deletes)
    {
      var k :| k in keys && deletes(k) && key == ChunkKey(uploadId, k);
      assert k in indices;
      var i :| 0 <= i < |indices| && indices[i] == k;
      KeysFirstHas(uploadId, indices, |indices|, deletes, i);
    }
  }

  predicate Available(store: Store, uploadId: string, readable: int -> bool, k: int) {
    readable(k) && ChunkKey(uploadId, k) in store
  }

  ghost predicate AllAvailable(store: Store, uploadId: string, readable: int -> bool, keys: set<int>) {
    forall k :: k in keys ==> readable(k) && ChunkKey(uploadId, k) in store
  }

  /** What the first `n` downloads make; None once one of them failed. */
  function ReadFirst(store: Store, uploadId: string, readable: int -> bool, order: seq<int>, n: nat): Option<Body>
    requires n <= |order|
  {
    if n == 0 then Some([])
    else
      var sofar := ReadFirst(store, uploadId, readable, order, n - 1);
      if sofar.Some? && Available(store, uploadId, readable, order[n - 1])
      then Some(sofar.value + store[ChunkKey(uploadId, order[n - 1])])
      else None
  }

  lemma {:induction false} FailureStays(store: Store, uploadId: string, readable: int -> bool, order: seq<int>, n: nat,
          m: nat)
    requires n <= m <= |order| && ReadFirst(store, uploadId, readable, order, n).None?
    ensures ReadFirst(store, uploadId, readable, order, m).None?
    decreases m
  {
    if n < m { FailureStays(store, uploadId, readable, order, n, m - 1); }
  }

  lemma {:induction false} ReadFirstJoins(store: Store, uploadId: string, readable: int -> bool, order: seq<int>,
          n: nat, chunks: map<int, Body>)
    requires n <= |order|
    requires forall i :: 0 <= i < n ==>
      Available(store, uploadId, readable, order[i]) && order[i] in chunks &&
        chunks[order[i]] == store[ChunkKey(uploadId, order[i])]
    ensures ReadFirst(store, uploadId, readable, order, n) == Some(JoinedFirst(chunks, order, n))
  {
    if n > 0 { ReadFirstJoins(store, uploadId, readable, order, n - 1, chunks); }
  }

  lemma {:induction false} ReadFirstNeeds(store: Store, uploadId: string, readable: int -> bool, order: seq<int>,
          n: nat, i: nat)
    requires i < n <= |order| && ReadFirst(store, uploadId, readable, order, n).Some?
    ensures Available(store, uploadId, readable, order[i])
    decreases n
  {
    if i < n - 1 { ReadFirstNeeds(store, uploadId, readable, order, n - 1, i); }
  }

  /** Downloading in index order succeeds when every chunk is available, and then makes the assembled file. */
  lemma ReadAll(store: Store, uploadId: string, readable: int -> bool, keys: set<int>)
    ensures
      var r := ReadFirst(store, uploadId, readable, InOrder(keys), |InOrder(keys)|);
      && (r.Some? <==> AllAvailable(store, uploadId, readable, keys))
      && (r.Some? ==> r.value == Assembled(ChunksAt(store, uploadId, keys)))
  {
    var order, chunks := InOrder(keys), ChunksAt(store, uploadId, keys);
    if AllAvailable(store, uploadId, readable, keys) {
      forall i | 0 <= i < |order|
        ensures Available(store, uploadId, readable, order[i]) && order[i] in chunks
      {
        assert order[i] in order;
      }
      assert chunks.Keys == keys;
      ReadFirstJoins(store, uploadId, readable, order, |order|, chunks);
      JoinedFirstIsJoined(chunks, order, |order|);
      assert order[..|order|] == order;
    } else {
      var k :| k in keys && !Available(store, uploadId, readable, k);
      assert k in order;
      var i :| 0 <= i < |order| && order[i] == k;
      if ReadFirst(store, uploadId, readable, order, |order|).Some? {
        ReadFirstNeeds(store, uploadId, readable, order, |order|, i);
      }
    }
  }

  predicate VideoOk(probe: Option<Probe>) {
    probe.Some? && probe.value.hasVideo && probe.value.durationMs <= MAX_DURATION_MS
  }

  /** Everything a completion needs before the final object is written. */
  ghost predicate CompletableFrom(store: Store, sizes: Sizes, uploadId: string, ext: Option<string>,
          user: Option<string>, answers: CompleteAnswers)
  {
    && SafeId(uploadId)
    && ext.Some? && ext.value in EXTENSIONS
    && user.Some? && user.value != ""
    && answers.lists && answers.totals && answers.files
    && sizes != map[]
    && AllAvailable(store, uploadId, answers.readable, sizes.Keys)
    && var probe := answers.probe(Assembled(ChunksAt(store, uploadId, sizes.Keys)));
    && probe.Some? && probe.value.hasVideo && probe.value.durationMs <= 2 * 60 * 60 * 1000
  }

  // ---- The store and the tracker after a request, key by key ----

  predicate SameAt(before: Store, after: Store, key: string) {
    (key in after <==> key in before) && (key in before ==> after[key] == before[key])
  }

  /** Of these chunks the deleted ones are gone and the others are as they were; no other object changes. */
  ghost predicate Removed(before: Store, after: Store, id: string, keys: set<int>, deletes: int -> bool) {
    && (forall k :: k in keys && deletes(k) ==> ChunkKey(id, k) !in after)
    && (forall k :: k in keys && !deletes(k) ==> SameAt(before, after, ChunkKey(id, k)))
    && (forall key :: (forall k :: k in keys ==> ChunkKey(id, k) != key) ==> SameAt(before, after, key))
  }

  /** What is recorded for one upload, while the records of the others stay. */
  ghost predicate OnlyRecords(before: map<string, Sizes>, after: map<string, Sizes>, id: string, sizes: Sizes) {
    SizesOf(after, id) == sizes && forall other :: other != id ==> SizesOf(after, other) == SizesOf(before, other)
  }

  /** Once its final object was to be stored, a completion leaves the store like this. */
  ghost predicate Completed(before: Store, after: Store, id: string, ext: string, file: Body, keys: set<int>,
          answers: CompleteAnswers)
  {
    var final := FinalKey(id, ext);
    match answers.upload
    case Refused => after == before
    case Lost =>
      final in after && after[final] == file && forall key :: key != final ==> SameAt(before, after, key)
    case Done =>
      final in after && after[final] == file && Removed(before[final := file], after, id, keys, answers.deletes)
  }

  /** The sizes recorded for an upload after a post. */
  function PostedSizes(sizes: Sizes, k: Int64, size: Int64, answers: ChunkAnswers): Sizes {
    if answers.upload == Done && answers.record != Refused then sizes[k := size] else sizes
  }

  /** After a post every object but its own chunk and every record but its own are as they were. */
  ghost predicate Posted(before: Store, after: Store, was: map<string, Sizes>, data: map<string, Sizes>, id: string,
          k: Int64, size: Int64, answers: ChunkAnswers)
  {
    && (forall key :: key != ChunkKey(id, k) ==> SameAt(before, after, key))
    && OnlyRecords(was, data, id, PostedSizes(SizesOf(was, id), k, size, answers))
  }

  function PostedStore(store: Store, id: string, k: Int64, body: Body, answers: ChunkAnswers): Store {
    if answers.upload == Refused then store else store[ChunkKey(id, k) := body]
  }

  lemma PostIsPointwise(before: Store, data: map<string, Sizes>, id: string, k: Int64, body: Body, size: Int64,
          answers: ChunkAnswers)
    ensures
      var after := if answers.upload != Done || answers.record == Refused then data else Recorded(data, id, k, size);
      Posted(before, PostedStore(before, id, k, body, answers), data, after, id, k, size, answers)
  {
  }

  lemma RemovalIsPointwise(before: Store, id: string, keys: set<int>, deletes: int -> bool)
    requires SafeId(id)
    ensures Removed(before, before - ChunkKeys(id, keys, deletes), id, keys, deletes)
  {
    var gone := ChunkKeys(id, keys, deletes);
    forall k | k in keys && !deletes(k) ensures ChunkKey(id, k) !in gone {
      if ChunkKey(id, k) in gone {
        var j :| j in keys && deletes(j) && ChunkKey(id, j) == ChunkKey(id, k);
        ChunkKeysDiffer(id, j, id, k);
      }
    }
    forall k | k in keys && deletes(k) ensures ChunkKey(id, k) in gone {}
  }

  /** The store after the last part of a completion. */
  function FinishedStore(store: Store, uploadId: string, ext: string, file: Body, keys: set<int>,
          answers: CompleteAnswers): Store {
    match answers.upload
    case Refused => store
    case Lost => store[FinalKey(uploadId, ext) := file]
    case Done => store[FinalKey(uploadId, ext) := file] - ChunkKeys(uploadId, keys, answers.deletes)
  }

  lemma CompletionIsPointwise(before: Store, id: string, ext: string, file: Body, keys: set<int>,
          answers: CompleteAnswers)
    requires SafeId(id)
    ensures Completed(before, FinishedStore(before, id, ext, file, keys, answers), id, ext, file, keys, answers)
  {
    RemovalIsPointwise(before[FinalKey(id, ext) := file], id, keys, answers.deletes);
    if FinalKey(id, ext) in ChunkKeys(id, keys, answers.deletes) {
      var k :| k in keys && ChunkKey(id, k) == FinalKey(id, ext);
      ChunkIsNeverFinal(id, k, id, ext);
    }
  }

  function FinishedData(data: map<string, Sizes>, uploadId: string, answers: CompleteAnswers): map<string, Sizes> {
    if answers.upload == Done && answers.purge != Refused then data - {uploadId} else data
  }

  lemma ListingOfInts(indices: seq<Int64>, keys: set<Int64>)
    requires IsListing<Int64>(indices, keys)
    ensures IsListing<int>(indices, keys)
  {
    forall k: int ensures k in indices <==> k in keys {
      if k in indices { var i :| 0 <= i < |indices| && indices[i] == k; assert indices[i] in keys; }
    }
  }

  lemma {:induction false} ListingLength<K(!new)>(s: seq<K>, keys: set<K>)
    requires IsListing(s, keys)
    ensures |s| == |keys|
    decreases |s|
  {
    if s == [] {
      assert keys == {};
    } else {
      var init, last := s[..|s| - 1], s[|s| - 1];
      assert s == init + [last] && last in s && last !in init;
      ListingLength(init, keys - {last});
    }
  }

  method SortedCopy(indices: seq<int>, ghost keys: set<int>) returns (sorted: array<int>)
    requires IsListing(indices, keys)
    ensures fresh(sorted) && sorted[..] == InOrder(keys)
  {
    sorted := new int[|indices|](i requires 0 <= i < |indices| => indices[i]);
    assert sorted[..] == indices;
    SortInts(sorted);
    RearrangedListing(indices, sorted[..], keys);
    ListingIsUnique(sorted[..], keys);
  }

  class Server {
    const tracker: MemoryTracker
    var store: Store
    var queued: seq<string>

    constructor ()
      ensures Valid() && fresh(tracker) && store == map[] && tracker.data == map[] && queued == []
    {
      tracker := new MemoryTracker();
      store, queued := map[], [];
      new;
      assert SizesOf(tracker.data, "") == map[];
    }

    ghost predicate Valid()
      reads this, tracker
    {
      forall id :: id in tracker.data ==> SafeId(id) && SizesOk(tracker.data[id])
    }

    function Sizes(uploadId: string): Sizes
      reads tracker
    {
      SizesOf(tracker.data, uploadId)
    }

    /** The bodies stored for the recorded chunks of an upload. */
    function Chunks(uploadId: string): map<int, Body>
      reads this, tracker
    {
      ChunksAt(store, uploadId, Sizes(uploadId).Keys)
    }

    /** Every recorded chunk is in the store. */
    ghost predicate Backed(uploadId: string)
      reads this, tracker
    {
      AllStored(store, uploadId, Sizes(uploadId).Keys)
    }

    /** The checks a chunk post passes before anything is written. */
    ghost predicate Admissible(uploadId: string, idxText: string, body: Option<Body>)
      reads tracker
    {
      && SafeId(uploadId)
      && Atoi(idxText).Ok? && Atoi(idxText).value >= 0
      && body.Some? && 1 <= |body.value| <= MAX_CHUNK
      && Sum(Sizes(uploadId)) + |body.value| <= MAX_TOTAL
    }

    /** The ids are already trimmed; `body` is None when reading the request fails. */
    method HandleChunk(queryId: string, headerId: string, generated: string, queryIdx: string, headerIdx: string,
            body: Option<Body>, answers: ChunkAnswers)
      returns (r: Reply)
      requires Valid()
      modifies this`store, tracker
      ensures Valid()
      ensures forall id :: old(Backed(id)) ==> Backed(id)
      ensures
        var id := if queryId != "" then queryId else if headerId != "" then headerId else generated;
        var idxText := if queryIdx != "" then queryIdx else headerIdx;
        if old(Admissible(id, idxText, body)) && answers.totals then
          var idx := Atoi(idxText).value;
          && r == (if answers.upload == Done == answers.record then Stored(id, idx, |body.value|) else Rejected(500))
          && store == PostedStore(old(store), id, idx, body.value, answers)
          && tracker.data == (if answers.upload != Done || answers.record == Refused then old(tracker.data)
                              else Recorded(old(tracker.data), id, idx, |body.value|))
          && Posted(old(store), store, old(tracker.data), tracker.data, id, idx, |body.value|, answers)
        else
          && store == old(store) && tracker.data == old(tracker.data)
          && r == Rejected(
               if !SafeId(id) || Atoi(idxText).Err? || Atoi(idxText).value < 0 then 400
               else if body.None? || |body.value| > MAX_CHUNK then 413
               else if body.value == [] then 400
               else if !answers.totals then 500
               else 413)
    {
      var uploadId := queryId;
      if uploadId == "" {
        uploadId := headerId;
      }
      if uploadId == "" {
        uploadId := generated;
      }
      var safe := IsSafeID(uploadId);
      if !safe {
        return Rejected(400);
      }
      var idxText := queryIdx;
      if idxText == "" {
        idxText := headerIdx;
      }
      var parsed := Atoi(idxText);
      if parsed.Err? || parsed.value < 0 {
        return Rejected(400);
      }
      if body.None? || |body.value| > MAX_CHUNK {
        return Rejected(413);
      }
      if |body.value| == 0 {
        return Rejected(400);
      }
      r := StoreChunk(uploadId, parsed.value, body.value, answers);
    }

    /** The second half of HandleChunk, from the size check on. */
    method StoreChunk(uploadId: string, chunkIdx: Int64, buf: Body, answers: ChunkAnswers) returns (r: Reply)
      requires Valid() && SafeId(uploadId) && chunkIdx >= 0 && 1 <= |buf| <= MAX_CHUNK
      modifies this`store, tracker
      ensures Valid()
      ensures forall id :: old(Backed(id)) ==> Backed(id)
      ensures
        if old(Sum(Sizes(uploadId))) + |buf| <= MAX_TOTAL && answers.totals then
          && r == (if answers.upload == Done == answers.record then Stored(uploadId, chunkIdx, |buf|)
                   else Rejected(500))
          && store == PostedStore(old(store), uploadId, chunkIdx, buf, answers)
          && tracker.data == (if answers.upload != Done || answers.record == Refused then old(tracker.data)
                              else Recorded(old(tracker.data), uploadId, chunkIdx, |buf|))
          && Posted(old(store), store, old(tracker.data), tracker.data, uploadId, chunkIdx, |buf|, answers)
        else
          && store == old(store) && tracker.data == old(tracker.data)
          && r == Rejected(if !answers.totals then 500 else 413)
    {
      if !answers.totals {
        return Rejected(500);
      }
      assert SizesOk(Sizes(uploadId));
      WrapExact(Sum(Sizes(uploadId)));
      var existing := tracker.TotalSize(uploadId);
      if existing as int + |buf| > MAX_TOTAL {
        return Rejected(413);
      }
      PostIsPointwise(store, tracker.data, uploadId, chunkIdx, buf, |buf|, answers);
      if answers.upload != Refused {
        store := store[ChunkKey(uploadId, chunkIdx) := buf];
      }
      if answers.upload != Done {
        return Rejected(500);
      }
      if answers.record != Refused {
        AdmittedKeepsSizes(Sizes(uploadId), chunkIdx, |buf|);
        tracker.RecordChunk(uploadId, chunkIdx, |buf|);
      }
      if answers.record != Done {
        return Rejected(500);
      }
      r := Stored(uploadId, chunkIdx, |buf|);
    }

    /** Streams the chunks in ascending index order; `readable` says which downloads succeed. */
    method ConcatChunks(uploadId: string, indices: seq<int>, readable: int -> bool, ghost keys: set<int>)
      returns (r: Option<Body>)
      requires IsListing(indices, keys)
      ensures r.Some? <==> AllAvailable(store, uploadId, readable, keys)
      ensures r.Some? ==> r.value == Assembled(ChunksAt(store, uploadId, keys))
    {
      var sorted := SortedCopy(indices, keys);
      r := CopyChunks(uploadId, sorted, readable);
      ReadAll(store, uploadId, readable, keys);
    }

    /** The copying loop of ConcatChunks. */
    method CopyChunks(uploadId: string, sorted: array<int>, readable: int -> bool) returns (r: Option<Body>)
      ensures r == ReadFirst(store, uploadId, readable, sorted[..], sorted.Length)
    {
      var dst: Body := [];
      for n := 0 to sorted.Length
        invariant ReadFirst(store, uploadId, readable, sorted[..], n) == Some(dst)
      {
        var idx := sorted[n];
        if !Available(store, uploadId, readable, idx) {
          FailureStays(store, uploadId, readable, sorted[..], n + 1, sorted.Length);
          return None;
        }
        dst := dst + store[ChunkKey(uploadId, idx)];
      }
      r := Some(dst);
    }

    /** Best-effort removal of chunk objects; `deletes` says which deletions take effect. */
    method DeleteChunks(uploadId: string, indices: seq<int>, deletes: int -> bool, ghost keys: set<int>)
      requires IsListing(indices, keys)
      modifies this`store
      ensures store == old(store) - ChunkKeys(uploadId, keys, deletes)
    {
      for n := 0 to |indices|
        invariant store == RemovedFirst(old(store), uploadId, indices, n, deletes)
      {
        var idx := indices[n];
        if deletes(idx) {
          store := store - {ChunkKey(uploadId, idx)};
        }
      }
      RemovedFirstIsMinus(old(store), uploadId, indices, |indices|, deletes);
      SameKeys(uploadId, indices, keys, deletes);
    }

    ghost predicate Completable(uploadId: string, ext: Option<string>, user: Option<string>, answers: CompleteAnswers)
      reads this, tracker
    {
      CompletableFrom(store, Sizes(uploadId), uploadId, ext, user, answers)
    }

    /**
     * `ext` is the lower-cased extension of the file name, None when the request body cannot be decoded; `user` is the
     * user id of the claims.
     */
    method HandleComplete(uploadId: string, ext: Option<string>, user: Option<string>, answers: CompleteAnswers)
      returns (r: Reply)
      requires Valid()
      modifies this, tracker
      ensures Valid()
      ensures old(Completable(uploadId, ext, user, answers)) ==>
        var final, file := FinalKey(uploadId, ext.value), old(Assembled(Chunks(uploadId)));
        && r == (if answers.upload == Done && answers.publish then Queued(final, answers.probe(file).value.durationMs)
                 else Rejected(500))
        && store == FinishedStore(old(store), uploadId, ext.value, file, old(Sizes(uploadId)).Keys, answers)
        && tracker.data == FinishedData(old(tracker.data), uploadId, answers)
        && queued == old(queued) + (if answers.upload == Done && answers.publish then [final] else [])
        && Completed(old(store), store, uploadId, ext.value, file, old(Sizes(uploadId)).Keys, answers)
        && OnlyRecords(old(tracker.data), tracker.data, uploadId,
             if answers.upload == Done && answers.purge != Refused then map[] else old(Sizes(uploadId)))
      ensures !old(Completable(uploadId, ext, user, answers)) ==>
        && store == old(store) && tracker.data == old(tracker.data) && queued == old(queued)
        && r == Rejected(
             if !SafeId(uploadId) || ext.None? then 400
             else if user.None? || user.value == "" then 401
             else if ext.value !in EXTENSIONS then 400
             else if !answers.lists then 500
             else if old(Sizes(uploadId)) == map[] then 400
             else if !answers.totals || !answers.files then 500
             else if !old(AllAvailable(store, uploadId, answers.readable, Sizes(uploadId).Keys)) then 500
             else 400)
    {
      var safe := IsSafeID(uploadId);
      if !safe || ext.None? {
        return Rejected(400);
      }
      if user.None? || user.value == "" {
        return Rejected(401);
      }
      if ext.value !in EXTENSIONS {
        return Rejected(400);
      }
      if !answers.lists {
        return Rejected(500);
      }
      var indices := tracker.ListChunks(uploadId);
      ghost var keys := Sizes(uploadId).Keys;
      ListingOfInts(indices, keys);
      if |indices| == 0 {
        assert Sizes(uploadId) == map[];
        return Rejected(400);
      }
      assert indices[0] in keys;
      if !answers.totals {
        return Rejected(500);
      }
      assert SizesOk(Sizes(uploadId));
      WrapExact(Sum(Sizes(uploadId)));
      var total := tracker.TotalSize(uploadId);
      if total as int > MAX_TOTAL {
        return Rejected(413);
      }
      if !answers.files {
        return Rejected(500);
      }
      var assembled := ConcatChunks(uploadId, indices, answers.readable, keys);
      if assembled.None? {
        return Rejected(500);
      }
      var probe := answers.probe(assembled.value);
      if !VideoOk(probe) {
        return Rejected(400);
      }
      r := Finish(uploadId, ext.value, indices, assembled.value, probe.value.durationMs, answers, keys);
    }

    /** The last part of HandleComplete: the final object, the clean-up and the message. */
    method Finish(uploadId: string, ext: string, indices: seq<int>, assembled: Body, durationMs: int,
            answers: CompleteAnswers, ghost keys: set<int>)
      returns (r: Reply)
      requires Valid() && IsListing(indices, keys)
      modifies this, tracker
      ensures Valid()
      ensures
        var final := FinalKey(uploadId, ext);
        && r == (if answers.upload == Done && answers.publish then Queued(final, durationMs) else Rejected(500))
        && store == FinishedStore(old(store), uploadId, ext, assembled, keys, answers)
        && tracker.data == FinishedData(old(tracker.data), uploadId, answers)
        && queued == old(queued) + (if answers.upload == Done && answers.publish then [final] else [])
      ensures SafeId(uploadId) ==>
        && Completed(old(store), store, uploadId, ext, assembled, keys, answers)
        && OnlyRecords(old(tracker.data), tracker.data, uploadId,
             if answers.upload == Done && answers.purge != Refused then map[] else old(Sizes(uploadId)))
    {
      if SafeId(uploadId) { CompletionIsPointwise(store, uploadId, ext, assembled, keys, answers); }
      var final := FinalKey(uploadId, ext);
      if answers.upload != Refused {
        store := store[final := assembled];
      }
      if answers.upload != Done {
        return Rejected(500);
      }
      DeleteChunks(uploadId, indices, answers.deletes, keys);
      if answers.purge != Refused {
        tracker.Purge(uploadId);
      }
      if !answers.publish {
        return Rejected(500);
      }
      queued := queued + [final];
      r := Queued(final, durationMs);
    }

    method HandleDelete(uploadId: string, lists: bool, deletes: int -> bool, purge: Answer) returns (r: Reply)
      requires Valid()
      modifies this`store, tracker
      ensures Valid()
      ensures
        if SafeId(uploadId) && lists then
          && r == Cleared(|old(Sizes(uploadId))|)
          && store == old(store) - ChunkKeys(uploadId, old(Sizes(uploadId)).Keys, deletes)
          && tracker.data == (if purge == Refused then old(tracker.data) else old(tracker.data) - {uploadId})
          && Removed(old(store), store, uploadId, old(Sizes(uploadId)).Keys, deletes)
          && OnlyRecords(old(tracker.data), tracker.data, uploadId,
               if purge == Refused then old(Sizes(uploadId)) else map[])
        else
          && r == Rejected(if !SafeId(uploadId) then 400 else 500)
          && store == old(store) && tracker.data == old(tracker.data)
    {
      var safe := IsSafeID(uploadId);
      if !safe {
        return Rejected(400);
      }
      if !lists {
        return Rejected(500);
      }
      var indices := tracker.ListChunks(uploadId);
      ghost var keys := Sizes(uploadId).Keys;
      ListingOfInts(indices, keys);
      ListingLength(indices, keys);
      RemovalIsPointwise(store, uploadId, keys, deletes);
      DeleteChunks(uploadId, indices, deletes, keys);
      if purge != Refused {
        tracker.Purge(uploadId);
      }
      r := Cleared(|indices|);
    }
  }

  // ---- What a request leaves alone ----

  /** A chunk post touches no other upload's chunks and no final object. */
  lemma PostsStayApart(store: Store, id: string, k: int, body: Body, other: string, keys: set<int>, ext: string)
    requires SafeId(id) && SafeId(other)
    ensures other != id ==> ChunksAt(store[ChunkKey(id, k) := body], other, keys) == ChunksAt(store, other, keys)
    ensures
      var after, final := store[ChunkKey(id, k) := body], FinalKey(other, ext);
      (final in after <==> final in store) && (final in store ==> after[final] == store[final])
  {
    ChunkIsNeverFinal(id, k, other, ext);
    if other != id {
      forall j | j in keys ensures ChunkKey(other, j) != ChunkKey(id, k) {
        if ChunkKey(other, j) == ChunkKey(id, k) { ChunkKeysDiffer(other, j, id, k); }
      }
      PutElsewhere(store, other, keys, ChunkKey(id, k), body);
    }
  }

  /** Removing an upload's chunks spares every other upload's chunks and every final object. */
  lemma RemovalsStayApart(store: Store, id: string, gone: set<int>, deletes: int -> bool, other: string, keys: set<int>,
          ext: string)
    requires SafeId(id) && SafeId(other)
    ensures other != id ==> ChunksAt(store - ChunkKeys(id, gone, deletes), other, keys) == ChunksAt(store, other, keys)
    ensures
      var after, final := store - ChunkKeys(id, gone, deletes), FinalKey(other, ext);
      (final in after <==> final in store) && (final in store ==> after[final] == store[final])
  {
    forall k | k in gone ensures ChunkKey(id, k) != FinalKey(other, ext) { ChunkIsNeverFinal(id, k, other, ext); }
    if other != id {
      forall j | j in keys ensures ChunkKey(other, j) !in ChunkKeys(id, gone, deletes) {
        if ChunkKey(other, j) in ChunkKeys(id, gone, deletes) {
          var k :| k in gone && ChunkKey(id, k) == ChunkKey(other, j);
          ChunkKeysDiffer(id, k, other, j);
        }
      }
      RemoveElsewhere(store, other, keys, ChunkKeys(id, gone, deletes));
    }
  }

  /** A completion keeps the file it assembled, and touches no other upload's chunks or final object. */
  lemma CompletionsStayApart(store: Store, id: string, ext: string, file: Body, gone: set<int>, deletes: int -> bool,
          other: string, keys: set<int>, ext': string)
    requires SafeId(id) && SafeId(other)
    ensures
      var after := store[FinalKey(id, ext) := file] - ChunkKeys(id, gone, deletes);
      && FinalKey(id, ext) in after && after[FinalKey(id, ext)] == file
      && (other != id ==> ChunksAt(after, other, keys) == ChunksAt(store, other, keys))
      && (other != id ==> (FinalKey(other, ext') in after <==> FinalKey(other, ext') in store))
      && (other != id && FinalKey(other, ext') in store ==>
            after[FinalKey(other, ext')] == store[FinalKey(other, ext')])
  {
    var stored := store[FinalKey(id, ext) := file];
    RemovalsStayApart(stored, id, gone, deletes, id, keys, ext);
    RemovalsStayApart(stored, id, gone, deletes, other, keys, ext');
    forall j | j in keys ensures ChunkKey(other, j) != FinalKey(id, ext) { ChunkIsNeverFinal(other, j, id, ext); }
    PutElsewhere(store, other, keys, FinalKey(id, ext), file);
    if FinalKey(other, ext') == FinalKey(id, ext) { FinalKeysDiffer(other, ext', id, ext); }
  }

  /** What is recorded is in the store: a post keeps that true of every upload, recorded or not. */
  lemma PostsKeepRecordsStored(store: Store, data: map<string, Sizes>, id: string, k: Int64, size: Int64, body: Body,
          other: string)
    requires AllStored(store, other, SizesOf(data, other).Keys)
    ensures AllStored(store[ChunkKey(id, k) := body], other, SizesOf(data, other).Keys)
    ensures AllStored(store[ChunkKey(id, k) := body], other, SizesOf(Recorded(data, id, k, size), other).Keys)
  {
  }

  // ---- What is recorded against what is stored ----

  /** Every record is the length of the body stored under it. */
  ghost predicate TrueRecords(store: Store, uploadId: string, sizes: Sizes) {
    forall k :: k in sizes ==> ChunkKey(uploadId, k) in store && |store[ChunkKey(uploadId, k)]| == sizes[k]
  }

  lemma {:induction false} JoinedLength(chunks: map<int, Body>, sizes: Sizes, keys: set<Int64>)
    requires keys <= sizes.Keys && forall k :: k in keys ==> k in chunks && |chunks[k]| == sizes[k]
    ensures forall k :: k in InOrder(keys) ==> k in chunks
    ensures |Joined(chunks, InOrder(keys))| == SumOver(sizes, keys)
  {
    if exists k :: k in keys {
      var top: Int64 := Top(keys);
      var rest: set<Int64> := keys - {top};
      JoinedLength(chunks, sizes, rest);
      SumTakesAny(sizes, keys, top);
      assert InOrder(keys) == InOrder(rest) + [top];
      assert InOrder(keys)[..|InOrder(keys)| - 1] == InOrder(rest);
    } else {
      assert keys == {};
    }
  }

  /** With true records the assembled file is as long as the tracker says, so it keeps the limit when the records do. */
  lemma AssembledLength(store: Store, uploadId: string, sizes: Sizes)
    requires TrueRecords(store, uploadId, sizes)
    ensures |Assembled(ChunksAt(store, uploadId, sizes.Keys))| == Sum(sizes)
    ensures SizesOk(sizes) ==> |Assembled(ChunksAt(store, uploadId, sizes.Keys))| <= MAX_TOTAL
  {
    var chunks := ChunksAt(store, uploadId, sizes.Keys);
    assert chunks.Keys == sizes.Keys;
    JoinedLength(chunks, sizes, sizes.Keys);
  }

  /**
   * A post that passed the checks keeps the records true exactly when nothing was stored, or it was recorded as well,
   * or its index is new, or its body is as long as the one it replaced.
   */
  lemma PostKeepsRecordsTrue(store: Store, id: string, sizes: Sizes, k: Int64, size: Int64, body: Body,
          answers: ChunkAnswers)
    requires SafeId(id) && TrueRecords(store, id, sizes) && size == |body|
    ensures TrueRecords(PostedStore(store, id, k, body, answers), id, PostedSizes(sizes, k, size, answers)) <==>
      || answers.upload == Refused || (answers.upload == Done && answers.record != Refused)
      || k !in sizes || sizes[k] == size
  {
    forall j | j != k ensures ChunkKey(id, j) != ChunkKey(id, k) {
      if ChunkKey(id, j) == ChunkKey(id, k) { ChunkKeysDiffer(id, j, id, k); }
    }
    var store', sizes' := PostedStore(store, id, k, body, answers), PostedSizes(sizes, k, size, answers);
    if k in sizes && answers.upload != Refused && !(answers.upload == Done && answers.record != Refused) {
      assert k in sizes' && store'[ChunkKey(id, k)] == body;
    }
  }

  /** No deletion of one of these chunks takes effect. */
  predicate NoneDeleted(keys: set<int>, deletes: int -> bool) {
    forall k :: k in keys ==> !deletes(k)
  }

  lemma DeletedIsGone(store: Store, id: string, keys: set<int>, deletes: int -> bool)
    requires SafeId(id) && AllStored(store, id, keys)
    ensures AllStored(store - ChunkKeys(id, keys, deletes), id, keys) <==> NoneDeleted(keys, deletes)
  {
    if NoneDeleted(keys, deletes) {
      assert ChunkKeys(id, keys, deletes) == {};
    } else {
      var k :| k in keys && deletes(k);
      assert ChunkKey(id, k) in ChunkKeys(id, keys, deletes);
    }
  }

  /**
   * After removing an upload's chunks its records are still backed exactly when the purge took effect or no deletion
   * did; every other upload's records stay backed in any case.
   */
  lemma RemovalKeepsRecordsStored(store: Store, data: map<string, Sizes>, id: string, deletes: int -> bool,
          purge: Answer, other: string)
    requires SafeId(id) && SafeId(other) && AllStored(store, other, SizesOf(data, other).Keys)
    ensures
      var keys := SizesOf(data, id).Keys;
      var data' := if purge == Refused then data else data - {id};
      var backed := AllStored(store - ChunkKeys(id, keys, deletes), other, SizesOf(data', other).Keys);
      backed <==> other != id || purge != Refused || NoneDeleted(keys, deletes)
  {
    var keys := SizesOf(data, id).Keys;
    if other == id {
      DeletedIsGone(store, id, keys, deletes);
    } else {
      forall j | j in SizesOf(data, other).Keys ensures ChunkKey(other, j) !in ChunkKeys(id, keys, deletes) {
        if ChunkKey(other, j) in ChunkKeys(id, keys, deletes) {
          var i :| i in keys && ChunkKey(id, i) == ChunkKey(other, j);
          ChunkKeysDiffer(id, i, other, j);
        }
      }
    }
  }

  /** The same after a completion; when its final object is not stored nothing is removed. */
  lemma CompletionKeepsRecordsStored(store: Store, data: map<string, Sizes>, id: string, ext: string, file: Body,
          answers: CompleteAnswers, other: string)
    requires SafeId(id) && SafeId(other) && AllStored(store, other, SizesOf(data, other).Keys)
    ensures
      var keys := SizesOf(data, id).Keys;
      var left := SizesOf(FinishedData(data, id, answers), other).Keys;
      var backed := AllStored(FinishedStore(store, id, ext, file, keys, answers), other, left);
      backed <==> other != id || answers.upload != Done || answers.purge != Refused || NoneDeleted(keys,
        answers.deletes)
  {
    RemovalKeepsRecordsStored(store[FinalKey(id, ext) := file], data, id, answers.deletes, answers.purge, other);
  }

  // ---- Trying again after a failed completion ----

  /** Nothing fails, and the file passes as a video. */
  ghost predicate AllGood(answers: CompleteAnswers, file: Body) {
    && answers.lists && answers.totals && answers.files && answers.upload == Done && answers.publish
    && (forall k :: answers.readable(k))
    && VideoOk(answers.probe(file))
  }

  /** With the same chunks in the store under the same records, a completion on which all goes well succeeds. */
  lemma SameChunksComplete(store: Store, sizes: Sizes, id: string, ext: Option<string>, user: Option<string>,
          first: CompleteAnswers, after: Store, second: CompleteAnswers)
    requires CompletableFrom(store, sizes, id, ext, user, first)
    requires AllGood(second, Assembled(ChunksAt(store, id, sizes.Keys)))
    requires AllStored(after, id, sizes.Keys) && ChunksAt(after, id, sizes.Keys) == ChunksAt(store, id, sizes.Keys)
    ensures CompletableFrom(after, sizes, id, ext, user, second)
  {
    forall k | k in sizes.Keys ensures Available(after, id, second.readable, k) {}
  }

  /** Storing the final object leaves the chunks as they were. */
  lemma FinalLeavesChunks(store: Store, keys: set<int>, id: string, ext: string, file: Body)
    requires SafeId(id) && AllStored(store, id, keys)
    ensures AllStored(store[FinalKey(id, ext) := file], id, keys)
    ensures ChunksAt(store[FinalKey(id, ext) := file], id, keys) == ChunksAt(store, id, keys)
  {
    forall k | k in keys ensures ChunkKey(id, k) != FinalKey(id, ext) { ChunkIsNeverFinal(id, k, id, ext); }
    PutElsewhere(store, id, keys, FinalKey(id, ext), file);
  }

  /** A missing chunk stops a completion, whatever the answers. */
  lemma MissingChunkStops(after: Store, sizes: Sizes, id: string, ext: Option<string>, user: Option<string>,
          second: CompleteAnswers)
    requires !AllStored(after, id, sizes.Keys)
    ensures !CompletableFrom(after, sizes, id, ext, user, second)
  {
    var k :| k in sizes.Keys && ChunkKey(id, k) !in after;
    assert !Available(after, id, second.readable, k);
  }

  /** While the records are still there, a retry succeeds exactly when no chunk went. */
  lemma UnpurgedRetry(stored: Store, store: Store, sizes: Sizes, id: string, ext: Option<string>, user: Option<string>,
          first: CompleteAnswers, second: CompleteAnswers)
    requires CompletableFrom(store, sizes, id, ext, user, first)
    requires AllGood(second, Assembled(ChunksAt(store, id, sizes.Keys)))
    requires AllStored(stored, id, sizes.Keys) && ChunksAt(stored, id, sizes.Keys) == ChunksAt(store, id, sizes.Keys)
    ensures CompletableFrom(stored - ChunkKeys(id, sizes.Keys, first.deletes), sizes, id, ext, user, second)
       <==> NoneDeleted(sizes.Keys, first.deletes)
  {
    DeletedIsGone(stored, id, sizes.Keys, first.deletes);
    var after := stored - ChunkKeys(id, sizes.Keys, first.deletes);
    if NoneDeleted(sizes.Keys, first.deletes) {
      assert after == stored by { assert ChunkKeys(id, sizes.Keys, first.deletes) == {}; }
      SameChunksComplete(store, sizes, id, ext, user, first, after, second);
    } else {
      MissingChunkStops(after, sizes, id, ext, user, second);
    }
  }

  /**
   * After a completion that got as far as its final object, a second one on which everything goes well succeeds exactly
   * when the first failed to store that object, or cleaned up nothing: neither the tracker entry nor any chunk.
   */
  lemma RetryExactly(store: Store, data: map<string, Sizes>, id: string, ext: Option<string>, user: Option<string>,
          first: CompleteAnswers, second: CompleteAnswers)
    requires CompletableFrom(store, SizesOf(data, id), id, ext, user, first)
    requires AllGood(second, Assembled(ChunksAt(store, id, SizesOf(data, id).Keys)))
    ensures
      var keys := SizesOf(data, id).Keys;
      var after := FinishedStore(store, id, ext.value, Assembled(ChunksAt(store, id, keys)), keys, first);
      var again := CompletableFrom(after, SizesOf(FinishedData(data, id, first), id), id, ext, user, second);
      again <==> first.upload != Done || (first.purge == Refused && NoneDeleted(keys, first.deletes))
  {
    var sizes := SizesOf(data, id);
    var file := Assembled(ChunksAt(store, id, sizes.Keys));
    var stored := store[FinalKey(id, ext.value) := file];
    forall k | k in sizes.Keys ensures ChunkKey(id, k) in store { assert Available(store, id, first.readable, k); }
    FinalLeavesChunks(store, sizes.Keys, id, ext.value, file);
    if first.upload == Done {
      UnpurgedRetry(stored, store, sizes, id, ext, user, first, second);
    } else {
      SameChunksComplete(store, sizes, id, ext, user, first, store, second);
      SameChunksComplete(store, sizes, id, ext, user, first, stored, second);
    }
  }

  // ---- One upload of one byte that is lost ----

  function OneChunk(): Store {
    map[ChunkKey("u", 0) := [7]]
  }

  function OneRecord(): map<string, Sizes> {
    map["u" := map[0 := 1]]
  }

  function AnswersBut(purge: Answer, publish: bool): CompleteAnswers {
    CompleteAnswers(true, true, true, k => true, body => Some(Probe(true, 1000)), Done, k => true, purge, publish)
  }

  lemma OneChunkCompletes(purge: Answer, publish: bool)
    ensures CompletableFrom(OneChunk(), SizesOf(OneRecord(), "u"), "u", Some(".mp4"), Some("user"),
      AnswersBut(purge, publish))
  {
    assert SizesOf(OneRecord(), "u") == map[0 := 1] && 0 in SizesOf(OneRecord(), "u");
    assert Available(OneChunk(), "u", AnswersBut(purge, publish).readable, 0);
  }

  /**
   * The completion of this upload cannot be repeated once publishing failed, nor once the purge was refused; in the
   * second case a record is left without its chunk.
   */
  lemma FailedCompletionLosesUpload(purge: Answer, publish: bool)
    requires purge == Refused || !publish
    ensures
      var sizes := SizesOf(OneRecord(), "u");
      var first := AnswersBut(purge, publish);
      var after := FinishedStore(OneChunk(), "u", ".mp4", Assembled(ChunksAt(OneChunk(), "u", sizes.Keys)),
        sizes.Keys, first);
      var left := SizesOf(FinishedData(OneRecord(), "u", first), "u");
      && CompletableFrom(OneChunk(), sizes, "u", Some(".mp4"), Some("user"), first)
      && !CompletableFrom(after, left, "u", Some(".mp4"), Some("user"), AnswersBut(Done, true))
      && (AllStored(after, "u", left.Keys) <==> purge != Refused)
  {
    var sizes := SizesOf(OneRecord(), "u");
    var first := AnswersBut(purge, publish);
    var file := Assembled(ChunksAt(OneChunk(), "u", sizes.Keys));
    OneChunkCompletes(purge, publish);
    assert !NoneDeleted(sizes.Keys, first.deletes) by { assert 0 in sizes.Keys && first.deletes(0); }
    RetryExactly(OneChunk(), OneRecord(), "u", Some(".mp4"), Some("user"), first, AnswersBut(Done, true));
    CompletionKeepsRecordsStored(OneChunk(), OneRecord(), "u", ".mp4", file, first, "u");
  }

  /** A recorded post changes the upload's chunks at its index and nowhere else. */
  lemma PostSetsChunk(store: Store, data: map<string, Sizes>, id: string, k: Int64, size: Int64, body: Body)
    requires SafeId(id)
    ensures ChunksAt(store[ChunkKey(id, k) := body], id, SizesOf(Recorded(data, id, k, size), id).Keys)
         == ChunksAt(store, id, SizesOf(data, id).Keys)[k := body]
  {
    assert SizesOf(Recorded(data, id, k, size), id).Keys == SizesOf(data, id).Keys + {k};
    PutChunk(store, id, SizesOf(data, id).Keys, k, body);
  }
}

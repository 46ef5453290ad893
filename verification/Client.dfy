/** Uploading a file: the chunk loop of web/src/lib/api.ts, and posts in any order, against the server. */
module Client {
  import opened Assembly
  import opened Decimal
  import opened Keys
  import opened Outcomes
  import SizeCap
  import opened Tracker
  import opened Upload

  const CHUNK_SIZE: nat := 8 * 1024 * 1024

  /** The index fits the server's integers and the body a chunk. */
  predicate Postable(post: Post) {
    0 <= post.idx <= MAX_INT64 && 1 <= |post.body| <= MAX_CHUNK
  }

  lemma RecordAddsAtMost(data: map<string, Sizes>, id: string, idx: Int64, size: Int64)
    requires id in data ==> SizesOk(data[id])
    ensures Sum(SizesOf(Recorded(data, id, idx, size), id)) <= Sum(SizesOf(data, id)) + size
  {
    SumUpdate(SizesOf(data, id), idx, size);
  }

  /** One chunk post under a known upload id; true when the server reports the chunk stored. */
  method PostChunk(server: Server, id: string, post: Post, answers: ChunkAnswers) returns (ok: bool)
    requires server.Valid() && id != ""
    modifies server`store, server.tracker
    ensures server.Valid()
    ensures
      var fits := old(Sum(server.Sizes(id))) + |post.body| <= MAX_TOTAL;
      ok <==> SafeId(id) && Postable(post) && fits && answers == ALL_DONE
    ensures ok ==> server.Chunks(id) == old(server.Chunks(id))[post.idx := post.body]
    ensures ok ==> server.Sizes(id) == old(server.Sizes(id))[post.idx := |post.body|]
    ensures ok ==> Sum(server.Sizes(id)) <= old(Sum(server.Sizes(id))) + |post.body|
    ensures old(server.Backed(id)) ==> server.Backed(id)
  {
    AtoiItoa(post.idx);
    ghost var store, data := server.store, server.tracker.data;
    assert server.Admissible(id, Itoa(post.idx), Some(post.body))
      <==> SafeId(id) && Postable(post) && Sum(SizesOf(data, id)) + |post.body| <= MAX_TOTAL;
    var r := server.HandleChunk(id, "", "", Itoa(post.idx), "", Some(post.body), answers);
    ok := r.Stored?;
    if ok {
      PostSetsChunk(store, data, id, post.idx, |post.body|, post.body);
      RecordAddsAtMost(data, id, post.idx, |post.body|);
    }
  }

  /** All the bytes of the first `n` posts, re-sends included. */
  function Bytes(posts: seq<Post>, n: nat): nat
    requires n <= |posts|
  {
    if n == 0 then 0 else Bytes(posts, n - 1) + |posts[n - 1].body|
  }

  lemma {:induction false} BytesGrow(posts: seq<Post>, n: nat, m: nat)
    requires n <= m <= |posts|
    ensures Bytes(posts, n) <= Bytes(posts, m)
    decreases m
  {
    if n < m { BytesGrow(posts, n, m - 1); }
  }

  lemma LatestNext(start: map<int, Body>, posts: seq<Post>, n: nat)
    requires n < |posts|
    ensures Latest(start, posts[..n + 1]) == Latest(start, posts[..n])[posts[n].idx := posts[n].body]
  {
    assert posts[..n + 1][..n] == posts[..n];
  }

  /** What the server holds once the first `n` posts are stored. */
  ghost predicate HoldsFirst(server: Server, id: string, start: map<int, Body>, size: int, posts: seq<Post>, n: nat)
    requires n <= |posts|
    reads server, server.tracker
  {
    && server.Valid()
    && server.Chunks(id) == Latest(start, posts[..n])
    && Sum(server.Sizes(id)) <= size + Bytes(posts, n)
  }

  ghost predicate AllFit(id: string, size: int, posts: seq<Post>, answers: nat -> ChunkAnswers) {
    && SafeId(id) && size + Bytes(posts, |posts|) <= MAX_TOTAL
    && (forall p :: p in posts ==> Postable(p))
    && (forall n :: answers(n) == ALL_DONE)
  }

  method PostNext(server: Server, id: string, ghost start: map<int, Body>, ghost size: int, posts: seq<Post>, n: nat,
          answers: nat -> ChunkAnswers)
    returns (ok: bool)
    requires n < |posts| && id != "" && HoldsFirst(server, id, start, size, posts, n)
    modifies server`store, server.tracker
    ensures server.Valid()
    ensures ok ==> HoldsFirst(server, id, start, size, posts, n + 1)
    ensures AllFit(id, size, posts, answers) ==> ok
    ensures old(server.Backed(id)) ==> server.Backed(id)
  {
    LatestNext(start, posts, n);
    BytesGrow(posts, n + 1, |posts|);
    assert posts[n] in posts;
    ok := PostChunk(server, id, posts[n], answers(n));
  }

  /**
   * Posts in any order, with re-sends: when each is stored the last body per index counts, and each is stored when
   * nothing fails and all of them together fit.
   */
  method PostAll(server: Server, id: string, posts: seq<Post>, answers: nat -> ChunkAnswers) returns (ok: bool)
    requires server.Valid() && id != ""
    modifies server`store, server.tracker
    ensures server.Valid()
    ensures ok ==> server.Chunks(id) == Latest(old(server.Chunks(id)), posts)
    ensures AllFit(id, old(Sum(server.Sizes(id))), posts, answers) ==> ok
    ensures old(server.Backed(id)) ==> server.Backed(id)
  {
    ghost var start, size := server.Chunks(id), Sum(server.Sizes(id));
    assert posts[..0] == [];
    for n := 0 to |posts|
      invariant HoldsFirst(server, id, start, size, posts, n)
      invariant old(server.Backed(id)) ==> server.Backed(id)
    {
      ok := PostNext(server, id, start, size, posts, n, answers);
      if !ok {
        return false;
      }
    }
    assert posts[..|posts|] == posts;
    ok := true;
  }

  function PiecePosts(file: Body, chunkSize: nat, n: nat): seq<Post> {
    seq(n, idx requires 0 <= idx < n => Post(idx, Piece(file, chunkSize, idx)))
  }

  lemma PiecePostsNext(file: Body, chunkSize: nat, idx: nat, chunks: map<int, Body>)
    ensures Latest(chunks, PiecePosts(file, chunkSize, idx + 1))
         == Latest(chunks, PiecePosts(file, chunkSize, idx))[idx := Piece(file, chunkSize, idx)]
  {
    assert PiecePosts(file, chunkSize, idx + 1)[..idx] == PiecePosts(file, chunkSize, idx);
  }

  /** file.slice(start, end) for the chunk with this index. */
  method Slice(file: Body, chunkSize: nat, idx: nat) returns (blob: Body)
    requires chunkSize > 0 && idx < PieceCount(|file|, chunkSize)
    ensures blob == Piece(file, chunkSize, idx)
  {
    LastCut(|file|, chunkSize);
    var start := idx * chunkSize;
    assert (idx + 1) * chunkSize == start + chunkSize;
    var end := if start + chunkSize < |file| then start + chunkSize else |file|;
    blob := file[start..end];
  }

  /** Each piece has a body, no longer than a chunk, and brings the upload up to the next cut. */
  lemma PieceFits(file: Body, chunkSize: nat, idx: nat)
    requires chunkSize > 0 && idx < PieceCount(|file|, chunkSize)
    ensures 1 <= |Piece(file, chunkSize, idx)| <= chunkSize && idx < |file|
    ensures CutAt(|file|, chunkSize, idx) + |Piece(file, chunkSize, idx)| == CutAt(|file|, chunkSize, idx + 1) <= |file|
  {
    LastCut(|file|, chunkSize);
    CutsAscend(|file|, chunkSize, idx);
    assert (idx + 1) * chunkSize == idx * chunkSize + chunkSize;
    assert idx * chunkSize >= idx;
  }

  function ChunkSize(requested: nat): (size: nat)
    ensures size > 0 && (requested > 0 ==> size == requested)
  {
    if requested == 0 then CHUNK_SIZE else requested
  }

  /** What the server holds once the first `n` pieces are stored. */
  ghost predicate HoldsPieces(server: Server, id: string, start: map<int, Body>, size: int, file: Body, chunkSize: nat,
          n: nat)
    reads server, server.tracker
  {
    && server.Valid()
    && server.Chunks(id) == Latest(start, PiecePosts(file, chunkSize, n))
    && Sum(server.Sizes(id)) <= size + CutAt(|file|, chunkSize, n)
  }

  ghost predicate FileFits(id: string, size: int, file: Body, chunkSize: nat, answers: nat -> ChunkAnswers) {
    && SafeId(id) && size + |file| <= MAX_TOTAL && chunkSize <= MAX_CHUNK
    && forall n :: answers(n) == ALL_DONE
  }

  method PostPiece(server: Server, id: string, ghost start: map<int, Body>, ghost size: int, file: Body, chunkSize: nat,
          idx: nat, answers: nat -> ChunkAnswers)
    returns (ok: bool)
    requires id != "" && chunkSize > 0 && idx < PieceCount(|file|, chunkSize) && size >= 0
    requires HoldsPieces(server, id, start, size, file, chunkSize, idx)
    modifies server`store, server.tracker
    ensures server.Valid()
    ensures ok ==> HoldsPieces(server, id, start, size, file, chunkSize, idx + 1)
    ensures FileFits(id, size, file, chunkSize, answers) ==> ok
    ensures old(server.Backed(id)) ==> server.Backed(id)
  {
    PieceFits(file, chunkSize, idx);
    PiecePostsNext(file, chunkSize, idx, start);
    var blob := Slice(file, chunkSize, idx);
    ok := PostChunk(server, id, Post(idx, blob), answers(idx));
  }

  /** Slices the file and posts the slices in turn; stops at the first failure. */
  method UploadChunks(server: Server, id: string, file: Body, requested: nat, answers: nat -> ChunkAnswers)
    returns (ok: bool)
    requires server.Valid() && id != ""
    modifies server`store, server.tracker
    ensures server.Valid()
    ensures ok ==>
      var size := ChunkSize(requested);
      server.Chunks(id) == Latest(old(server.Chunks(id)), PiecePosts(file, size, PieceCount(|file|, size)))
    ensures FileFits(id, old(Sum(server.Sizes(id))), file, ChunkSize(requested), answers) ==> ok
    ensures old(server.Backed(id)) ==> server.Backed(id)
  {
    var chunkSize := ChunkSize(requested);
    var total := PieceCount(|file|, chunkSize);
    ghost var start, size := server.Chunks(id), Sum(server.Sizes(id));
    assert size >= 0 by { assert SizesOk(server.Sizes(id)) || server.Sizes(id) == map[]; }
    var idx := 0;
    while idx < total
      invariant 0 <= idx <= total
      invariant HoldsPieces(server, id, start, size, file, chunkSize, idx)
      invariant old(server.Backed(id)) ==> server.Backed(id)
    {
      ok := PostPiece(server, id, start, size, file, chunkSize, idx, answers);
      if !ok {
        return false;
      }
      idx := idx + 1;
    }
    ok := true;
  }

  lemma PiecePostsArePieces(file: Body, chunkSize: nat)
    requires chunkSize > 0
    ensures Latest(map[], PiecePosts(file, chunkSize, PieceCount(|file|, chunkSize))) == Pieces(file, chunkSize)
  {
    var n := PieceCount(|file|, chunkSize);
    var posts := PiecePosts(file, chunkSize, n);
    forall idx | idx in Pieces(file, chunkSize) ensures Post(idx, Pieces(file, chunkSize)[idx]) in posts {
      assert posts[idx] == Post(idx, Piece(file, chunkSize, idx));
    }
    ReassemblyUndoesSplit(file, chunkSize, posts);
  }

  lemma UploadedIsCompletable(store: Store, sizes: Sizes, id: string, file: Body, chunkSize: nat, ext: Option<string>,
          user: Option<string>, answers: CompleteAnswers)
    requires SafeId(id) && |file| > 0 && chunkSize > 0
    requires ext.Some? && ext.value in EXTENSIONS && user.Some? && user.value != ""
    requires AllStored(store, id, sizes.Keys) && ChunksAt(store, id, sizes.Keys) == Pieces(file, chunkSize)
    requires AllGood(answers, file)
    ensures CompletableFrom(store, sizes, id, ext, user, answers)
  {
    AssembledPieces(file, chunkSize);
    PieceFits(file, chunkSize, 0);
    assert 0 in ChunksAt(store, id, sizes.Keys);
    forall k | k in sizes.Keys ensures Available(store, id, answers.readable, k) {}
  }

  method CompleteUploaded(server: Server, id: string, file: Body, chunkSize: nat, ext: Option<string>,
          user: Option<string>, answers: CompleteAnswers)
    returns (r: Reply)
    requires server.Valid() && server.Backed(id) && chunkSize > 0 && server.Chunks(id) == Pieces(file, chunkSize)
    modifies server, server.tracker
    ensures server.Valid()
    ensures r.Queued? ==>
      && ext.Some? && r.objectKey == FinalKey(id, ext.value)
      && r.objectKey in server.store && server.store[r.objectKey] == file
      && server.queued == old(server.queued) + [r.objectKey]
    ensures
      && SafeId(id) && |file| > 0 && ext.Some? && ext.value in EXTENSIONS && user.Some? && user.value != ""
      && AllGood(answers, file)
      ==> r.Queued?
  {
    AssembledPieces(file, chunkSize);
    ghost var store, keys := server.store, server.Sizes(id).Keys;
    if && SafeId(id) && |file| > 0 && ext.Some? && ext.value in EXTENSIONS && user.Some? && user.value != ""
       && AllGood(answers, file) {
      UploadedIsCompletable(server.store, server.Sizes(id), id, file, chunkSize, ext, user, answers);
    }
    r := server.HandleComplete(id, ext, user, answers);
    if r.Queued? {
      CompletionsStayApart(store, id, ext.value, file, keys, answers.deletes, id, keys, ext.value);
    }
  }

  /**
   * The round trip: when the completion of a fresh upload is queued, the object the message names holds exactly the
   * file; and it is queued when nothing fails, the file is not empty and within the limits, and it passes as a video.
   */
  method UploadFile(server: Server, id: string, file: Body, requested: nat, ext: Option<string>, user: Option<string>,
          posts: nat -> ChunkAnswers, answers: CompleteAnswers)
    returns (r: Reply)
    requires server.Valid() && id != "" && server.Sizes(id) == map[]
    modifies server, server.tracker
    ensures server.Valid()
    ensures r.Queued? ==>
      && ext.Some? && r.objectKey == FinalKey(id, ext.value)
      && r.objectKey in server.store && server.store[r.objectKey] == file
      && server.queued == old(server.queued) + [r.objectKey]
    ensures
      && FileFits(id, 0, file, ChunkSize(requested), posts) && |file| >= 1
      && ext.Some? && ext.value in EXTENSIONS && user.Some? && user.value != ""
      && AllGood(answers, file)
      ==> r.Queued?
  {
    assert server.Chunks(id) == map[];
    assert Sum(server.Sizes(id)) == 0;
    var ok := UploadChunks(server, id, file, requested, posts);
    if !ok {
      return Rejected(500);
    }
    PiecePostsArePieces(file, ChunkSize(requested));
    r := CompleteUploaded(server, id, file, ChunkSize(requested), ext, user, answers);
  }

  /** Each post is a piece of the file, and each piece is posted. */
  ghost predicate Covers(posts: seq<Post>, file: Body, chunkSize: nat)
    requires chunkSize > 0
  {
    && (forall p :: p in posts ==> p.idx in Pieces(file, chunkSize) && p.body == Pieces(file, chunkSize)[p.idx])
    && (forall idx :: idx in Pieces(file, chunkSize) ==> Post(idx, Pieces(file, chunkSize)[idx]) in posts)
  }

  /** The round trip for pieces sent in any order and any number of times, as several senders at once may do. */
  method UploadInAnyOrder(server: Server, id: string, file: Body, chunkSize: nat, posts: seq<Post>, ext: Option<string>,
          user: Option<string>, answers: nat -> ChunkAnswers, completion: CompleteAnswers)
    returns (r: Reply)
    requires server.Valid() && id != "" && server.Sizes(id) == map[]
    requires chunkSize > 0 && Covers(posts, file, chunkSize)
    modifies server, server.tracker
    ensures server.Valid()
    ensures r.Queued? ==>
      && ext.Some? && r.objectKey == FinalKey(id, ext.value)
      && r.objectKey in server.store && server.store[r.objectKey] == file
      && server.queued == old(server.queued) + [r.objectKey]
    ensures
      && AllFit(id, 0, posts, answers) && |file| >= 1
      && ext.Some? && ext.value in EXTENSIONS && user.Some? && user.value != ""
      && AllGood(completion, file)
      ==> r.Queued?
  {
    assert server.Chunks(id) == map[];
    assert Sum(server.Sizes(id)) == 0;
    var ok := PostAll(server, id, posts, answers);
    if !ok {
      return Rejected(500);
    }
    ReassemblyUndoesSplit(file, chunkSize, posts);
    r := CompleteUploaded(server, id, file, chunkSize, ext, user, completion);
  }

  /**
   * Completing again after a completion that got as far as its final object: it is queued exactly when the first did
   * not store that object or cleaned up nothing.
   */
  method RetryCompletion(server: Server, id: string, ext: Option<string>, user: Option<string>, first: CompleteAnswers,
          second: CompleteAnswers)
    returns (r: Reply, again: Reply)
    requires server.Valid() && server.Completable(id, ext, user, first)
    requires AllGood(second, Assembled(server.Chunks(id)))
    modifies server, server.tracker
    ensures server.Valid()
    ensures r.Queued? <==> first.upload == Done && first.publish
    ensures again.Queued? <==>
      first.upload != Done || (first.purge == Refused && NoneDeleted(old(server.Sizes(id)).Keys, first.deletes))
  {
    RetryExactly(server.store, server.tracker.data, id, ext, user, first, second);
    r := server.HandleComplete(id, ext, user, first);
    again := server.HandleComplete(id, ext, user, second);
  }

  lemma {:induction false} FullHasFirst(n: nat)
    requires 0 < n <= MAX_INT64
    ensures 0 in SizeCap.FullSizes(n) && SizeCap.FullSizes(n)[0] == MAX_CHUNK
    ensures SizeCap.FullSizes(n)[0 := MAX_CHUNK] == SizeCap.FullSizes(n)
  {
    if n > 1 { FullHasFirst(n - 1); }
  }

  /**
   * An upload of 64 full chunks fills the cap exactly; re-sending its first chunk unchanged would leave the total as
   * it is, and is refused.
   */
  method ResendAtCap() returns (server: Server, r: Reply)
    ensures fresh(server) && server.Valid() && r == Rejected(413)
    ensures 0 in server.Sizes("u") && server.Sizes("u")[0] == MAX_CHUNK
    ensures Sum(server.Sizes("u")) == Sum(server.Sizes("u")[0 := MAX_CHUNK]) == MAX_TOTAL
  {
    server := new Server();
    var chunk: Body := seq(MAX_CHUNK, i => 0);
    for n := 0 to 64
      invariant server.Valid() && fresh(server) && fresh(server.tracker) && server.Sizes("u") == SizeCap.FullSizes(n)
    {
      SizeCap.FullSum(n);
      var ok := PostChunk(server, "u", Post(n, chunk), ALL_DONE);
    }
    SizeCap.FullSum(64);
    FullHasFirst(64);
    AtoiItoa(0);
    r := server.HandleChunk("u", "", "", Itoa(0), "", Some(chunk), ALL_DONE);
  }

  // ---- A file over the limit ----

  function OneByteSizes(n: nat): Sizes
    requires n <= MAX_INT64
  {
    if n == 0 then map[] else OneByteSizes(n - 1)[n - 1 := 1]
  }

  lemma {:induction false} OneByteKeys(n: nat)
    requires n <= MAX_INT64
    ensures OneByteSizes(n).Keys == SizeCap.FullSizes(n).Keys && Sum(OneByteSizes(n)) == n
    ensures forall k: Int64 :: k in OneByteSizes(n) <==> 0 <= k < n
  {
    if n > 0 {
      OneByteKeys(n - 1);
      SumUpdate<Int64>(OneByteSizes(n - 1), n - 1, 1);
    }
  }

  /** `n` chunks of one byte. */
  function Small(n: nat): map<int, Body> {
    if n == 0 then map[] else Small(n - 1)[n - 1 := [0]]
  }

  /** The first `n` chunks replaced by the large one. */
  function Replaced(chunks: map<int, Body>, n: nat, large: Body): map<int, Body> {
    if n == 0 then chunks else Replaced(chunks, n - 1, large)[n - 1 := large]
  }

  lemma {:induction false} SmallKeys(n: nat, k: int)
    ensures k in Small(n) <==> 0 <= k < n
  {
    if n > 0 { SmallKeys(n - 1, k); }
  }

  lemma {:induction false} ReplacedAt(chunks: map<int, Body>, n: nat, large: Body, k: int)
    ensures k in Replaced(chunks, n, large) <==> k in chunks || 0 <= k < n
    ensures 0 <= k < n ==> Replaced(chunks, n, large)[k] == large
  {
    if n > 0 { ReplacedAt(chunks, n - 1, large, k); }
  }

  /** The first `n` chunks of one byte are posted. */
  ghost predicate HoldsSmall(server: Server, n: nat)
    reads server, server.tracker
  {
    server.Valid() && n <= MAX_INT64 && server.Sizes("u") == OneByteSizes(n) && server.Chunks("u") == Small(n)
  }

  method PostSmall(server: Server, n: nat)
    requires n < 65 && HoldsSmall(server, n)
    modifies server`store, server.tracker
    ensures HoldsSmall(server, n + 1)
  {
    OneByteKeys(n);
    var ok := PostChunk(server, "u", Post(n, [0]), ALL_DONE);
  }

  method PostSmallChunks(server: Server)
    requires server.Valid() && server.Sizes("u") == map[]
    modifies server`store, server.tracker
    ensures HoldsSmall(server, 65)
  {
    for n := 0 to 65
      invariant HoldsSmall(server, n)
    {
      PostSmall(server, n);
    }
  }

  /** A recorded chunk is sent again with a body that is stored and then not recorded. */
  method ResendUnrecorded(server: Server, idx: Int64, body: Body)
    requires server.Valid() && idx in server.Sizes("u") && idx >= 0
    requires 1 <= |body| <= MAX_CHUNK && Sum(server.Sizes("u")) + |body| <= MAX_TOTAL
    modifies server`store, server.tracker
    ensures server.Valid() && server.Sizes("u") == old(server.Sizes("u"))
    ensures server.Chunks("u") == old(server.Chunks("u"))[idx := body]
  {
    ghost var keys := server.Sizes("u").Keys;
    AtoiItoa(idx);
    PutChunk(server.store, "u", keys, idx, body);
    assert keys + {idx} == keys;
    var r := server.HandleChunk("u", "", "", Itoa(idx), "", Some(body), ChunkAnswers(true, Done, Refused));
  }

  /** All 65 chunks are recorded with one byte, and the first `n` hold the large body. */
  ghost predicate HoldsLarge(server: Server, n: nat, large: Body)
    reads server, server.tracker
  {
    && server.Valid()
    && server.Sizes("u") == OneByteSizes(65)
    && server.Chunks("u") == Replaced(Small(65), n, large)
  }

  method ResendLarge(server: Server, n: nat, large: Body)
    requires n < 65 && |large| == MAX_CHUNK && HoldsLarge(server, n, large)
    modifies server`store, server.tracker
    ensures HoldsLarge(server, n + 1, large)
  {
    OneByteKeys(65);
    ResendUnrecorded(server, n, large);
  }

  method ResendAllLarge(server: Server, large: Body)
    requires |large| == MAX_CHUNK && HoldsLarge(server, 0, large)
    modifies server`store, server.tracker
    ensures HoldsLarge(server, 65, large)
  {
    for n := 0 to 65
      invariant HoldsLarge(server, n, large)
    {
      ResendLarge(server, n, large);
    }
  }

  lemma {:induction false} FullIsUniform(n: nat, k: Int64)
    requires n <= MAX_INT64 && k in SizeCap.FullSizes(n)
    ensures SizeCap.FullSizes(n)[k] == MAX_CHUNK
  {
    if k != n - 1 { FullIsUniform(n - 1, k); }
  }

  lemma SameKeySet(a: set<int>, b: set<int>)
    requires forall k: int :: k in a <==> k in b
    ensures a == b
  {
    forall k | k in a ensures k in b {}
    forall k | k in b ensures k in a {}
  }

  lemma ReplacedLength(n: nat, large: Body)
    requires n <= MAX_INT64 && |large| == MAX_CHUNK
    ensures Replaced(Small(n), n, large).Keys == OneByteSizes(n).Keys
    ensures |Assembled(Replaced(Small(n), n, large))| == n * MAX_CHUNK
  {
    var chunks, sizes := Replaced(Small(n), n, large), SizeCap.FullSizes(n);
    OneByteKeys(n);
    SizeCap.FullSum(n);
    forall k: int ensures k in chunks <==> k in sizes {
      SmallKeys(n, k);
      ReplacedAt(Small(n), n, large, k);
      if 0 <= k < n { assert k in OneByteSizes(n); }
    }
    forall k: Int64 | k in sizes ensures k in chunks && |chunks[k]| == sizes[k] {
      ReplacedAt(Small(n), n, large, k);
      FullIsUniform(n, k);
    }
    SameKeySet(chunks.Keys, sizes.Keys);
    JoinedLength(chunks, sizes, sizes.Keys);
  }

  lemma LargeChunksComplete(store: Store, sizes: Sizes)
    requires sizes == OneByteSizes(65) && ChunksAt(store, "u", sizes.Keys).Keys == sizes.Keys
    ensures CompletableFrom(store, sizes, "u", Some(".mp4"), Some("user"), AnswersBut(Done, true))
  {
    OneByteKeys(65);
    assert 0 in sizes;
    forall k | k in sizes.Keys ensures Available(store, "u", AnswersBut(Done, true).readable, k) {
      assert k in ChunksAt(store, "u", sizes.Keys).Keys;
    }
  }

  method CompleteOversized(server: Server, ghost file: Body) returns (r: Reply)
    requires server.Valid() && server.Completable("u", Some(".mp4"), Some("user"), AnswersBut(Done, true))
    requires file == Assembled(server.Chunks("u"))
    modifies server, server.tracker
    ensures server.Valid() && r.Queued? && r.objectKey in server.store && server.store[r.objectKey] == file
  {
    ghost var store, keys := server.store, server.Sizes("u").Keys;
    r := server.HandleComplete("u", Some(".mp4"), Some("user"), AnswersBut(Done, true));
    CompletionsStayApart(store, "u", ".mp4", file, keys, AnswersBut(Done, true).deletes, "u", keys, ".mp4");
  }

  /**
   * One post at a time can still end in a file over the limit: 65 chunks of a byte are posted, and each is sent again
   * as 32 MiB that are stored but not recorded. The completion then queues 65 * 32 MiB, more than 2 GiB.
   */
  method OversizedUpload() returns (server: Server, r: Reply)
    ensures fresh(server) && server.Valid() && r.Queued? && r.objectKey in server.store
    ensures |server.store[r.objectKey]| == 65 * MAX_CHUNK > MAX_TOTAL
  {
    server := new Server();
    var large: Body := seq(MAX_CHUNK, i => 0);
    PostSmallChunks(server);
    ResendAllLarge(server, large);
    ReplacedLength(65, large);
    LargeChunksComplete(server.store, server.Sizes("u"));
    r := CompleteOversized(server, Assembled(server.Chunks("u")));
  }
}

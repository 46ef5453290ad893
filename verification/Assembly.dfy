/** Putting chunks back together: the in-place sort of indices, concatenation in index order, and the client's split. */
module Assembly {
  import opened Tracker

  newtype Byte = n: int | 0 <= n < 256

  type Body = seq<Byte>

  // ---- Sorting indices in place ----

  predicate Sorted(s: seq<int>) {
    forall i, j :: 0 <= i <= j < |s| ==> s[i] <= s[j]
  }

  function Swapped(s: seq<int>, i: nat, j: nat): seq<int>
    requires i < |s| && j < |s|
  {
    s[i := s[j]][j := s[i]]
  }

  lemma SwapKeepsMultiset(s: seq<int>, i: nat, j: nat)
    requires i < |s| && j < |s|
    ensures multiset(Swapped(s, i, j)) == multiset(s)
  {
  }

  predicate SortedTo(s: seq<int>, n: int) {
    forall p, q :: 0 <= p <= q < n && q < |s| ==> s[p] <= s[q]
  }

  /** The first `n` elements are in order, but for the one at `j` being too small for its place. */
  predicate SortedBut(s: seq<int>, n: int, j: int) {
    forall p, q :: 0 <= p < q < n && q < |s| && q != j ==> s[p] <= s[q]
  }

  lemma NextIsSortedBut(s: seq<int>, n: nat)
    requires SortedTo(s, n)
    ensures SortedBut(s, n + 1, n)
  {
  }

  lemma SwapMovesDown(s: seq<int>, n: nat, j: nat)
    requires 0 < j < n <= |s| && SortedBut(s, n, j) && s[j - 1] > s[j]
    ensures SortedBut(Swapped(s, j, j - 1), n, j - 1)
  {
  }

  lemma PlacedIsSorted(s: seq<int>, n: nat, j: nat)
    requires j < n <= |s| && SortedBut(s, n, j) && (j > 0 ==> s[j - 1] <= s[j])
    ensures SortedTo(s, n)
  {
    forall p | 0 <= p < j ensures s[p] <= s[j] { assert p == j - 1 || s[p] <= s[j - 1]; }
  }

  method SortInts(a: array<int>)
    modifies a
    ensures Sorted(a[..]) && multiset(a[..]) == multiset(old(a[..]))
  {
    ghost var start := a[..];
    var i := 1;
    while i < a.Length
      invariant 1 <= i && SortedTo(a[..], i)
      invariant multiset(a[..]) == multiset(start)
    {
      var j := i;
      NextIsSortedBut(a[..], i);
      while j > 0 && a[j - 1] > a[j]
        invariant 0 <= j <= i && SortedBut(a[..], i + 1, j)
        invariant multiset(a[..]) == multiset(start)
      {
        ghost var before := a[..];
        SwapMovesDown(before, i + 1, j);
        SwapKeepsMultiset(before, j, j - 1);
        a[j], a[j - 1] := a[j - 1], a[j];
        assert a[..] == Swapped(before, j, j - 1);
        j := j - 1;
      }
      PlacedIsSorted(a[..], i + 1, j);
      i := i + 1;
    }
  }

  // ---- The one ascending listing of a set ----

  predicate IsTop(keys: set<int>, top: int) {
    top in keys && forall k :: k in keys ==> k <= top
  }

  lemma {:induction false} HasTop(keys: set<int>, some: int) returns (top: int)
    requires some in keys
    ensures IsTop(keys, top)
  {
    var others := keys - {some};
    assert keys == others + {some};
    top := some;
    if other :| other in others {
      var highest := HasTop(others, other);
      if highest > some { top := highest; }
    }
  }

  ghost function Top(keys: set<int>): (top: int)
    requires exists k :: k in keys
    ensures IsTop(keys, top)
  {
    assert exists t :: IsTop(keys, t) by {
      var k :| k in keys;
      var t := HasTop(keys, k);
    }
    var top :| IsTop(keys, top);
    top
  }

  /** The indices in ascending order. */
  ghost function InOrder(keys: set<int>): (s: seq<int>)
    ensures IsListing(s, keys) && Sorted(s)
  {
    if exists k :: k in keys then InOrder(keys - {Top(keys)}) + [Top(keys)] else []
  }

  lemma InitIsListing(s: seq<int>, keys: set<int>)
    requires s != [] && IsListing(s, keys)
    ensures IsListing(s[..|s| - 1], keys - {s[|s| - 1]})
  {
    var init := s[..|s| - 1];
    forall k | k in keys && k != s[|s| - 1] ensures k in init {
      var i :| 0 <= i < |s| && s[i] == k;
      assert init[i] == k;
    }
  }

  lemma {:induction false} ListingIsUnique(s: seq<int>, keys: set<int>)
    requires IsListing(s, keys) && Sorted(s)
    ensures s == InOrder(keys)
    decreases |s|
  {
    if s == [] {
      assert forall k :: k in keys ==> k in s;
      assert keys == {};
    } else {
      var last := |s| - 1;
      assert s[last] in s;
      assert s[last] == Top(keys) by {
        var i :| 0 <= i < |s| && s[i] == Top(keys);
      }
      InitIsListing(s, keys);
      ListingIsUnique(s[..last], keys - {s[last]});
      assert s == s[..last] + [s[last]];
    }
  }

  lemma {:induction false} DistinctCount(s: seq<int>, x: int)
    requires forall i, j :: 0 <= i < j < |s| ==> s[i] != s[j]
    ensures multiset(s)[x] <= 1
  {
    if s != [] {
      var init := s[..|s| - 1];
      assert s == init + [s[|s| - 1]];
      DistinctCount(init, x);
      if x == s[|s| - 1] { assert x !in init; }
    }
  }

  lemma TwiceCounts(s: seq<int>, i: nat, j: nat)
    requires i < j < |s| && s[i] == s[j]
    ensures multiset(s)[s[i]] >= 2
  {
    assert s == s[..j] + s[j..];
    assert s[..j][i] in s[..j] && s[j..][0] in s[j..];
  }

  /** Rearranging a listing leaves a listing. */
  lemma RearrangedListing(s: seq<int>, t: seq<int>, keys: set<int>)
    requires IsListing(s, keys) && multiset(s) == multiset(t)
    ensures IsListing(t, keys)
  {
    forall i, j | 0 <= i < j < |t| ensures t[i] != t[j] {
      DistinctCount(s, t[i]);
      if t[i] == t[j] { TwiceCounts(t, i, j); }
    }
    forall k ensures k in t <==> k in keys {
      assert k in t <==> k in multiset(t);
      assert k in s <==> k in multiset(s);
    }
  }

  // ---- Concatenation ----

  function Joined(chunks: map<int, Body>, order: seq<int>): Body
    requires forall k :: k in order ==> k in chunks
  {
    if order == [] then []
    else
      var last := order[|order| - 1];
      assert last in order;
      Joined(chunks, order[..|order| - 1]) + chunks[last]
  }

  /** The bodies of the first `n` indices. */
  function JoinedFirst(chunks: map<int, Body>, order: seq<int>, n: nat): Body
    requires n <= |order| && forall i :: 0 <= i < n ==> order[i] in chunks
  {
    if n == 0 then [] else JoinedFirst(chunks, order, n - 1) + chunks[order[n - 1]]
  }

  lemma {:induction false} JoinedFirstIsJoined(chunks: map<int, Body>, order: seq<int>, n: nat)
    requires n <= |order| && forall i :: 0 <= i < n ==> order[i] in chunks
    ensures JoinedFirst(chunks, order, n) == Joined(chunks, order[..n])
  {
    if n > 0 {
      JoinedFirstIsJoined(chunks, order, n - 1);
      assert order[..n][..n - 1] == order[..n - 1];
    }
  }

  /** The file the chunks make: their bodies in ascending index order. */
  ghost function Assembled(chunks: map<int, Body>): Body {
    Joined(chunks, InOrder(chunks.Keys))
  }

  // ---- Posts, in any order and with re-sends ----

  datatype Post = Post(idx: int, body: Body)

  /** The bodies held after the posts: the last one sent for each index. */
  function Latest(start: map<int, Body>, posts: seq<Post>): map<int, Body> {
    if posts == [] then start
    else
      var last := posts[|posts| - 1];
      Latest(start, posts[..|posts| - 1])[last.idx := last.body]
  }

  lemma {:induction false} LatestHolds(start: map<int, Body>, posts: seq<Post>, p: Post)
    requires p in posts
    ensures p.idx in Latest(start, posts)
  {
    var init, last := posts[..|posts| - 1], posts[|posts| - 1];
    assert posts == init + [last];
    if p.idx != last.idx { LatestHolds(start, init, p); }
  }

  /** A post that no later post of its index overwrites is what counts. */
  lemma {:induction false} LatestWins(start: map<int, Body>, posts: seq<Post>, i: nat)
    requires i < |posts| && forall j :: i < j < |posts| ==> posts[j].idx != posts[i].idx
    ensures posts[i].idx in Latest(start, posts) && Latest(start, posts)[posts[i].idx] == posts[i].body
  {
    if i < |posts| - 1 { LatestWins(start, posts[..|posts| - 1], i); }
  }

  lemma {:induction false} LatestComesFrom(start: map<int, Body>, posts: seq<Post>, k: int)
    requires k in Latest(start, posts)
    ensures (k in start && Latest(start, posts)[k] == start[k]) || Post(k, Latest(start, posts)[k]) in posts
  {
    if posts != [] {
      var init, last := posts[..|posts| - 1], posts[|posts| - 1];
      assert posts == init + [last];
      if k != last.idx { LatestComesFrom(start, init, k); }
    }
  }

  /** Posts that do not disagree about an index may come in any order, any number of times. */
  lemma OrderDoesNotMatter(posts: seq<Post>, posts': seq<Post>)
    requires forall p :: p in posts <==> p in posts'
    requires forall p, q :: p in posts && q in posts && p.idx == q.idx ==> p == q
    ensures Latest(map[], posts) == Latest(map[], posts')
  {
    var a, b := Latest(map[], posts), Latest(map[], posts');
    forall k | k in a ensures k in b && a[k] == b[k] {
      LatestComesFrom(map[], posts, k);
      LatestHolds(map[], posts', Post(k, a[k]));
      LatestComesFrom(map[], posts', k);
    }
    forall k | k in b ensures k in a {
      LatestComesFrom(map[], posts', k);
      LatestHolds(map[], posts, Post(k, b[k]));
    }
  }

  // ---- The client's split ----

  function PieceCount(size: nat, chunkSize: nat): nat
    requires chunkSize > 0
  {
    (size + chunkSize - 1) / chunkSize
  }

  function CutAt(size: nat, chunkSize: nat, idx: nat): nat {
    if idx * chunkSize < size then idx * chunkSize else size
  }

  lemma CutsAscend(size: nat, chunkSize: nat, idx: nat)
    ensures CutAt(size, chunkSize, idx) <= CutAt(size, chunkSize, idx + 1) <= size
    ensures CutAt(size, chunkSize, idx + 1) - CutAt(size, chunkSize, idx) <= chunkSize
  {
    assert (idx + 1) * chunkSize == idx * chunkSize + chunkSize;
  }

  function Piece(file: Body, chunkSize: nat, idx: nat): Body {
    CutsAscend(|file|, chunkSize, idx);
    file[CutAt(|file|, chunkSize, idx)..CutAt(|file|, chunkSize, idx + 1)]
  }

  function Pieces(file: Body, chunkSize: nat): map<int, Body>
    requires chunkSize > 0
  {
    map idx | 0 <= idx < PieceCount(|file|, chunkSize) :: Piece(file, chunkSize, idx)
  }

  lemma LastCut(size: nat, chunkSize: nat)
    requires chunkSize > 0
    ensures CutAt(size, chunkSize, PieceCount(size, chunkSize)) == size
    ensures forall idx: nat :: idx < PieceCount(size, chunkSize) ==> CutAt(size, chunkSize, idx) < size
  {
    var n := PieceCount(size, chunkSize);
    assert n * chunkSize >= size;
    forall idx: nat | idx < n ensures idx * chunkSize < size {
      assert idx * chunkSize <= (n - 1) * chunkSize;
      assert (n - 1) * chunkSize < size;
    }
  }

  function Range(n: nat): seq<int> {
    seq(n, i => i)
  }

  lemma {:induction false} JoinedPieces(file: Body, chunkSize: nat, n: nat)
    requires chunkSize > 0 && n <= PieceCount(|file|, chunkSize)
    ensures CutAt(|file|, chunkSize, n) <= |file|
    ensures Joined(Pieces(file, chunkSize), Range(n)) == file[..CutAt(|file|, chunkSize, n)]
  {
    if n > 0 {
      JoinedPieces(file, chunkSize, n - 1);
      CutsAscend(|file|, chunkSize, n - 1);
      assert Range(n)[..n - 1] == Range(n - 1);
    }
  }

  /** Assembling the pieces of a file gives the file. */
  lemma AssembledPieces(file: Body, chunkSize: nat)
    requires chunkSize > 0
    ensures Assembled(Pieces(file, chunkSize)) == file
  {
    var n := PieceCount(|file|, chunkSize);
    assert IsListing(Range(n), Pieces(file, chunkSize).Keys) by {
      forall k | k in Pieces(file, chunkSize) ensures k in Range(n) { assert Range(n)[k] == k; }
    }
    ListingIsUnique(Range(n), Pieces(file, chunkSize).Keys);
    JoinedPieces(file, chunkSize, n);
    LastCut(|file|, chunkSize);
  }

  /**
   * Reassembly undoes the split: if every post is a piece of the file and every piece was posted at least once, then
   * whatever the order and however often pieces were re-sent, the assembled bodies are the file.
   */
  lemma ReassemblyUndoesSplit(file: Body, chunkSize: nat, posts: seq<Post>)
    requires chunkSize > 0
    requires forall p :: p in posts ==>
      p.idx in Pieces(file, chunkSize) && p.body == Pieces(file, chunkSize)[p.idx]
    requires forall idx :: idx in Pieces(file, chunkSize) ==> Post(idx, Pieces(file, chunkSize)[idx]) in posts
    ensures Latest(map[], posts) == Pieces(file, chunkSize)
    ensures Assembled(Latest(map[], posts)) == file
  {
    var latest, pieces := Latest(map[], posts), Pieces(file, chunkSize);
    forall k | k in latest ensures k in pieces && latest[k] == pieces[k] { LatestComesFrom(map[], posts, k); }
    forall k | k in pieces ensures k in latest { LatestHolds(map[], posts, Post(k, pieces[k])); }
    assert latest == pieces;
    AssembledPieces(file, chunkSize);
  }
}

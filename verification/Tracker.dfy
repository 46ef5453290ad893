/** The two chunk trackers of cmd/upload-service/main.go: an integer map, and a Redis hash of decimal strings. */
module Tracker {
  import opened Outcomes
  import opened Decimal
  import opened Keys

  // ---- Sums over a map, in any iteration order ----

  ghost function SumOver<K(!new)>(m: map<K, int>, keys: set<K>): int
    requires keys <= m.Keys
  {
    if keys == {} then 0 else var k :| k in keys; m[k] + SumOver(m, keys - {k})
  }

  ghost function Sum<K(!new)>(m: map<K, int>): int {
    SumOver(m, m.Keys)
  }

  /** The order of iteration does not matter: any key may be taken out first. */
  lemma {:induction false} SumTakesAny<K(!new)>(m: map<K, int>, keys: set<K>, k: K)
    requires keys <= m.Keys && k in keys
    ensures SumOver(m, keys) == m[k] + SumOver(m, keys - {k})
  {
    var first :| first in keys && SumOver(m, keys) == m[first] + SumOver(m, keys - {first});
    if first != k {
      SumTakesAny(m, keys - {first}, k);
      SumTakesAny(m, keys - {k}, first);
      assert keys - {first} - {k} == keys - {k} - {first};
    }
  }

  lemma {:induction false} SumAgrees<K(!new)>(m: map<K, int>, m': map<K, int>, keys: set<K>)
    requires keys <= m.Keys && keys <= m'.Keys && forall k :: k in keys ==> m[k] == m'[k]
    ensures SumOver(m, keys) == SumOver(m', keys)
  {
    if keys != {} {
      var k :| k in keys;
      SumTakesAny(m, keys, k);
      SumTakesAny(m', keys, k);
      SumAgrees(m, m', keys - {k});
    }
  }

  /** One more key is visited: what a loop adds to its running int64 total. */
  lemma TotalGrows<K(!new)>(m: map<K, int>, seen: set<K>, k: K)
    requires seen <= m.Keys && k in m && k !in seen
    ensures Wrap(Wrap(SumOver(m, seen)) + m[k]) == Wrap(SumOver(m, seen + {k}))
  {
    SumTakesAny(m, seen + {k}, k);
    assert seen + {k} - {k} == seen;
    WrapAdds(SumOver(m, seen), m[k]);
  }

  /** Overwriting an entry replaces its share of the sum. */
  lemma SumUpdate<K(!new)>(m: map<K, int>, k: K, v: int)
    ensures Sum(m[k := v]) == Sum(m) - (if k in m then m[k] else 0) + v
  {
    var updated := m[k := v];
    var rest := m.Keys - {k};
    SumTakesAny(updated, updated.Keys, k);
    assert updated.Keys - {k} == rest;
    SumAgrees(m, updated, rest);
    if k in m { SumTakesAny(m, m.Keys, k); } else { assert rest == m.Keys; }
  }

  /** Each key once, in some order. */
  ghost predicate IsListing<K(!new)>(s: seq<K>, keys: set<K>) {
    && (forall i, j :: 0 <= i < j < |s| ==> s[i] != s[j])
    && (forall k :: k in s <==> k in keys)
  }

  // ---- In memory ----

  type Sizes = map<Int64, Int64>

  function SizesOf(data: map<string, Sizes>, uploadId: string): Sizes {
    if uploadId in data then data[uploadId] else map[]
  }

  function Recorded(data: map<string, Sizes>, uploadId: string, chunkIdx: Int64, size: Int64): map<string, Sizes> {
    data[uploadId := SizesOf(data, uploadId)[chunkIdx := size]]
  }

  /** Iterating over a map's keys, in whatever order. */
  method Enumerate<K(==, !new)>(keys: set<K>) returns (listing: seq<K>)
    ensures IsListing(listing, keys)
  {
    var left := keys;
    listing := [];
    while left != {}
      invariant left <= keys && IsListing(listing, keys - left)
      decreases |left|
    {
      var k :| k in left;
      left := left - {k};
      listing := listing + [k];
    }
  }

  class MemoryTracker {
    var data: map<string, Sizes>

    constructor ()
      ensures data == map[]
    {
      data := map[];
    }

    method RecordChunk(uploadId: string, chunkIdx: Int64, size: Int64)
      modifies this
      ensures data == Recorded(old(data), uploadId, chunkIdx, size)
    {
      var m: Sizes := map[];
      if uploadId in data {
        m := data[uploadId];
      }
      m := m[chunkIdx := size];
      data := data[uploadId := m];
    }

    method ChunkCount(uploadId: string) returns (n: nat)
      ensures n == |SizesOf(data, uploadId)|
    {
      n := if uploadId in data then |data[uploadId]| else 0;
    }

    method TotalSize(uploadId: string) returns (total: Int64)
      ensures total == Wrap(Sum(SizesOf(data, uploadId)))
    {
      var sizes := SizesOf(data, uploadId);
      var left := sizes.Keys;
      ghost var seen: set<Int64> := {};
      total := 0;
      while left != {}
        invariant seen + left == sizes.Keys && seen !! left
        invariant total == Wrap(SumOver(sizes, seen))
        decreases |left|
      {
        var k :| k in left;
        TotalGrows(sizes, seen, k);
        seen, left := seen + {k}, left - {k};
        total := Wrap(total + sizes[k]);
      }
      assert seen == sizes.Keys;
    }

    method ListChunks(uploadId: string) returns (indices: seq<Int64>)
      ensures IsListing(indices, SizesOf(data, uploadId).Keys)
    {
      indices := Enumerate(SizesOf(data, uploadId).Keys);
    }

    method Purge(uploadId: string)
      modifies this
      ensures data == old(data) - {uploadId}
    {
      data := data - {uploadId};
    }
  }

  // ---- In Redis ----

  type Hash = map<string, string>

  function HashOf(hashes: map<string, Hash>, uploadId: string): Hash {
    if TrackerKey(uploadId) in hashes then hashes[TrackerKey(uploadId)] else map[]
  }

  function Hashed(hashes: map<string, Hash>, uploadId: string, chunkIdx: Int64, size: Int64): map<string, Hash> {
    hashes[TrackerKey(uploadId) := HashOf(hashes, uploadId)[Itoa(chunkIdx) := Itoa(size)]]
  }

  function ReadSizes(h: Hash): map<string, Result<Int64, string>> {
    map f | f in h :: Atoi(h[f])
  }

  function ReadIndices(h: Hash): map<string, Result<Int64, string>> {
    map f | f in h :: Atoi(f)
  }

  predicate AllRead<K(!new)>(read: map<K, Result<Int64, string>>) {
    forall k :: k in read ==> read[k].Ok?
  }

  function Values<K>(read: map<K, Result<Int64, string>>): map<K, int> {
    map k | k in read :: if read[k].Ok? then read[k].value as int else 0
  }

  /** Adding up what was read, until something could not be. */
  method TotalOf<K(==, !new)>(read: map<K, Result<Int64, string>>) returns (r: Result<Int64, string>)
    ensures r.Ok? <==> AllRead(read)
    ensures r.Ok? ==> r.value == Wrap(Sum(Values(read)))
  {
    ghost var sizes := Values(read);
    var left := read.Keys;
    ghost var seen: set<K> := {};
    var total: Int64 := 0;
    while left != {}
      invariant seen + left == read.Keys && seen !! left
      invariant total == Wrap(SumOver(sizes, seen))
      invariant forall k :: k in seen ==> read[k].Ok?
      decreases |left|
    {
      var k :| k in left;
      if read[k].Err? {
        return Err("parse chunk size");
      }
      TotalGrows(sizes, seen, k);
      seen, left := seen + {k}, left - {k};
      total := Wrap(total + read[k].value);
    }
    assert seen == sizes.Keys;
    r := Ok(total);
  }

  /** The integers read, in the order of these fields. */
  predicate ReadInOrder(read: map<string, Result<Int64, string>>, fields: seq<string>, indices: seq<Int64>) {
    |fields| == |indices| && forall i :: 0 <= i < |fields| ==> fields[i] in read && read[fields[i]] == Ok(indices[i])
  }

  method ListOf(read: map<string, Result<Int64, string>>) returns (r: Result<seq<Int64>, string>)
    ensures r.Ok? <==> AllRead(read)
    ensures r.Ok? ==> exists fields :: IsListing(fields, read.Keys) && ReadInOrder(read, fields, r.value)
  {
    var fields := Enumerate(read.Keys);
    var out: seq<Int64> := [];
    for i := 0 to |fields|
      invariant ReadInOrder(read, fields[..i], out)
    {
      assert fields[i] in read.Keys;
      if read[fields[i]].Err? {
        return Err("parse chunk idx");
      }
      out := out + [read[fields[i]].value];
    }
    assert fields[..|fields|] == fields;
    r := Ok(out);
  }

  // ---- The hash represents the integer map ----

  function Printed(keys: set<Int64>): set<string> {
    set k | k in keys :: Itoa(k)
  }

  ghost predicate Represents(h: Hash, sizes: Sizes) {
    h.Keys == Printed(sizes.Keys) && forall k :: k in sizes ==> h[Itoa(k)] == Itoa(sizes[k])
  }

  ghost predicate Refines(hashes: map<string, Hash>, data: map<string, Sizes>) {
    forall id ::
      && (id in data <==> TrackerKey(id) in hashes)
      && (id in data ==> Represents(hashes[TrackerKey(id)], data[id]))
  }

  /** Writes, with what Redis answers, and the expiry of a hash. */
  datatype Call =
    | Put(uploadId: string, chunkIdx: Int64, size: Int64, hset: Answer)
    | Purged(uploadId: string, del: Answer)
    | Expired(uploadId: string)

  function HashesStep(hashes: map<string, Hash>, call: Call): map<string, Hash> {
    match call
    case Put(id, idx, size, hset) => if hset == Refused then hashes else Hashed(hashes, id, idx, size)
    case Purged(id, del) => if del == Refused then hashes else hashes - {TrackerKey(id)}
    case Expired(id) => hashes - {TrackerKey(id)}
  }

  function DataStep(data: map<string, Sizes>, call: Call): map<string, Sizes> {
    match call
    case Put(id, idx, size, hset) => if hset == Refused then data else Recorded(data, id, idx, size)
    case Purged(id, del) => if del == Refused then data else data - {id}
    case Expired(id) => data - {id}
  }

  function HashesAfter(calls: seq<Call>): map<string, Hash> {
    if calls == [] then map[] else HashesStep(HashesAfter(calls[..|calls| - 1]), calls[|calls| - 1])
  }

  function DataAfter(calls: seq<Call>): map<string, Sizes> {
    if calls == [] then map[] else DataStep(DataAfter(calls[..|calls| - 1]), calls[|calls| - 1])
  }

  lemma PrintedOneMore(keys: set<Int64>, k: Int64)
    ensures Printed(keys + {k}) == Printed(keys) + {Itoa(k)}
  {
  }

  lemma RecordRepresents(h: Hash, sizes: Sizes, k: Int64, size: Int64)
    requires Represents(h, sizes)
    ensures Represents(h[Itoa(k) := Itoa(size)], sizes[k := size])
  {
    forall j | j in sizes && j != k ensures Itoa(j) != Itoa(k) { if Itoa(j) == Itoa(k) { ItoaInjective(j, k); } }
    assert sizes[k := size].Keys == sizes.Keys + {k};
    PrintedOneMore(sizes.Keys, k);
  }

  lemma StepRefines(hashes: map<string, Hash>, data: map<string, Sizes>, call: Call)
    requires Refines(hashes, data)
    ensures Refines(HashesStep(hashes, call), DataStep(data, call))
  {
    var hashes', data' := HashesStep(hashes, call), DataStep(data, call);
    forall id
      ensures id in data' <==> TrackerKey(id) in hashes'
      ensures id in data' ==> Represents(hashes'[TrackerKey(id)], data'[id])
    {
      assert id in data <==> TrackerKey(id) in hashes;
      if id != call.uploadId {
        if TrackerKey(id) == TrackerKey(call.uploadId) { TrackerKeysDiffer(id, call.uploadId); }
      } else if call.Put? {
        RecordRepresents(HashOf(hashes, id), SizesOf(data, id), call.chunkIdx, call.size);
      }
    }
  }

  lemma {:induction false} RunRefines(calls: seq<Call>)
    ensures Refines(HashesAfter(calls), DataAfter(calls))
  {
    if calls != [] {
      RunRefines(calls[..|calls| - 1]);
      StepRefines(HashesAfter(calls[..|calls| - 1]), DataAfter(calls[..|calls| - 1]), calls[|calls| - 1]);
    }
  }

  lemma PrintedGrows(keys: set<Int64>, k: Int64)
    requires k in keys
    ensures Itoa(k) in Printed(keys) && Printed(keys) - {Itoa(k)} == Printed(keys - {k})
    ensures |Printed(keys)| == |Printed(keys - {k})| + 1
  {
    var rest := keys - {k};
    assert Itoa(k) !in Printed(rest) by {
      if Itoa(k) in Printed(rest) {
        var j :| j in rest && Itoa(j) == Itoa(k);
        ItoaInjective(j, k);
      }
    }
    assert Printed(keys) == Printed(rest) + {Itoa(k)};
  }

  lemma ValueOfPrinted(h: Hash, sizes: Sizes, k: Int64)
    requires Represents(h, sizes) && k in sizes
    ensures Itoa(k) in h && Values(ReadSizes(h))[Itoa(k)] == sizes[k]
  {
    assert Itoa(k) in Printed(sizes.Keys);
    AtoiItoa(sizes[k]);
  }

  /** What is read under the printed keys adds up to the same, and no two keys share a field. */
  lemma {:induction false} SumOfPrinted(read: map<string, int>, sizes: Sizes, keys: set<Int64>)
    requires keys <= sizes.Keys && forall k :: k in keys ==> Itoa(k) in read && read[Itoa(k)] == sizes[k]
    ensures Printed(keys) <= read.Keys && |Printed(keys)| == |keys|
    ensures SumOver(read, Printed(keys)) == SumOver(sizes, keys)
  {
    if keys == {} {
      assert Printed(keys) == {};
    } else {
      var k :| k in keys;
      SumOfPrinted(read, sizes, keys - {k});
      PrintedGrows(keys, k);
      SumTakesAny(read, Printed(keys), Itoa(k));
      SumTakesAny(sizes, keys, k);
    }
  }

  lemma ListingOfPrinted(h: Hash, sizes: Sizes, fields: seq<string>, indices: seq<Int64>)
    requires Represents(h, sizes) && IsListing(fields, h.Keys) && ReadInOrder(ReadIndices(h), fields, indices)
    ensures IsListing(indices, sizes.Keys)
  {
    forall i | 0 <= i < |fields| ensures Itoa(indices[i]) == fields[i] && indices[i] in sizes {
      assert fields[i] in h.Keys;
      var k :| k in sizes && Itoa(k) == fields[i];
      AtoiItoa(k);
    }
    forall k | k in sizes ensures k in indices {
      assert Itoa(k) in Printed(sizes.Keys);
      var i :| 0 <= i < |fields| && fields[i] == Itoa(k);
      AtoiItoa(k);
      assert indices[i] == k;
    }
  }

  lemma PrintedReads(h: Hash, sizes: Sizes)
    requires Represents(h, sizes)
    ensures AllRead(ReadSizes(h)) && AllRead(ReadIndices(h))
  {
    forall f | f in h.Keys ensures Atoi(f).Ok? && Atoi(h[f]).Ok? {
      var k :| k in sizes && Itoa(k) == f;
      AtoiItoa(k);
      AtoiItoa(sizes[k]);
    }
  }

  /** What one hash that represents an integer map adds up to. */
  lemma PrintedAgrees(h: Hash, sizes: Sizes)
    requires Represents(h, sizes)
    ensures |h| == |sizes| && Sum(Values(ReadSizes(h))) == Sum(sizes)
  {
    var values := Values(ReadSizes(h));
    forall k | k in sizes ensures Itoa(k) in values && values[Itoa(k)] == sizes[k] { ValueOfPrinted(h, sizes, k); }
    SumOfPrinted(values, sizes, sizes.Keys);
    assert values.Keys == h.Keys == Printed(sizes.Keys);
    assert |h.Keys| == |sizes.Keys|;
  }

  /** Every read of the hash succeeds and says what the integer map says. */
  ghost predicate ReadsAs(h: Hash, sizes: Sizes) {
    && |h| == |sizes|
    && AllRead(ReadSizes(h)) && Sum(Values(ReadSizes(h))) == Sum(sizes)
    && AllRead(ReadIndices(h))
    && forall fields, indices ::
      IsListing(fields, h.Keys) && ReadInOrder(ReadIndices(h), fields, indices) ==> IsListing(indices, sizes.Keys)
  }

  lemma RefinedReads(hashes: map<string, Hash>, data: map<string, Sizes>, uploadId: string)
    requires Refines(hashes, data)
    ensures ReadsAs(HashOf(hashes, uploadId), SizesOf(data, uploadId))
  {
    var h, sizes := HashOf(hashes, uploadId), SizesOf(data, uploadId);
    PrintedReads(h, sizes);
    PrintedAgrees(h, sizes);
    forall fields, indices | IsListing(fields, h.Keys) && ReadInOrder(ReadIndices(h), fields, indices)
      ensures IsListing(indices, sizes.Keys)
    {
      ListingOfPrinted(h, sizes, fields, indices);
    }
  }

  /**
   * The Redis tracker refines the in-memory one: after any sequence of records, purges and expiries, with any answers,
   * every read of the hash succeeds and says what the integer map says.
   */
  lemma RedisRefinesMemory(calls: seq<Call>, uploadId: string)
    ensures ReadsAs(HashOf(HashesAfter(calls), uploadId), SizesOf(DataAfter(calls), uploadId))
  {
    RunRefines(calls);
    RefinedReads(HashesAfter(calls), DataAfter(calls), uploadId);
  }

  // ---- The tracker over Redis ----

  /**
   * `data` is the integer map an in-memory tracker would hold after the same calls. It stays represented as long as
   * only these methods write the hashes; what the reads do with other contents is stated as well.
   */
  class RedisTracker {
    var hashes: map<string, Hash>
    ghost var data: map<string, Sizes>

    ghost predicate Valid()
      reads this
    {
      Refines(hashes, data)
    }

    constructor ()
      ensures hashes == map[] && data == map[] && Valid()
    {
      hashes, data := map[], map[];
    }

    method RecordChunk(uploadId: string, chunkIdx: Int64, size: Int64, hset: Answer, expire: Answer) returns (ok: bool)
      modifies this
      ensures hashes == if hset == Refused then old(hashes) else Hashed(old(hashes), uploadId, chunkIdx, size)
      ensures data == if hset == Refused then old(data) else Recorded(old(data), uploadId, chunkIdx, size)
      ensures old(Valid()) ==> Valid()
      ensures ok <==> hset == Done && expire == Done
    {
      if Refines(hashes, data) { StepRefines(hashes, data, Put(uploadId, chunkIdx, size, hset)); }
      if hset != Refused {
        hashes := Hashed(hashes, uploadId, chunkIdx, size);
        data := Recorded(data, uploadId, chunkIdx, size);
      }
      if hset != Done {
        return false;
      }
      ok := expire == Done;
    }

    method ChunkCount(uploadId: string, reachable: bool) returns (r: Option<nat>)
      ensures r.Some? <==> reachable
      ensures r.Some? ==> r.value == |HashOf(hashes, uploadId)|
      ensures Valid() && r.Some? ==> r.value == |SizesOf(data, uploadId)|
    {
      if Valid() { RefinedReads(hashes, data, uploadId); }
      r := if reachable then Some(|HashOf(hashes, uploadId)|) else None;
    }

    method TotalSize(uploadId: string, reachable: bool) returns (r: Result<Int64, string>)
      ensures r.Ok? <==> reachable && AllRead(ReadSizes(HashOf(hashes, uploadId)))
      ensures r.Ok? ==> r.value == Wrap(Sum(Values(ReadSizes(HashOf(hashes, uploadId)))))
      ensures Valid() && reachable ==> r == Ok(Wrap(Sum(SizesOf(data, uploadId))))
    {
      if Valid() { RefinedReads(hashes, data, uploadId); }
      if !reachable {
        return Err("redis");
      }
      var read := ReadSizes(HashOf(hashes, uploadId));
      r := TotalOf(read);
    }

    method ListChunks(uploadId: string, reachable: bool) returns (r: Result<seq<Int64>, string>)
      ensures r.Ok? <==> reachable && AllRead(ReadIndices(HashOf(hashes, uploadId)))
      ensures r.Ok? ==> exists fields ::
        && IsListing(fields, HashOf(hashes, uploadId).Keys)
        && ReadInOrder(ReadIndices(HashOf(hashes, uploadId)), fields, r.value)
      ensures Valid() && reachable ==> r.Ok? && IsListing(r.value, SizesOf(data, uploadId).Keys)
    {
      if Valid() { RefinedReads(hashes, data, uploadId); }
      if !reachable {
        return Err("redis");
      }
      var read := ReadIndices(HashOf(hashes, uploadId));
      assert read.Keys == HashOf(hashes, uploadId).Keys;
      r := ListOf(read);
    }

    method Purge(uploadId: string, del: Answer) returns (ok: bool)
      modifies this
      ensures hashes == if del == Refused then old(hashes) else old(hashes) - {TrackerKey(uploadId)}
      ensures data == if del == Refused then old(data) else old(data) - {uploadId}
      ensures old(Valid()) ==> Valid()
      ensures ok <==> del == Done
    {
      if Refines(hashes, data) { StepRefines(hashes, data, Purged(uploadId, del)); }
      if del != Refused {
        hashes, data := hashes - {TrackerKey(uploadId)}, data - {uploadId};
      }
      ok := del == Done;
    }
  }
}

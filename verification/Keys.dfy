/** Object keys and identifiers of cmd/upload-service/main.go. */
module Keys {
  import opened Decimal

  predicate SafeChar(c: char) {
    'a' <= c <= 'z' || 'A' <= c <= 'Z' || '0' <= c <= '9' || c == '-' || c == '_'
  }

  predicate SafeId(s: string) {
    1 <= |s| <= 128 && forall i :: 0 <= i < |s| ==> SafeChar(s[i])
  }

  method IsSafeID(s: string) returns (safe: bool)
    ensures safe <==> SafeId(s)
  {
    if s == "" || |s| > 128 {
      return false;
    }
    for i := 0 to |s|
      invariant forall j :: 0 <= j < i ==> SafeChar(s[j])
    {
      if !SafeChar(s[i]) {
        return false;
      }
    }
    safe := true;
  }

  function ChunkKey(uploadId: string, idx: int): string {
    "uploads/" + uploadId + "/chunk_" + Itoa(idx)
  }

  function FinalKey(uploadId: string, ext: string): string {
    "uploads/" + uploadId + "/final" + ext
  }

  function TrackerKey(uploadId: string): string {
    "upload:" + uploadId + ":chunks"
  }

  lemma FirstSlash(a: string, x: string, b: string, y: string)
    requires SafeId(b) && a + "/" + x == b + "/" + y
    ensures |b| <= |a|
  {
    var t := b + "/" + y;
    assert forall j :: 0 <= j < |b| ==> t[j] == b[j];
    assert t[|a|] == (a + "/" + x)[|a|] == '/';
  }

  /** An id cannot reach past the slash that ends it. */
  lemma SplitAtSlash(a: string, x: string, b: string, y: string)
    requires SafeId(a) && SafeId(b) && a + "/" + x == b + "/" + y
    ensures a == b && x == y
  {
    var s, t := a + "/" + x, b + "/" + y;
    FirstSlash(a, x, b, y);
    FirstSlash(b, y, a, x);
    assert s[..|a|] == a && t[..|b|] == b;
    assert s[|a| + 1..] == x && t[|b| + 1..] == y;
  }

  function Tail(key: string): string
    requires |key| >= 8
  {
    key[8..]
  }

  lemma ChunkKeyParts(uploadId: string, idx: int)
    ensures Tail(ChunkKey(uploadId, idx)) == uploadId + "/" + ("chunk_" + Itoa(idx))
  {
    assert |"uploads/"| == 8;
    assert ChunkKey(uploadId, idx) == "uploads/" + (uploadId + "/" + ("chunk_" + Itoa(idx)));
  }

  lemma FinalKeyParts(uploadId: string, ext: string)
    ensures Tail(FinalKey(uploadId, ext)) == uploadId + "/" + ("final" + ext)
  {
    assert |"uploads/"| == 8;
    assert FinalKey(uploadId, ext) == "uploads/" + (uploadId + "/" + ("final" + ext));
  }

  /** Chunks never share an object: equal keys mean the same upload and the same index. */
  lemma ChunkKeysDiffer(id: string, idx: int, id': string, idx': int)
    requires SafeId(id) && SafeId(id') && ChunkKey(id, idx) == ChunkKey(id', idx')
    ensures id == id' && idx == idx'
  {
    ChunkKeyParts(id, idx);
    ChunkKeyParts(id', idx');
    SplitAtSlash(id, "chunk_" + Itoa(idx), id', "chunk_" + Itoa(idx'));
    assert ("chunk_" + Itoa(idx))[6..] == Itoa(idx) && ("chunk_" + Itoa(idx'))[6..] == Itoa(idx');
    ItoaInjective(idx, idx');
  }

  /** No chunk is ever taken for, or overwritten by, the assembled file of any upload. */
  lemma ChunkIsNeverFinal(id: string, idx: int, id': string, ext: string)
    requires SafeId(id) && SafeId(id')
    ensures ChunkKey(id, idx) != FinalKey(id', ext)
  {
    assert ("chunk_" + Itoa(idx))[0] == 'c' && ("final" + ext)[0] == 'f';
    ChunkKeyParts(id, idx);
    FinalKeyParts(id', ext);
    if ChunkKey(id, idx) == FinalKey(id', ext) { SplitAtSlash(id, "chunk_" + Itoa(idx), id', "final" + ext); }
  }

  lemma FinalKeysDiffer(id: string, ext: string, id': string, ext': string)
    requires SafeId(id) && SafeId(id') && FinalKey(id, ext) == FinalKey(id', ext')
    ensures id == id' && ext == ext'
  {
    FinalKeyParts(id, ext);
    FinalKeyParts(id', ext');
    SplitAtSlash(id, "final" + ext, id', "final" + ext');
    assert ("final" + ext)[5..] == ext && ("final" + ext')[5..] == ext';
  }

  lemma TrackerKeysDiffer(id: string, id': string)
    requires TrackerKey(id) == TrackerKey(id')
    ensures id == id'
  {
    assert TrackerKey(id)[7..|TrackerKey(id)| - 7] == id;
    assert TrackerKey(id')[7..|TrackerKey(id')| - 7] == id';
  }
}

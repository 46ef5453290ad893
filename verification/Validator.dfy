/** services/video-analyzer/analyzer/validator.py: transcript validation and fallback word timings. */
module Validator {
  import opened Rounding
  import opened Words
  import opened Outcomes
  import Text

  const DURATION_TOLERANCE_MS := 250
  const MAX_TEXT_LEN := 2000

  // ---- Fallback word timings ----

  function WeightOf(token: string): nat {
    Max(1, |token|)
  }

  function Weight(tokens: seq<string>, count: nat): nat
    requires count <= |tokens|
  {
    if count == 0 then 0 else Weight(tokens, count - 1) + WeightOf(tokens[count - 1])
  }

  function SpanOf(start: int, end: int): int {
    Max(1, end - start)
  }

  /** floor(span * weight / total) */
  function Quotient(span: int, weight: nat, total: nat): nat
    requires span > 0 && total > 0
  {
    assert span * weight >= 0;
    span * weight / total
  }

  lemma QuotientBounds(span: int, weight: nat, total: nat)
    requires span > 0 && total > 0
    ensures total * Quotient(span, weight, total) <= span * weight < total * Quotient(span, weight, total) + total
  {
  }

  lemma {:induction false} WeightPositive(tokens: seq<string>, count: nat)
    requires count <= |tokens|
    ensures Weight(tokens, count) >= count
  {
    if count > 0 { WeightPositive(tokens, count - 1); }
  }

  /** The floored share of every word. */
  function Shares(tokens: seq<string>, start: int, end: int): (shares: seq<nat>)
    ensures |shares| == |tokens|
  {
    WeightPositive(tokens, |tokens|);
    seq(|tokens|, i requires 0 <= i < |tokens| =>
      Quotient(SpanOf(start, end), WeightOf(tokens[i]), Weight(tokens, |tokens|)))
  }

  /** Where the i-th word ends when it starts at `cursor`. */
  function CutEnd(shares: seq<nat>, end: int, i: nat, cursor: int): int
    requires i < |shares|
  {
    if i == |shares| - 1 then end else Min(end, Max(cursor + 1, cursor + shares[i]))
  }

  function WordsFrom(tokens: seq<string>, shares: seq<nat>, end: int, i: nat, cursor: int): seq<Word>
    requires i <= |tokens| == |shares|
    decreases |tokens| - i
  {
    if i == |tokens| then []
    else
      var cut := CutEnd(shares, end, i, cursor);
      [Word(tokens[i], cursor, cut)] + WordsFrom(tokens, shares, end, i + 1, cut)
  }

  function Synthesized(text: string, start: int, end: int): seq<Word> {
    WordsFrom(Text.Split(text), Shares(Text.Split(text), start, end), end, 0, start)
  }

  method SynthesizeWords(text: string, start: int, end: int) returns (result: seq<Word>)
    ensures result == Synthesized(text, start, end)
  {
    var words := Text.Split(text);
    if words == [] {
      return [];
    }
    var span := Max(1, end - start);
    var totalWeight := 0;
    for i := 0 to |words|
      invariant totalWeight == Weight(words, i)
    {
      totalWeight := totalWeight + Max(1, |words[i]|);
    }
    WeightPositive(words, |words|);
    ghost var shares := Shares(words, start, end);
    var cursor := start;
    result := [];
    for i := 0 to |words|
      invariant result + WordsFrom(words, shares, end, i, cursor) == WordsFrom(words, shares, end, 0, start)
    {
      var wordEnd;
      if i == |words| - 1 {
        wordEnd := end;
      } else {
        wordEnd := cursor + Quotient(span, Max(1, |words[i]|), totalWeight);
        if wordEnd <= cursor {
          wordEnd := cursor + 1;
        }
        if wordEnd > end {
          wordEnd := end;
        }
      }
      assert wordEnd == CutEnd(shares, end, i, cursor);
      result := result + [Word(words[i], cursor, wordEnd)];
      cursor := wordEnd;
    }
  }

  lemma TilesPrepend(word: Word, rest: seq<Word>, end: int)
    requires word.startMs <= word.endMs
    requires if rest == [] then word.endMs == end else Tiles(rest, word.endMs, end)
    ensures Tiles([word] + rest, word.startMs, end)
  {
    var words := [word] + rest;
    forall k | 0 <= k < |words|
      ensures words[k].startMs == EndBefore(words, word.startMs, k) <= words[k].endMs
    {
      if k > 0 { assert EndBefore(rest, word.endMs, k - 1) == EndBefore(words, word.startMs, k); }
    }
  }

  /** From any cursor inside the segment, the remaining words run without gaps to the segment's end. */
  lemma {:induction false} WordsFromTile(tokens: seq<string>, shares: seq<nat>, end: int, i: nat, cursor: int)
    requires i < |tokens| == |shares| && cursor <= end
    ensures Tiles(WordsFrom(tokens, shares, end, i, cursor), cursor, end)
    decreases |tokens| - i
  {
    var cut := CutEnd(shares, end, i, cursor);
    var rest := WordsFrom(tokens, shares, end, i + 1, cut);
    if i + 1 < |tokens| { WordsFromTile(tokens, shares, end, i + 1, cut); }
    TilesPrepend(Word(tokens[i], cursor, cut), rest, end);
  }

  lemma TextsPrepend(word: Word, rest: seq<Word>)
    ensures Texts([word] + rest) == [word.text] + Texts(rest)
  {
  }

  lemma {:induction false} WordsFromTexts(tokens: seq<string>, shares: seq<nat>, end: int, i: nat, cursor: int)
    requires i <= |tokens| == |shares|
    ensures Texts(WordsFrom(tokens, shares, end, i, cursor)) == tokens[i..]
    decreases |tokens| - i
  {
    if i < |tokens| {
      var cut := CutEnd(shares, end, i, cursor);
      WordsFromTexts(tokens, shares, end, i + 1, cut);
      TextsPrepend(Word(tokens[i], cursor, cut), WordsFrom(tokens, shares, end, i + 1, cut));
    }
  }

  lemma SynthesizedTiles(text: string, start: int, end: int)
    requires start <= end && Text.Split(text) != []
    ensures Tiles(Synthesized(text, start, end), start, end)
    ensures Texts(Synthesized(text, start, end)) == Text.Split(text)
  {
    var tokens := Text.Split(text);
    WordsFromTile(tokens, Shares(tokens, start, end), end, 0, start);
    WordsFromTexts(tokens, Shares(tokens, start, end), end, 0, start);
    assert tokens[0..] == tokens;
  }

  // ---- With room for every character, shares are exact ----

  function Sum(shares: seq<nat>, count: nat): nat
    requires count <= |shares|
  {
    if count == 0 then 0 else Sum(shares, count - 1) + shares[count - 1]
  }

  lemma {:induction false} SumGrows(shares: seq<nat>, lo: nat, hi: nat)
    requires lo <= hi <= |shares|
    ensures Sum(shares, lo) <= Sum(shares, hi)
    decreases hi
  {
    if lo < hi { SumGrows(shares, lo, hi - 1); }
  }

  lemma {:induction false} WeightGrows(tokens: seq<string>, lo: nat, hi: nat)
    requires lo <= hi <= |tokens|
    ensures Weight(tokens, lo) <= Weight(tokens, hi)
    decreases hi
  {
    if lo < hi { WeightGrows(tokens, lo, hi - 1); }
  }

  /** Word k when no share is bumped or clamped. */
  function ExactWord(tokens: seq<string>, shares: seq<nat>, start: int, end: int, k: nat): Word
    requires k < |tokens| == |shares|
  {
    Word(tokens[k], start + Sum(shares, k), if k == |tokens| - 1 then end else start + Sum(shares, k + 1))
  }

  lemma {:induction false} WordsFromExact(tokens: seq<string>, shares: seq<nat>, start: int, end: int, i: nat, k: nat)
    requires i <= k < |tokens| == |shares|
    requires forall j :: 0 <= j < |shares| - 1 ==> shares[j] >= 1
    requires start + Sum(shares, |shares| - 1) <= end
    ensures |WordsFrom(tokens, shares, end, i, start + Sum(shares, i))| == |tokens| - i
    ensures WordsFrom(tokens, shares, end, i, start + Sum(shares, i))[k - i] == ExactWord(tokens, shares, start, end, k)
    decreases |tokens| - i
  {
    if i + 1 < |tokens| {
      SumGrows(shares, i + 1, |shares| - 1);
      WordsFromExact(tokens, shares, start, end, i + 1, if k == i then i + 1 else k);
    }
  }

  lemma SumStep(total: nat, span: nat, before: nat, w: nat, count: nat, sum: nat, share: nat)
    requires total > 0 && total * share <= span * w < total * share + total
    requires total * sum <= span * before
    requires if count == 0 then sum == 0 && before == 0 else span * before < total * sum + total * count
    ensures total * (sum + share) <= span * (before + w) < total * (sum + share) + total * (count + 1)
  {
    assert span * (before + w) == span * before + span * w;
    assert total * (sum + share) == total * sum + total * share;
    assert total * (count + 1) == total * count + total;
  }

  /** The floored shares of the first `count` words lag at most `count` roundings behind their exact sum. */
  lemma {:induction false} SumNearIdeal(tokens: seq<string>, start: int, end: int, count: nat)
    requires count <= |tokens| && tokens != []
    ensures
      var total, ideal := Weight(tokens, |tokens|), SpanOf(start, end) * Weight(tokens, count);
      var sum := Sum(Shares(tokens, start, end), count);
      total * sum <= ideal && (if count == 0 then sum == 0 else ideal < total * sum + total * count)
  {
    WeightPositive(tokens, |tokens|);
    if count > 0 {
      SumNearIdeal(tokens, start, end, count - 1);
      var total, span, w := Weight(tokens, |tokens|), SpanOf(start, end), WeightOf(tokens[count - 1]);
      QuotientBounds(span, w, total);
      SumStep(total, span, Weight(tokens, count - 1), w, count - 1,
              Sum(Shares(tokens, start, end), count - 1), Quotient(span, w, total));
    }
  }

  lemma ShareAtLeastOne(span: nat, w: nat, total: nat)
    requires 0 < total <= span && w >= 1
    ensures Quotient(span, w, total) >= 1
  {
    QuotientBounds(span, w, total);
    MulAtLeast(span, w);
  }

  lemma ProductAtMost(span: int, weight: nat, total: nat, x: int)
    requires weight <= total && 0 < total <= span && total * x <= span * weight
    ensures x <= span
  {
    assert span * total - span * weight == span * (total - weight) >= 0;
    assert total * x - total * span == total * (x - span);
    if x > span {
      MulAtLeast(total, x - span);
      assert false;
    }
  }

  lemma SumFits(tokens: seq<string>, start: int, end: int)
    requires tokens != [] && end - start >= Weight(tokens, |tokens|) > 0
    ensures Sum(Shares(tokens, start, end), |tokens| - 1) <= end - start
  {
    SumNearIdeal(tokens, start, end, |tokens| - 1);
    WeightGrows(tokens, |tokens| - 1, |tokens|);
    ProductAtMost(end - start, Weight(tokens, |tokens| - 1), Weight(tokens, |tokens|),
      Sum(Shares(tokens, start, end), |tokens| - 1));
  }

  lemma SharesFit(tokens: seq<string>, start: int, end: int)
    requires tokens != [] && end - start >= Weight(tokens, |tokens|)
    ensures forall k :: 0 <= k < |tokens| ==> Shares(tokens, start, end)[k] >= 1
    ensures Sum(Shares(tokens, start, end), |tokens| - 1) <= end - start
  {
    WeightPositive(tokens, |tokens|);
    forall k | 0 <= k < |tokens|
      ensures Shares(tokens, start, end)[k] >= 1
    {
      ShareAtLeastOne(SpanOf(start, end), WeightOf(tokens[k]), Weight(tokens, |tokens|));
    }
    SumFits(tokens, start, end);
  }

  lemma SynthesizedExact(text: string, start: int, end: int, k: nat)
    requires k < |Text.Split(text)| && end - start >= Weight(Text.Split(text), |Text.Split(text)|)
    ensures |Synthesized(text, start, end)| == |Text.Split(text)|
    ensures Synthesized(text, start, end)[k] ==
      ExactWord(Text.Split(text), Shares(Text.Split(text), start, end), start, end, k)
  {
    SharesFit(Text.Split(text), start, end);
    WordsFromExact(Text.Split(text), Shares(Text.Split(text), start, end), start, end, 0, k);
  }

  lemma {:induction false} WeightCountsCharacters(tokens: seq<string>, count: nat)
    requires count <= |tokens| && forall i :: 0 <= i < |tokens| ==> tokens[i] != ""
    ensures Weight(tokens, count) == |Text.Concat(tokens[..count])|
  {
    if count > 0 {
      WeightCountsCharacters(tokens, count - 1);
      assert tokens[..count] == tokens[..count - 1] + [tokens[count - 1]];
      Text.ConcatAppend(tokens[..count - 1], [tokens[count - 1]]);
      assert Text.Concat([tokens[count - 1]]) == tokens[count - 1] + Text.Concat([]);
    }
  }

  /** A token weighs its characters, and all tokens together weigh the text's characters other than whitespace. */
  lemma TextWeighsCharacters(text: string)
    ensures Weight(Text.Split(text), |Text.Split(text)|) == |Text.NonSpace(text)|
    ensures forall k :: 0 <= k < |Text.Split(text)| ==> WeightOf(Text.Split(text)[k]) == |Text.Split(text)[k]| > 0
  {
    var tokens := Text.Split(text);
    Text.SplitTokens(text);
    WeightCountsCharacters(tokens, |tokens|);
    assert tokens[..|tokens|] == tokens;
    forall k | 0 <= k < |tokens| ensures |tokens[k]| > 0 { assert tokens[k] != ""; }
  }

  /** `share` is floor(span * size / total). */
  predicate IsFloorShare(share: int, span: int, size: nat, total: nat) {
    total * share <= span * size < total * share + total
  }

  lemma {:induction false} WordsFromCut(tokens: seq<string>, shares: seq<nat>, end: int, i: nat, cursor: int, k: nat)
    requires i <= k < |tokens| == |shares|
    ensures
      var words := WordsFrom(tokens, shares, end, i, cursor);
      && |words| == |tokens| - i
      && words[k - i] == Word(tokens[k], EndBefore(words, cursor, k - i),
                              CutEnd(shares, end, k, EndBefore(words, cursor, k - i)))
    decreases |tokens| - i
  {
    var cut := CutEnd(shares, end, i, cursor);
    var words, rest := WordsFrom(tokens, shares, end, i, cursor), WordsFrom(tokens, shares, end, i + 1, cut);
    if i < k {
      WordsFromCut(tokens, shares, end, i + 1, cut, k);
      assert EndBefore(words, cursor, k - i) == EndBefore(rest, cut, k - i - 1);
    } else if i + 1 < |tokens| {
      WordsFromCut(tokens, shares, end, i + 1, cut, i + 1);
    }
  }

  /** A share is the floor of span * w / W. */
  lemma ShareIsFloor(tokens: seq<string>, start: int, end: int, k: nat)
    requires k < |tokens|
    ensures
      var share, ideal := Shares(tokens, start, end)[k], SpanOf(start, end) * WeightOf(tokens[k]);
      var total := Weight(tokens, |tokens|);
      total * share <= ideal < total * share + total
  {
    WeightPositive(tokens, |tokens|);
    QuotientBounds(SpanOf(start, end), WeightOf(tokens[k]), Weight(tokens, |tokens|));
  }

  /**
   * Every word of every segment: it starts where the one before ended, and ends its share later, at least 1 ms later
   * but never past the segment; the last one ends with the segment. The share is the floor of the segment's length (at
   * least 1 ms) times the word's part of the text's characters.
   */
  lemma SynthesizedCut(text: string, start: int, end: int, k: nat) returns (share: nat)
    requires k < |Text.Split(text)|
    ensures IsFloorShare(share, Max(1, end - start), |Text.Split(text)[k]|, |Text.NonSpace(text)|)
    ensures
      var words, tokens := Synthesized(text, start, end), Text.Split(text);
      && |words| == |tokens|
      && words[k].text == tokens[k] && words[k].startMs == EndBefore(words, start, k)
      && words[k].endMs == if k == |tokens| - 1 then end else Min(end, words[k].startMs + Max(1, share))
  {
    var tokens := Text.Split(text);
    TextWeighsCharacters(text);
    share := Shares(tokens, start, end)[k];
    ShareIsFloor(tokens, start, end, k);
    WordsFromCut(tokens, Shares(tokens, start, end), end, 0, start, k);
  }

  /**
   * With at least one millisecond per character no word is bumped or clamped: every word but the last gets exactly
   * floor(span * w / W), which is at least 1 ms.
   */
  lemma SynthesizedShares(text: string, start: int, end: int, k: nat)
    requires k + 1 < |Text.Split(text)| && end - start >= |Text.NonSpace(text)|
    ensures |Synthesized(text, start, end)| == |Text.Split(text)|
    ensures
      var word := Synthesized(text, start, end)[k];
      var length := word.endMs - word.startMs;
      length >= 1 && IsFloorShare(length, end - start, |Text.Split(text)[k]|, |Text.NonSpace(text)|)
  {
    TextWeighsCharacters(text);
    WeightPositive(Text.Split(text), |Text.Split(text)|);
    SharesFit(Text.Split(text), start, end);
    SynthesizedExact(text, start, end, k);
    ShareIsFloor(Text.Split(text), start, end, k);
  }

  /** The last word's length is its exact share plus the (fewer than n - 1) milliseconds the others lost to rounding. */
  predicate LastShareWithin(tokens: seq<string>, span: int, length: int)
    requires tokens != []
  {
    var n, total := |tokens|, Weight(tokens, |tokens|);
    var ideal := span * WeightOf(tokens[n - 1]);
    if n == 1 then length == span else ideal <= total * length < ideal + total * (n - 1)
  }

  /** What is left for the last token when those before it were given `used`. */
  lemma RestOfSpan(span: nat, total: nat, before: nat, last: nat, used: int, slack: int)
    requires total == before + last && total * used <= span * before < total * used + slack
    ensures span * last <= total * (span - used) < span * last + slack
  {
    assert span * total == span * before + span * last;
    assert total * (span - used) == span * total - total * used;
  }

  lemma LastShare(tokens: seq<string>, start: int, end: int)
    requires tokens != [] && end - start >= Weight(tokens, |tokens|)
    ensures LastShareWithin(tokens, end - start, end - start - Sum(Shares(tokens, start, end), |tokens| - 1))
  {
    var n, used := |tokens|, Sum(Shares(tokens, start, end), |tokens| - 1);
    var span, total, before := SpanOf(start, end), Weight(tokens, |tokens|), Weight(tokens, |tokens| - 1);
    assert span == end - start && (n == 1 ==> used == 0) by { WeightPositive(tokens, n); }
    assert total * used <= span * before && (n > 1 ==> span * before < total * used + total * (n - 1)) by {
      SumNearIdeal(tokens, start, end, n - 1);
    }
    if n > 1 { RestOfSpan(span, total, before, WeightOf(tokens[n - 1]), used, total * (n - 1)); }
  }

  /** The last of n words gets its exact share plus less than n - 1 ms. */
  lemma SynthesizedLastShare(text: string, start: int, end: int)
    requires Text.Split(text) != [] && end - start >= |Text.NonSpace(text)|
    ensures |Synthesized(text, start, end)| == |Text.Split(text)|
    ensures
      var n, total := |Text.Split(text)|, |Text.NonSpace(text)|;
      var last, ideal := Synthesized(text, start, end)[n - 1], (end - start) * |Text.Split(text)[n - 1]|;
      var length := last.endMs - last.startMs;
      if n == 1 then length == end - start else ideal <= total * length < ideal + total * (n - 1)
  {
    TextWeighsCharacters(text);
    LastShare(Text.Split(text), start, end);
    SynthesizedExact(text, start, end, |Text.Split(text)| - 1);
  }

  // ---- Validation ----

  datatype RawSegment = RawSegment(segmentId: int, startMs: int, endMs: int, text: string, confidence: real)

  datatype Segment = Segment(segmentId: int, startMs: int, endMs: int, text: string, confidence: real, words: seq<Word>)

  datatype Reason = BadId | BadStart | BadEnd | NotBeforeEnd | PastDuration | OutOfOrder | EmptyText | TextTooLong

  datatype Rejection = SchemaViolation | Rejected(index: int, reason: Reason)

  predicate MeetsSchema(seg: RawSegment) {
    && seg.segmentId >= 1 && seg.startMs >= 0 && seg.endMs >= 0
    && 1 <= |seg.text| <= MAX_TEXT_LEN
    && 0.0 <= seg.confidence <= 1.0
  }

  predicate SchemaValid(segments: seq<RawSegment>) {
    segments != [] && forall i :: 0 <= i < |segments| ==> MeetsSchema(segments[i])
  }

  function UpperBound(durationMs: Option<int>): Option<int> {
    if durationMs.Some? && durationMs.value > 0 then Some(durationMs.value + DURATION_TOLERANCE_MS) else None
  }

  /** The checks one segment has to pass whatever comes before it. */
  predicate LocallyValid(seg: RawSegment, durationMs: Option<int>, sanitize: string -> string) {
    && seg.segmentId >= 1 && 0 <= seg.startMs < seg.endMs
    && (durationMs.Some? && durationMs.value > 0 ==> seg.endMs <= durationMs.value + 250)
    && 1 <= |sanitize(seg.text)| <= 2000
  }

  /** The first failing check of one segment, in the order the source makes them. */
  function Verdict(seg: RawSegment, prevEnd: int, durationMs: Option<int>, sanitize: string -> string): Option<Reason> {
    if seg.segmentId < 1 then Some(BadId)
    else if seg.startMs < 0 then Some(BadStart)
    else if seg.endMs < 0 then Some(BadEnd)
    else if seg.startMs >= seg.endMs then Some(NotBeforeEnd)
    else if UpperBound(durationMs).Some? && seg.endMs > UpperBound(durationMs).value then Some(PastDuration)
    else if seg.startMs < prevEnd then Some(OutOfOrder)
    else if sanitize(seg.text) == "" then Some(EmptyText)
    else if |sanitize(seg.text)| > MAX_TEXT_LEN then Some(TextTooLong)
    else None
  }

  function PrevEnd(segments: seq<RawSegment>, i: nat): int
    requires i <= |segments|
  {
    if i == 0 then -1 else segments[i - 1].endMs
  }

  function VerdictAt(segments: seq<RawSegment>, i: nat, durationMs: Option<int>,
          sanitize: string -> string): Option<Reason>
    requires i < |segments|
  {
    Verdict(segments[i], PrevEnd(segments, i), durationMs, sanitize)
  }

  function Cleaned(seg: RawSegment, sanitize: string -> string): Segment {
    Segment(seg.segmentId, seg.startMs, seg.endMs, sanitize(seg.text), seg.confidence,
            Synthesized(sanitize(seg.text), seg.startMs, seg.endMs))
  }

  /** The first `count` segments pass. */
  predicate PassUpTo(segments: seq<RawSegment>, count: nat, durationMs: Option<int>, sanitize: string -> string)
    requires count <= |segments|
  {
    forall i :: 0 <= i < count ==> VerdictAt(segments, i, durationMs, sanitize) == None
  }

  predicate Accepted(segments: seq<RawSegment>, durationMs: Option<int>, sanitize: string -> string) {
    SchemaValid(segments) && PassUpTo(segments, |segments|, durationMs, sanitize)
  }

  function CleanedAll(segments: seq<RawSegment>, sanitize: string -> string): seq<Segment> {
    seq(|segments|, i requires 0 <= i < |segments| => Cleaned(segments[i], sanitize))
  }

  /**
   * Acceptance returns every segment cleaned; a rejection names the first failing segment and its first failing
   * check.
   */
  method ValidateTranscript(segments: seq<RawSegment>, durationMs: Option<int>, sanitize: string -> string)
    returns (r: Result<seq<Segment>, Rejection>)
    ensures r.Ok? <==> Accepted(segments, durationMs, sanitize)
    ensures r.Ok? ==> r.value == CleanedAll(segments, sanitize)
    ensures r == Err(SchemaViolation) <==> !SchemaValid(segments)
    ensures r.Err? && r.error.Rejected? ==>
      && 0 <= r.error.index < |segments|
      && PassUpTo(segments, r.error.index, durationMs, sanitize)
      && VerdictAt(segments, r.error.index, durationMs, sanitize) == Some(r.error.reason)
  {
    if !SchemaValid(segments) {
      return Err(SchemaViolation);
    }
    var cleaned: seq<Segment> := [];
    var prevEndMs := -1;
    for i := 0 to |segments|
      invariant prevEndMs == PrevEnd(segments, i)
      invariant PassUpTo(segments, i, durationMs, sanitize)
      invariant |cleaned| == i && forall k :: 0 <= k < i ==> cleaned[k] == Cleaned(segments[k], sanitize)
    {
      var seg := segments[i];
      var verdict := Verdict(seg, prevEndMs, durationMs, sanitize);
      assert verdict == VerdictAt(segments, i, durationMs, sanitize);
      if verdict.Some? {
        return Err(Rejected(i, verdict.value));
      }
      var sanitized := sanitize(seg.text);
      var words := SynthesizeWords(sanitized, seg.startMs, seg.endMs);
      cleaned := cleaned + [Segment(seg.segmentId, seg.startMs, seg.endMs, sanitized, seg.confidence, words)];
      prevEndMs := seg.endMs;
    }
    return Ok(cleaned);
  }

  /**
   * What an accepted segment becomes: the same segment with its text sanitized, and with words that are the tokens of
   * that text and run without gaps from its start to its end.
   */
  lemma CleanedKeeps(segments: seq<RawSegment>, durationMs: Option<int>, sanitize: string -> string, i: nat)
    requires Accepted(segments, durationMs, sanitize) && i < |segments|
    ensures |CleanedAll(segments, sanitize)| == |segments|
    ensures
      var seg, out := segments[i], CleanedAll(segments, sanitize)[i];
      && out.segmentId == seg.segmentId && out.startMs == seg.startMs && out.endMs == seg.endMs
      && out.confidence == seg.confidence && out.text == sanitize(seg.text)
      && Texts(out.words) == Text.Split(out.text)
      && (out.words != [] ==> Tiles(out.words, seg.startMs, seg.endMs))
  {
    var seg := segments[i];
    assert VerdictAt(segments, i, durationMs, sanitize) == None;
    if Text.Split(sanitize(seg.text)) != [] {
      SynthesizedTiles(sanitize(seg.text), seg.startMs, seg.endMs);
    }
  }

  /** Acceptance is a check of each segment by itself and of each adjacent pair, nothing more. */
  lemma AcceptedExactly(segments: seq<RawSegment>, durationMs: Option<int>, sanitize: string -> string)
    requires SchemaValid(segments)
    ensures Accepted(segments, durationMs, sanitize) <==>
      && (forall i :: 0 <= i < |segments| ==> LocallyValid(segments[i], durationMs, sanitize))
      && (forall i :: 1 <= i < |segments| ==> PrevEnd(segments, i) <= segments[i].startMs)
  {
    if Accepted(segments, durationMs, sanitize) {
      forall i | 0 <= i < |segments|
        ensures LocallyValid(segments[i], durationMs, sanitize) && PrevEnd(segments, i) <= segments[i].startMs
      {
        assert VerdictAt(segments, i, durationMs, sanitize) == None;
      }
    }
  }

  /** An absent duration, or one that is not positive, limits nothing: a segment of any length is accepted. */
  lemma NoDurationNoLimit(durationMs: Option<int>, segments: seq<RawSegment>, sanitize: string -> string, end: int)
    requires durationMs.None? || durationMs.value <= 0
    ensures Accepted(segments, durationMs, sanitize) <==> Accepted(segments, None, sanitize)
    ensures end > 0 && sanitize("x") == "x" ==> Accepted([RawSegment(1, 0, end, "x", 1.0)], durationMs, sanitize)
  {
    if SchemaValid(segments) {
      AcceptedExactly(segments, durationMs, sanitize);
      AcceptedExactly(segments, None, sanitize);
    }
    if end > 0 && sanitize("x") == "x" {
      var one := [RawSegment(1, 0, end, "x", 1.0)];
      assert LocallyValid(one[0], durationMs, sanitize);
      AcceptedExactly(one, durationMs, sanitize);
    }
  }

  /** The condition each reason names. */
  predicate Breaks(reason: Reason, seg: RawSegment, prevEnd: int, durationMs: Option<int>, sanitize: string -> string) {
    match reason
    case BadId => seg.segmentId < 1
    case BadStart => seg.startMs < 0
    case BadEnd => seg.endMs < 0
    case NotBeforeEnd => seg.startMs >= seg.endMs
    case PastDuration => durationMs.Some? && durationMs.value > 0 && seg.endMs > durationMs.value + 250
    case OutOfOrder => seg.startMs < prevEnd
    case EmptyText => sanitize(seg.text) == ""
    case TextTooLong => |sanitize(seg.text)| > 2000
  }

  /** The place of a reason in the order of the checks. */
  function Place(reason: Reason): nat {
    match reason
    case BadId => 0
    case BadStart => 1
    case BadEnd => 2
    case NotBeforeEnd => 3
    case PastDuration => 4
    case OutOfOrder => 5
    case EmptyText => 6
    case TextTooLong => 7
  }

  /** Nothing is reported exactly when no condition is broken, and a reason exactly when it is the first broken one. */
  lemma VerdictIsFirstBroken(seg: RawSegment, prevEnd: int, durationMs: Option<int>, sanitize: string -> string,
          reason: Reason)
    ensures
      var verdict := Verdict(seg, prevEnd, durationMs, sanitize);
      && (verdict == None <==> forall r :: !Breaks(r, seg, prevEnd, durationMs, sanitize))
      && (verdict == Some(reason) <==>
            && Breaks(reason, seg, prevEnd, durationMs, sanitize)
            && forall r :: Breaks(r, seg, prevEnd, durationMs, sanitize) ==> Place(reason) <= Place(r))
  {
    var verdict := Verdict(seg, prevEnd, durationMs, sanitize);
    if verdict.Some? { assert Breaks(verdict.value, seg, prevEnd, durationMs, sanitize); }
  }

  /** A sanitizer that only removes text can never make a schema-valid text too long. */
  lemma RemovingSanitizerNeverTooLong(seg: RawSegment, prevEnd: int, durationMs: Option<int>,
          sanitize: string -> string)
    requires MeetsSchema(seg) && |sanitize(seg.text)| <= |seg.text|
    ensures
      var verdict := Verdict(seg, prevEnd, durationMs, sanitize);
      verdict !in {Some(BadId), Some(BadStart), Some(BadEnd), Some(TextTooLong)}
  {
  }

  /**
   * With a sanitizer that only removes text, a schema-valid list is accepted exactly when each segment starts before it
   * ends, within the tolerated duration, with some text left, and not before the segment before it ends.
   */
  lemma AcceptedWhenOnlyRemoving(segments: seq<RawSegment>, durationMs: Option<int>, sanitize: string -> string)
    requires SchemaValid(segments)
    requires forall i :: 0 <= i < |segments| ==> |sanitize(segments[i].text)| <= |segments[i].text|
    ensures Accepted(segments, durationMs, sanitize) <==>
      forall i :: 0 <= i < |segments| ==>
        && segments[i].startMs < segments[i].endMs && sanitize(segments[i].text) != ""
        && (durationMs.Some? && durationMs.value > 0 ==> segments[i].endMs <= durationMs.value + 250)
        && PrevEnd(segments, i) <= segments[i].startMs
  {
    forall i | 0 <= i < |segments|
      ensures
        var verdict := VerdictAt(segments, i, durationMs, sanitize);
        verdict !in {Some(BadId), Some(BadStart), Some(BadEnd), Some(TextTooLong)}
    {
      RemovingSanitizerNeverTooLong(segments[i], PrevEnd(segments, i), durationMs, sanitize);
    }
    AcceptedExactly(segments, durationMs, sanitize);
  }

  // ---- One global timeline ----

  function Timeline(segments: seq<Segment>): seq<Word> {
    if segments == [] then [] else segments[0].words + Timeline(segments[1..])
  }

  lemma {:induction false} EarlierEndsFirst(segments: seq<RawSegment>, durationMs: Option<int>,
          sanitize: string -> string, i: nat, j: nat)
    requires Accepted(segments, durationMs, sanitize) && i < j < |segments|
    ensures segments[i].endMs <= segments[j].startMs
    decreases j
  {
    assert VerdictAt(segments, j, durationMs, sanitize) == None;
    if i + 1 < j {
      EarlierEndsFirst(segments, durationMs, sanitize, i, j - 1);
      assert VerdictAt(segments, j - 1, durationMs, sanitize) == None;
    }
  }

  lemma OrderedAppend(first: seq<Word>, second: seq<Word>, from: int, mid: int)
    requires Ordered(first, from) && Ordered(second, mid) && from <= mid
    requires first != [] ==> first[|first| - 1].endMs <= mid
    ensures Ordered(first + second, from)
  {
    var both := first + second;
    forall i | 0 <= i < |both|
      ensures EndBefore(both, from, i) <= both[i].startMs <= both[i].endMs
    {
      if i < |first| {
        assert EndBefore(both, from, i) == EndBefore(first, from, i);
      } else {
        assert both[i] == second[i - |first|];
        assert EndBefore(second, mid, i - |first|) <= second[i - |first|].startMs;
      }
    }
  }

  lemma TilesEnds(words: seq<Word>, from: int, end: int, k: nat)
    requires Tiles(words, from, end) && k < |words|
    ensures from <= words[k].startMs && words[k].endMs <= end
  {
    assert Ordered(words, from);
    OrderedEnds(words, from, k, |words| - 1);
  }

  /** From the i-th segment on, the words of all segments form one ordered timeline that ends by `high`. */
  lemma {:induction false} TimelineFrom(segments: seq<RawSegment>, durationMs: Option<int>, sanitize: string -> string,
          i: nat, high: int)
    requires Accepted(segments, durationMs, sanitize) && i <= |segments|
    requires forall k :: 0 <= k < |segments| ==> segments[k].endMs <= high
    ensures
      var words := Timeline(CleanedAll(segments, sanitize)[i..]);
      && Ordered(words, Max(0, PrevEnd(segments, i)))
      && forall k :: 0 <= k < |words| ==> words[k].endMs <= high
    decreases |segments| - i
  {
    var all := CleanedAll(segments, sanitize);
    if i < |segments| {
      assert VerdictAt(segments, i, durationMs, sanitize) == None;
      var seg := segments[i];
      var here, rest := all[i].words, Timeline(all[i + 1..]);
      assert all[i..][0] == all[i] && all[i..][1..] == all[i + 1..];
      TimelineFrom(segments, durationMs, sanitize, i + 1, high);
      if here != [] {
        SynthesizedTiles(sanitize(seg.text), seg.startMs, seg.endMs);
        forall k | 0 <= k < |here|
          ensures EndBefore(here, Max(0, PrevEnd(segments, i)), k) <= here[k].startMs <= here[k].endMs
          ensures here[k].endMs <= high
        {
          assert here[k].startMs == EndBefore(here, seg.startMs, k);
          TilesEnds(here, seg.startMs, seg.endMs, k);
        }
      }
      OrderedAppend(here, rest, Max(0, PrevEnd(segments, i)), seg.endMs);
    }
  }

  /**
   * An accepted transcript is one global timeline: every earlier segment ends by the start of every later one, and the
   * words of all segments together are ordered, start at 0 or later and end by the tolerated video length.
   */
  lemma ValidatedTimeline(segments: seq<RawSegment>, durationMs: Option<int>, sanitize: string -> string)
    requires Accepted(segments, durationMs, sanitize)
    ensures forall i, j :: 0 <= i < j < |segments| ==>
      CleanedAll(segments, sanitize)[i].endMs <= CleanedAll(segments, sanitize)[j].startMs
    ensures Ordered(Timeline(CleanedAll(segments, sanitize)), 0)
    ensures durationMs.Some? && durationMs.value > 0 ==>
      && (forall i :: 0 <= i < |segments| ==> CleanedAll(segments, sanitize)[i].endMs <= durationMs.value + 250)
      && forall k :: 0 <= k < |Timeline(CleanedAll(segments, sanitize))| ==>
        Timeline(CleanedAll(segments, sanitize))[k].endMs <= durationMs.value + 250
  {
    forall i, j | 0 <= i < j < |segments|
      ensures segments[i].endMs <= segments[j].startMs
    {
      EarlierEndsFirst(segments, durationMs, sanitize, i, j);
    }
    var last := |segments| - 1;
    forall k | 0 <= k < |segments|
      ensures segments[k].endMs <= segments[last].endMs
      ensures UpperBound(durationMs).Some? ==> segments[k].endMs <= UpperBound(durationMs).value
    {
      assert VerdictAt(segments, k, durationMs, sanitize) == None;
      assert VerdictAt(segments, last, durationMs, sanitize) == None;
    }
    assert CleanedAll(segments, sanitize)[0..] == CleanedAll(segments, sanitize);
    TimelineFrom(segments, durationMs, sanitize, 0,
                 if UpperBound(durationMs).Some? then UpperBound(durationMs).value else segments[last].endMs);
  }
}

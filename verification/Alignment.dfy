/** services/tts-service/tts/alignment.py: words on the absolute video timeline. */
module Alignment {
  import opened Rounding
  import opened Words
  import opened Outcomes
  import Text

  // ---- Provider timings, rescaled to the final audio ----

  function LatestEnd(words: seq<Word>, count: nat): int
    requires count <= |words|
  {
    if count == 0 then 0 else Max(words[count - 1].endMs, LatestEnd(words, count - 1))
  }

  function Span(words: seq<Word>): int
    requires words != []
  {
    Max(words[|words| - 1].endMs, 1)
  }

  /** The multiplier is finalMs/span, or 1 when there is no final duration. */
  function Scale(x: int, finalMs: nat, span: int): int
    requires span > 0
  {
    if finalMs > 0 then RoundHalfEven(x * finalMs, span) else x
  }

  function RescaledStart(words: seq<Word>, finalMs: nat, i: nat): int
    requires i < |words|
  {
    Scale(Max(words[i].startMs, LatestEnd(words, i)), finalMs, Span(words))
  }

  function RescaledEnd(words: seq<Word>, finalMs: nat, i: nat): int
    requires i < |words|
  {
    Max(Scale(Max(words[i].endMs, LatestEnd(words, i)), finalMs, Span(words)), RescaledStart(words, finalMs, i))
  }

  function Clamp(x: int, finalMs: nat): int {
    if finalMs > 0 then Min(x, finalMs) else x
  }

  function RescaledAt(words: seq<Word>, finalMs: nat, offset: int, i: nat): Word
    requires i < |words|
  {
    Word(words[i].text,
         Clamp(RescaledStart(words, finalMs, i), finalMs) + offset,
         Clamp(RescaledEnd(words, finalMs, i), finalMs) + offset)
  }

  /** The words before the closing monotonic pass. */
  function Rescaled(words: seq<Word>, finalMs: nat, offset: int): seq<Word> {
    seq(|words|, i requires 0 <= i < |words| => RescaledAt(words, finalMs, offset, i))
  }

  method RescaleProviderAlignment(alignments: seq<Word>, finalMs: nat, offset: int) returns (out: seq<Word>)
    ensures out == Monotonic(Rescaled(alignments, finalMs, offset), 0)
  {
    if alignments == [] {
      return [];
    }
    var synthesizedSpan := Max(alignments[|alignments| - 1].endMs, 1);
    out := [];
    var prevEndLocal := 0;
    for i := 0 to |alignments|
      invariant prevEndLocal == LatestEnd(alignments, i)
      invariant |out| == i && forall j :: 0 <= j < i ==> out[j] == RescaledAt(alignments, finalMs, offset, j)
    {
      var word := alignments[i];
      var startLocal := Scale(Max(word.startMs, prevEndLocal), finalMs, synthesizedSpan);
      var endLocal := Scale(Max(word.endMs, prevEndLocal), finalMs, synthesizedSpan);
      if endLocal < startLocal {
        endLocal := startLocal;
      }
      if finalMs > 0 {
        startLocal := Min(startLocal, finalMs);
        endLocal := Min(endLocal, finalMs);
      }
      out := out + [Word(word.text, startLocal + offset, endLocal + offset)];
      prevEndLocal := Max(word.endMs, prevEndLocal);
    }
    assert out == Rescaled(alignments, finalMs, offset);
    out := EnforceMonotonic(out);
  }

  // ---- No provider timings: shares of the audio in proportion to word length ----

  /** Total weight of the first `count` tokens; a token weighs its length plus one. */
  function Weight(tokens: seq<string>, count: nat): nat
    requires count <= |tokens|
  {
    if count == 0 then 0 else Weight(tokens, count - 1) + |tokens[count - 1]| + 1
  }

  function TotalWeight(tokens: seq<string>): nat {
    Weight(tokens, |tokens|)
  }

  /** The cursor after `count` tokens is the exact ratio durationMs * Weight / TotalWeight; this is its rounding. */
  function Boundary(tokens: seq<string>, durationMs: int, count: nat): int
    requires count <= |tokens| && TotalWeight(tokens) > 0
  {
    RoundHalfEven(durationMs * Weight(tokens, count), TotalWeight(tokens))
  }

  /** A word between two rounded boundaries: at least 1 ms long, but never past the audio. */
  function CutWord(token: string, durationMs: int, offset: int, start: int, end: int): Word {
    Word(token, offset + Min(start, durationMs), offset + Min(if end <= start then start + 1 else end, durationMs))
  }

  function ProportionalAt(tokens: seq<string>, durationMs: int, offset: int, i: nat): Word
    requires i < |tokens| && TotalWeight(tokens) > 0
  {
    CutWord(tokens[i], durationMs, offset, Boundary(tokens, durationMs, i), Boundary(tokens, durationMs, i + 1))
  }

  /** The words before the closing monotonic pass. */
  function ProportionalWords(tokens: seq<string>, durationMs: int, offset: int): seq<Word>
    requires TotalWeight(tokens) > 0
  {
    seq(|tokens|, i requires 0 <= i < |tokens| => ProportionalAt(tokens, durationMs, offset, i))
  }

  lemma {:induction false} WeightGrows(tokens: seq<string>, lo: nat, hi: nat)
    requires lo <= hi <= |tokens|
    ensures Weight(tokens, hi) >= Weight(tokens, lo) + (hi - lo)
    decreases hi
  {
    if lo < hi { WeightGrows(tokens, lo, hi - 1); }
  }

  function Proportional(tokens: seq<string>, durationMs: int, offset: int): seq<Word> {
    if tokens == [] || durationMs <= 0 then
      seq(|tokens|, i requires 0 <= i < |tokens| => Word(tokens[i], offset, offset))
    else
      WeightGrows(tokens, 0, |tokens|);
      Monotonic(ProportionalWords(tokens, durationMs, offset), 0)
  }

  lemma CursorStep(tokens: seq<string>, durationMs: int, i: nat)
    requires i < |tokens|
    ensures durationMs * Weight(tokens, i + 1) == durationMs * Weight(tokens, i) + durationMs * (|tokens[i]| + 1)
  {
  }

  method ProportionalAlignment(text: string, durationMs: int, offset: int) returns (out: seq<Word>)
    ensures out == Proportional(Text.Split(text), durationMs, offset)
  {
    var tokens := Text.Split(text);
    if tokens == [] || durationMs <= 0 {
      return seq(|tokens|, i requires 0 <= i < |tokens| => Word(tokens[i], offset, offset));
    }
    var totalWeight := 0;
    for i := 0 to |tokens|
      invariant totalWeight == Weight(tokens, i)
    {
      totalWeight := totalWeight + |tokens[i]| + 1;
    }
    WeightGrows(tokens, 0, |tokens|);
    out := [];
    var cursor := 0; // the cursor in units of 1/totalWeight ms
    for i := 0 to |tokens|
      invariant cursor == durationMs * Weight(tokens, i)
      invariant |out| == i && forall j :: 0 <= j < i ==> out[j] == ProportionalAt(tokens, durationMs, offset, j)
    {
      var startLocal := RoundHalfEven(cursor, totalWeight);
      CursorStep(tokens, durationMs, i);
      cursor := cursor + durationMs * (|tokens[i]| + 1);
      var endLocal := RoundHalfEven(cursor, totalWeight);
      if endLocal <= startLocal {
        endLocal := startLocal + 1;
      }
      if endLocal > durationMs {
        endLocal := durationMs;
      }
      if startLocal > durationMs {
        startLocal := durationMs;
      }
      out := out + [Word(tokens[i], offset + startLocal, offset + endLocal)];
    }
    assert out == ProportionalWords(tokens, durationMs, offset);
    out := EnforceMonotonic(out);
  }

  // ---- Dispatch ----

  /** What `align_words_to_segment` returns for a non-negative final duration. */
  function Aligned(startMs: int, text: string, provider: Option<seq<Word>>, finalMs: nat): seq<Word> {
    if provider.Some? && provider.value != [] then Monotonic(Rescaled(provider.value, finalMs, startMs), 0)
    else Proportional(Text.Split(text), finalMs, startMs)
  }

  method AlignWordsToSegment(startMs: int, text: string, provider: Option<seq<Word>>, finalMs: int)
    returns (r: Result<seq<Word>, string>)
    ensures r.Err? <==> finalMs < 0
    ensures r.Ok? ==> r.value == Aligned(startMs, text, provider, finalMs)
  {
    if finalMs < 0 {
      return Err("final_duration_ms must be >= 0");
    }
    var stripped := Text.Strip(text);
    Text.StripKeepsTokens(text);
    if provider.Some? && provider.value != [] {
      var rescaled := RescaleProviderAlignment(provider.value, finalMs, startMs);
      return Ok(rescaled);
    }
    if stripped == "" {
      return Ok([]);
    }
    var words := ProportionalAlignment(stripped, finalMs, startMs);
    return Ok(words);
  }

  // ---- Properties of the proportional alignment ----

  lemma MulMonotone(k: nat, a: int, b: int)
    requires a <= b
    ensures k * a <= k * b
  {
    assert k * b - k * a == k * (b - a);
  }

  lemma BoundariesGrow(tokens: seq<string>, durationMs: nat, i: nat, j: nat)
    requires i <= j <= |tokens| && tokens != []
    ensures TotalWeight(tokens) > 0
    ensures 0 <= Boundary(tokens, durationMs, i) <= Boundary(tokens, durationMs, j) <= durationMs
    ensures Boundary(tokens, durationMs, 0) == 0 && Boundary(tokens, durationMs, |tokens|) == durationMs
  {
    WeightGrows(tokens, 0, |tokens|);
    WeightGrows(tokens, i, j);
    WeightGrows(tokens, j, |tokens|);
    var total := TotalWeight(tokens);
    MulMonotone(durationMs, Weight(tokens, i), Weight(tokens, j));
    MulMonotone(durationMs, Weight(tokens, j), total);
    RoundMonotone(durationMs * Weight(tokens, i), durationMs * Weight(tokens, j), total);
    RoundAtLeast(durationMs * Weight(tokens, i), total, 0);
    RoundAtMost(durationMs * Weight(tokens, j), total, durationMs);
    RoundExact(durationMs, total);
    RoundExact(0, total);
  }

  /** Rounded boundaries from 0 to the duration that never go back. */
  predicate IsScale(b: seq<int>, durationMs: int) {
    && b != [] && b[0] == 0 && b[|b| - 1] == durationMs
    && forall i, j :: 0 <= i <= j < |b| ==> 0 <= b[i] <= b[j] <= durationMs
  }

  predicate IsStrict(b: seq<int>) {
    forall i, j :: 0 <= i < j < |b| ==> b[i] < b[j]
  }

  function Cuts(tokens: seq<string>, b: seq<int>, durationMs: int, offset: int): seq<Word>
    requires |b| == |tokens| + 1
  {
    seq(|tokens|, i requires 0 <= i < |tokens| => CutWord(tokens[i], durationMs, offset, b[i], b[i + 1]))
  }

  /** Words that join up, each ending within [0, 1] ms after its rounded boundary. */
  predicate FollowsScale(out: seq<Word>, tokens: seq<string>, b: seq<int>, durationMs: int, offset: int, i: nat,
          prevEnd: int)
    requires |b| == |tokens| + 1 && i <= |tokens|
  {
    && |out| == |tokens| - i
    && forall k :: 0 <= k < |out| ==>
      && out[k].text == tokens[i + k]
      && out[k].startMs == EndBefore(out, prevEnd, k) <= out[k].endMs <= offset + durationMs
      && 0 <= out[k].endMs - offset - b[i + k + 1] <= 1
  }

  /** A word entered with an end within [0, 1] ms after its own boundary starts there and ends likewise. */
  lemma CutAfter(token: string, durationMs: int, offset: int, start: int, end: int, prevEnd: int)
    requires 0 <= start <= end <= durationMs
    requires 0 <= prevEnd - offset - start <= 1 && prevEnd <= offset + durationMs
    ensures
      var word := CutWord(token, durationMs, offset, start, end);
      var cut := Max(word.endMs, prevEnd);
      Max(word.startMs, prevEnd) == prevEnd && 0 <= cut - offset - end <= 1 && cut <= offset + durationMs
  {
  }

  lemma ScalePrepend(tokens: seq<string>, b: seq<int>, durationMs: int, offset: int, i: nat, prevEnd: int, end: int,
          rest: seq<Word>)
    requires |b| == |tokens| + 1 && i < |tokens| && prevEnd <= end <= offset + durationMs
    requires 0 <= end - offset - b[i + 1] <= 1
    requires FollowsScale(rest, tokens, b, durationMs, offset, i + 1, end)
    ensures FollowsScale([Word(tokens[i], prevEnd, end)] + rest, tokens, b, durationMs, offset, i, prevEnd)
  {
    var out := [Word(tokens[i], prevEnd, end)] + rest;
    forall k | 0 <= k < |out|
      ensures out[k].text == tokens[i + k]
      ensures out[k].startMs == EndBefore(out, prevEnd, k) <= out[k].endMs <= offset + durationMs
      ensures 0 <= out[k].endMs - offset - b[i + k + 1] <= 1
    {
      if k > 0 {
        assert out[k] == rest[k - 1];
        assert EndBefore(rest, end, k - 1) == EndBefore(out, prevEnd, k);
        assert i + 1 + (k - 1) == i + k;
      }
    }
  }

  lemma {:induction false} PassFollowsScale(tokens: seq<string>, b: seq<int>, durationMs: int, offset: int, i: nat,
          prevEnd: int)
    requires |b| == |tokens| + 1 && i <= |tokens| && IsScale(b, durationMs)
    requires 0 <= prevEnd - offset - b[i] <= 1 && prevEnd <= offset + durationMs
    ensures FollowsScale(Monotonic(Cuts(tokens, b, durationMs, offset)[i..], prevEnd), tokens, b, durationMs, offset,
      i, prevEnd)
    decreases |tokens| - i
  {
    var raw := Cuts(tokens, b, durationMs, offset);
    if i < |tokens| {
      assert raw[i..] == [raw[i]] + raw[i + 1..];
      var end := Max(raw[i].endMs, prevEnd);
      assert Monotonic([raw[i]] + raw[i + 1..], prevEnd)
          == [Word(tokens[i], Max(raw[i].startMs, prevEnd), Max(raw[i].endMs, Max(raw[i].startMs, prevEnd)))]
           + Monotonic(raw[i + 1..], Max(raw[i].endMs, Max(raw[i].startMs, prevEnd))) by {
        assert ([raw[i]] + raw[i + 1..])[1..] == raw[i + 1..];
      }
      CutAfter(tokens[i], durationMs, offset, b[i], b[i + 1], prevEnd);
      PassFollowsScale(tokens, b, durationMs, offset, i + 1, end);
      ScalePrepend(tokens, b, durationMs, offset, i, prevEnd, end, Monotonic(raw[i + 1..], end));
    }
  }

  function Boundaries(tokens: seq<string>, durationMs: int): seq<int>
    requires TotalWeight(tokens) > 0
  {
    seq(|tokens| + 1, i requires 0 <= i <= |tokens| => Boundary(tokens, durationMs, i))
  }

  lemma BoundariesAreScale(tokens: seq<string>, durationMs: nat, offset: int)
    requires tokens != []
    ensures TotalWeight(tokens) > 0 && IsScale(Boundaries(tokens, durationMs), durationMs)
    ensures ProportionalWords(tokens, durationMs, offset) ==
      Cuts(tokens, Boundaries(tokens, durationMs), durationMs, offset)
  {
    BoundariesGrow(tokens, durationMs, 0, |tokens|);
    var b := Boundaries(tokens, durationMs);
    forall i, j | 0 <= i <= j < |b|
      ensures 0 <= b[i] <= b[j] <= durationMs
    {
      BoundariesGrow(tokens, durationMs, i, j);
    }
  }

  /**
   * How far boundary i of the result lies past its ideal point durationMs * Weight/TotalWeight, in units of
   * 1/TotalWeight ms.
   */
  function Drift(words: seq<Word>, tokens: seq<string>, durationMs: int, offset: int, i: nat): int
    requires i <= |tokens| == |words|
  {
    TotalWeight(tokens) * (EndBefore(words, offset, i) - offset) - durationMs * Weight(tokens, i)
  }

  /** At most 1/2 ms early and 3/2 ms late. */
  predicate DriftWithin(words: seq<Word>, tokens: seq<string>, durationMs: int, offset: int, i: nat)
    requires i <= |tokens| == |words|
  {
    var total: int := TotalWeight(tokens);
    -total <= 2 * Drift(words, tokens, durationMs, offset, i) <= 3 * total
  }

  lemma ProportionalFollowsScale(tokens: seq<string>, durationMs: nat, offset: nat)
    requires tokens != [] && durationMs > 0
    ensures TotalWeight(tokens) > 0
    ensures FollowsScale(Proportional(tokens, durationMs, offset), tokens, Boundaries(tokens, durationMs),
      durationMs, offset, 0, offset)
    ensures IsScale(Boundaries(tokens, durationMs), durationMs)
  {
    BoundariesAreScale(tokens, durationMs, offset);
    var b := Boundaries(tokens, durationMs);
    var raw := Cuts(tokens, b, durationMs, offset);
    assert raw[0..] == raw && Monotonic(raw, 0) == Monotonic(raw, offset);
    PassFollowsScale(tokens, b, durationMs, offset, 0, offset);
  }

  lemma DriftBound(words: seq<Word>, tokens: seq<string>, durationMs: nat, offset: int, i: nat)
    requires i <= |tokens| == |words| && TotalWeight(tokens) > 0
    requires 0 <= EndBefore(words, offset, i) - offset - Boundary(tokens, durationMs, i) <= 1
    ensures DriftWithin(words, tokens, durationMs, offset, i)
  {
    var total, b, late := TotalWeight(tokens), Boundary(tokens, durationMs, i), EndBefore(words, offset, i) - offset;
    RoundIsNearestEven(durationMs * Weight(tokens, i), total);
    if late == b + 1 { assert total * late == total * b + total; }
  }

  /** Without audio every word stands at the offset. */
  lemma NoAudioTiles(tokens: seq<string>, offset: nat)
    requires tokens != []
    ensures Texts(Proportional(tokens, 0, offset)) == tokens
    ensures Tiles(Proportional(tokens, 0, offset), offset, offset)
    ensures forall i :: 0 <= i <= |tokens| ==> DriftWithin(Proportional(tokens, 0, offset), tokens, 0, offset, i)
  {
    forall i | 0 <= i <= |tokens| ensures DriftWithin(Proportional(tokens, 0, offset), tokens, 0, offset, i) {
      assert EndBefore(Proportional(tokens, 0, offset), offset, i) == offset;
      assert 0 * Weight(tokens, i) == 0;
    }
  }

  /** Weights count characters: those of the tokens, and one more for each token. */
  lemma {:induction false} WeightCountsCharacters(tokens: seq<string>, count: nat)
    requires count <= |tokens|
    ensures Weight(tokens, count) == |Text.Concat(tokens[..count])| + count
  {
    if count > 0 {
      WeightCountsCharacters(tokens, count - 1);
      assert tokens[..count] == tokens[..count - 1] + [tokens[count - 1]];
      Text.ConcatAppend(tokens[..count - 1], [tokens[count - 1]]);
      assert Text.Concat([tokens[count - 1]]) == tokens[count - 1] + Text.Concat([]);
    }
  }

  /**
   * Exact tiling without drift: the words keep the tokens, run without gaps from `offset` to exactly
   * `offset + durationMs`, and each boundary is at most 1/2 ms early and 3/2 ms late however many words there are.
   */
  lemma ProportionalTiles(tokens: seq<string>, durationMs: nat, offset: nat)
    requires tokens != []
    ensures Texts(Proportional(tokens, durationMs, offset)) == tokens
    ensures Tiles(Proportional(tokens, durationMs, offset), offset, offset + durationMs)
    ensures forall i :: 0 <= i <= |tokens| ==>
      DriftWithin(Proportional(tokens, durationMs, offset), tokens, durationMs, offset, i)
  {
    WeightGrows(tokens, 0, |tokens|);
    if durationMs == 0 {
      NoAudioTiles(tokens, offset);
      return;
    }
    ProportionalFollowsScale(tokens, durationMs, offset);
    var out, b := Proportional(tokens, durationMs, offset), Boundaries(tokens, durationMs);
    forall i | 0 <= i <= |tokens|
      ensures DriftWithin(out, tokens, durationMs, offset, i)
    {
      assert 0 <= EndBefore(out, offset, i) - offset - b[i] <= 1 by {
        if i > 0 { assert 0 <= out[i - 1].endMs - offset - b[0 + (i - 1) + 1] <= 1; }
      }
      DriftBound(out, tokens, durationMs, offset, i);
    }
  }

  /** Without provider timings the tokens of the text tile the audio, also when there is no audio. */
  lemma AlignedTiles(startMs: nat, text: string, provider: Option<seq<Word>>, finalMs: nat)
    requires provider.None? || provider.value == []
    ensures
      var words, tokens := Aligned(startMs, text, provider, finalMs), Text.Split(text);
      && Texts(words) == tokens && |words| == |tokens|
      && (tokens != [] ==> Tiles(words, startMs, startMs + finalMs))
      && forall i :: 0 <= i <= |tokens| ==> DriftWithin(words, tokens, finalMs, startMs, i)
  {
    var tokens := Text.Split(text);
    if tokens != [] {
      ProportionalTiles(tokens, finalMs, startMs);
      assert |Proportional(tokens, finalMs, startMs)| == |Texts(Proportional(tokens, finalMs, startMs))|;
    }
  }

  lemma BoundariesSeparate(tokens: seq<string>, durationMs: nat, i: nat)
    requires i < |tokens| && tokens[i] != "" && 2 * durationMs > TotalWeight(tokens)
    ensures TotalWeight(tokens) > 0
    ensures 0 <= Boundary(tokens, durationMs, i) < Boundary(tokens, durationMs, i + 1) <= durationMs
  {
    BoundariesGrow(tokens, durationMs, i, i + 1);
    CursorStep(tokens, durationMs, i);
    MulMonotone(durationMs, 2, |tokens[i]| + 1);
    RoundSeparates(durationMs * Weight(tokens, i), durationMs * Weight(tokens, i + 1), TotalWeight(tokens));
  }

  lemma BoundariesAreStrict(tokens: seq<string>, durationMs: nat)
    requires forall k :: 0 <= k < |tokens| ==> tokens[k] != ""
    requires 2 * durationMs > TotalWeight(tokens) > 0 && tokens != []
    ensures IsStrict(Boundaries(tokens, durationMs))
  {
    var b := Boundaries(tokens, durationMs);
    forall i, j | 0 <= i < j < |b|
      ensures b[i] < b[j]
    {
      BoundariesSeparate(tokens, durationMs, i);
      BoundariesGrow(tokens, durationMs, i + 1, j);
    }
  }

  lemma StrictScaleNeedsNoPass(tokens: seq<string>, b: seq<int>, durationMs: nat, offset: nat)
    requires |b| == |tokens| + 1 && IsScale(b, durationMs) && IsStrict(b)
    ensures Monotonic(Cuts(tokens, b, durationMs, offset), 0) == Cuts(tokens, b, durationMs, offset)
    ensures forall k :: 0 <= k < |tokens| ==>
      Cuts(tokens, b, durationMs, offset)[k] == Word(tokens[k], offset + b[k], offset + b[k + 1])
  {
    var raw := Cuts(tokens, b, durationMs, offset);
    forall k | 0 <= k < |raw|
      ensures raw[k] == Word(tokens[k], offset + b[k], offset + b[k + 1])
      ensures EndBefore(raw, 0, k) <= raw[k].startMs <= raw[k].endMs
    {
      assert 0 <= b[k] < b[k + 1] <= durationMs;
      if k > 0 { assert 0 <= b[k - 1] < b[k]; }
    }
    OrderedIsFixed(raw, 0);
  }

  lemma UnbumpedIsCuts(tokens: seq<string>, durationMs: nat, offset: nat)
    requires forall k :: 0 <= k < |tokens| ==> tokens[k] != ""
    requires 2 * durationMs > TotalWeight(tokens) && tokens != []
    ensures
      TotalWeight(tokens) > 0 &&
      var b, out := Boundaries(tokens, durationMs), Proportional(tokens, durationMs, offset);
      && |out| == |tokens|
      && IsStrict(b)
      && forall k :: 0 <= k < |tokens| ==> out[k] == Word(tokens[k], offset + b[k], offset + b[k + 1])
  {
    BoundariesAreScale(tokens, durationMs, offset);
    BoundariesAreStrict(tokens, durationMs);
    var b := Boundaries(tokens, durationMs);
    StrictScaleNeedsNoPass(tokens, b, durationMs, offset);
    assert Proportional(tokens, durationMs, offset) == Cuts(tokens, b, durationMs, offset);
  }

  /**
   * With more than half a millisecond per unit of weight no word is bumped: each word is exactly
   * [Boundary(i), Boundary(i + 1)], of positive length.
   */
  lemma ProportionalUnbumped(tokens: seq<string>, durationMs: nat, offset: nat, i: nat)
    requires forall k :: 0 <= k < |tokens| ==> tokens[k] != ""
    requires 2 * durationMs > TotalWeight(tokens) && i < |tokens|
    ensures TotalWeight(tokens) > 0 && |Proportional(tokens, durationMs, offset)| == |tokens|
    ensures Proportional(tokens, durationMs, offset)[i].startMs == offset + Boundary(tokens, durationMs, i)
    ensures Proportional(tokens, durationMs, offset)[i].endMs == offset + Boundary(tokens, durationMs, i + 1)
    ensures Boundary(tokens, durationMs, i) < Boundary(tokens, durationMs, i + 1)
  {
    UnbumpedIsCuts(tokens, durationMs, offset);
    var b := Boundaries(tokens, durationMs);
    assert b[i] == Boundary(tokens, durationMs, i) && b[i + 1] == Boundary(tokens, durationMs, i + 1);
  }

  /** Half of an odd number rounds to the even neighbour: 3/2 and 5/2 both to 2. */
  lemma TieRounds(durationMs: nat, total: nat, k: nat)
    requires 2 * durationMs == total > 0 && 1 <= k <= 2
    ensures RoundHalfEven(durationMs * (2 * k + 1), total) == 2
  {
    assert 2 * (durationMs * (2 * k + 1) - total * 2) == total * (2 * k + 1 - 4);
    assert IsNearestEven(durationMs * (2 * k + 1), total, 2);
    RoundIsNearestEven(durationMs * (2 * k + 1), total);
    NearestEvenMonotone(durationMs * (2 * k + 1), durationMs * (2 * k + 1), total, 2,
      RoundHalfEven(durationMs * (2 * k + 1), total));
    NearestEvenMonotone(durationMs * (2 * k + 1), durationMs * (2 * k + 1), total,
      RoundHalfEven(durationMs * (2 * k + 1), total), 2);
  }

  /**
   * Exactly half a millisecond per unit of weight is not enough, at any even total weight from 8 on: after "ab" and
   * "c" any third token leaves the second one no room of its own, so it is bumped into the third one's time.
   */
  lemma HalfMillisecondCanBump(third: string, durationMs: nat)
    requires |third| >= 2 && |third| % 2 == 0 && 2 * durationMs == |third| + 6
    ensures
      var tokens := ["ab", "c", third];
      && 2 * durationMs == TotalWeight(tokens)
      && Boundary(tokens, durationMs, 1) == Boundary(tokens, durationMs, 2) == 2
      && ProportionalAt(tokens, durationMs, 0, 1).endMs == 3 > ProportionalAt(tokens, durationMs, 0, 2).startMs
  {
    var tokens := ["ab", "c", third];
    var total := |third| + 6;
    assert Weight(tokens, 1) == 3 && Weight(tokens, 2) == 5 && Weight(tokens, 3) == total;
    TieRounds(durationMs, total, 1);
    TieRounds(durationMs, total, 2);
  }

  // ---- Properties of the provider rescale ----

  lemma {:induction false} LatestEndGrows(words: seq<Word>, i: nat, j: nat)
    requires i <= j <= |words|
    ensures 0 <= LatestEnd(words, i) <= LatestEnd(words, j)
    ensures forall k :: i <= k < j ==> words[k].endMs <= LatestEnd(words, j)
    decreases j
  {
    if i < j {
      LatestEndGrows(words, i, j - 1);
    } else if i > 0 {
      LatestEndGrows(words, i - 1, j - 1);
    }
  }

  lemma ScaleMonotone(x: int, y: int, finalMs: nat, span: int)
    requires span > 0 && x <= y
    ensures Scale(x, finalMs, span) <= Scale(y, finalMs, span)
    ensures 0 <= x ==> 0 <= Scale(x, finalMs, span)
  {
    if finalMs > 0 {
      MulMonotone(finalMs, x, y);
      RoundMonotone(x * finalMs, y * finalMs, span);
      if 0 <= x {
        MulMonotone(finalMs, 0, x);
        RoundAtLeast(x * finalMs, span, 0);
      }
    }
  }

  /** A time at or past the span is scaled to the final duration or later. */
  lemma ScaleReachesFinal(x: int, finalMs: nat, span: int)
    requires finalMs > 0 && 0 < span <= x
    ensures Scale(x, finalMs, span) >= finalMs
  {
    MulMonotone(finalMs, span, x);
    RoundAtLeast(x * finalMs, span, finalMs);
  }

  lemma RescaledRange(words: seq<Word>, finalMs: nat, offset: int, i: nat)
    requires i < |words|
    ensures offset <= RescaledAt(words, finalMs, offset, i).startMs <= RescaledAt(words, finalMs, offset, i).endMs
    ensures finalMs > 0 ==> RescaledAt(words, finalMs, offset, i).endMs <= offset + finalMs
  {
    LatestEndGrows(words, 0, i);
    var prev := LatestEnd(words, i);
    ScaleMonotone(prev, Max(words[i].startMs, prev), finalMs, Span(words));
  }

  /** The rescaled words are the provider's, in order, and lie inside the final audio. */
  lemma RescaleStaysInside(words: seq<Word>, finalMs: nat, offset: nat)
    requires finalMs > 0
    ensures Texts(Monotonic(Rescaled(words, finalMs, offset), 0)) == Texts(words)
    ensures Ordered(Monotonic(Rescaled(words, finalMs, offset), 0), offset)
    ensures forall i :: 0 <= i < |words| ==>
      Monotonic(Rescaled(words, finalMs, offset), 0)[i].endMs <= offset + finalMs
  {
    var raw := Rescaled(words, finalMs, offset);
    forall i | 0 <= i < |raw|
      ensures offset <= raw[i].startMs <= raw[i].endMs <= offset + finalMs
    {
      RescaledRange(words, finalMs, offset, i);
    }
    MonotonicOrders(raw, 0);
    MonotonicStaysWithin(raw, 0, 0, offset + finalMs);
    var out := Monotonic(raw, 0);
    assert Texts(raw) == Texts(words);
    assert |out| == |words| by { assert |Texts(out)| == |Texts(words)|; }
    forall i | 0 <= i < |out|
      ensures EndBefore(out, offset, i) <= out[i].startMs <= out[i].endMs
    {
      assert EndBefore(out, 0, i) <= out[i].startMs;
      assert out[i].startMs >= raw[i].startMs;
    }
  }

  /** Some provider time is at least one millisecond. */
  predicate HasTime(words: seq<Word>) {
    exists i :: 0 <= i < |words| && (words[i].startMs >= 1 || words[i].endMs >= 1)
  }

  lemma ReachedFrom(words: seq<Word>, finalMs: nat, offset: nat, i: nat)
    requires finalMs > 0 && i < |words| && Span(words) == 1
    requires words[i].startMs >= 1 || words[i].endMs >= 1
    ensures |Monotonic(Rescaled(words, finalMs, offset), 0)| == |words|
    ensures Monotonic(Rescaled(words, finalMs, offset), 0)[|words| - 1].endMs >= offset + finalMs
  {
    var raw := Rescaled(words, finalMs, offset);
    var out := Monotonic(raw, 0);
    MonotonicOrders(raw, 0);
    MonotonicLength(raw, 0);
    var prev := LatestEnd(words, i);
    if words[i].startMs >= 1 {
      ScaleReachesFinal(Max(words[i].startMs, prev), finalMs, 1);
    } else {
      ScaleReachesFinal(Max(words[i].endMs, prev), finalMs, 1);
    }
    assert out[i].endMs >= raw[i].endMs >= offset + finalMs;
    OrderedEnds(out, 0, i, |words| - 1);
  }

  lemma {:induction false} LatestEndOfNone(words: seq<Word>, i: nat)
    requires i <= |words| && !HasTime(words)
    ensures LatestEnd(words, i) == 0
  {
    if i > 0 {
      assert words[i - 1].endMs < 1;
      LatestEndOfNone(words, i - 1);
    }
  }

  lemma NoTimeNoLength(words: seq<Word>, finalMs: nat, offset: nat)
    requires words != [] && !HasTime(words)
    ensures |Monotonic(Rescaled(words, finalMs, offset), 0)| == |words|
    ensures Monotonic(Rescaled(words, finalMs, offset), 0)[|words| - 1].endMs <= offset
  {
    var raw := Rescaled(words, finalMs, offset);
    forall i | 0 <= i < |words|
      ensures raw[i].startMs <= offset && raw[i].endMs <= offset
    {
      LatestEndOfNone(words, i);
      assert words[i].startMs < 1 && words[i].endMs < 1;
    }
    MonotonicStaysWithin(raw, 0, 0, offset);
  }

  /** The last word ends exactly with the final audio precisely when the provider reported some time at all. */
  lemma RescaleEndsWithAudio(words: seq<Word>, finalMs: nat, offset: nat)
    requires finalMs > 0 && words != []
    ensures |Monotonic(Rescaled(words, finalMs, offset), 0)| == |words|
    ensures Monotonic(Rescaled(words, finalMs, offset), 0)[|words| - 1].endMs == offset + finalMs <==> HasTime(words)
  {
    var raw := Rescaled(words, finalMs, offset);
    var out := Monotonic(raw, 0);
    RescaleStaysInside(words, finalMs, offset);
    MonotonicOrders(raw, 0);
    MonotonicLength(raw, 0);
    var last := |words| - 1;
    if words[last].endMs >= 1 {
      ScaleReachesFinal(Max(words[last].endMs, LatestEnd(words, last)), finalMs, Span(words));
      assert out[last].endMs >= raw[last].endMs == offset + finalMs;
      assert HasTime(words);
    } else if HasTime(words) {
      var i :| 0 <= i < |words| && (words[i].startMs >= 1 || words[i].endMs >= 1);
      ReachedFrom(words, finalMs, offset, i);
    } else {
      NoTimeNoLength(words, finalMs, offset);
    }
  }

  /** Timings whose words do not end before they start, as both provider parsers return them, need no closing pass. */
  lemma RescaleAlreadyOrdered(words: seq<Word>, finalMs: nat, offset: nat)
    requires forall i :: 0 <= i < |words| ==> words[i].startMs <= words[i].endMs
    ensures Monotonic(Rescaled(words, finalMs, offset), 0) == Rescaled(words, finalMs, offset)
  {
    var raw := Rescaled(words, finalMs, offset);
    forall i | 0 <= i < |raw|
      ensures EndBefore(raw, 0, i) <= raw[i].startMs <= raw[i].endMs
    {
      RescaledRange(words, finalMs, offset, i);
      if i > 0 {
        var prev, span := LatestEnd(words, i - 1), Span(words);
        ScaleMonotone(Max(words[i - 1].startMs, prev), Max(words[i - 1].endMs, prev), finalMs, span);
        ScaleMonotone(LatestEnd(words, i), Max(words[i].startMs, LatestEnd(words, i)), finalMs, span);
      }
    }
    OrderedIsFixed(raw, 0);
  }

  function Shifted(word: Word, offset: int): Word {
    Word(word.text, word.startMs + offset, word.endMs + offset)
  }

  lemma {:induction false} LatestEndOfOrdered(words: seq<Word>, i: nat)
    requires Ordered(words, 0) && i <= |words|
    ensures LatestEnd(words, i) == EndBefore(words, 0, i)
  {
    if i > 0 {
      LatestEndOfOrdered(words, i - 1);
      assert EndBefore(words, 0, i - 1) <= words[i - 1].startMs <= words[i - 1].endMs;
    }
  }

  lemma ExactSpanShiftsWord(words: seq<Word>, finalMs: nat, offset: nat, i: nat)
    requires i < |words| && Ordered(words, 0) && words[|words| - 1].endMs == finalMs
    ensures words[i].startMs <= words[i].endMs
    ensures RescaledAt(words, finalMs, offset, i) == Shifted(words[i], offset)
  {
    OrderedEnds(words, 0, i, |words| - 1);
    LatestEndOfOrdered(words, i);
    assert EndBefore(words, 0, i) <= words[i].startMs;
    if finalMs > 0 {
      RoundExact(words[i].startMs, finalMs);
      RoundExact(words[i].endMs, finalMs);
    }
  }

  /** Ordered timings that already span the final audio are only moved to the segment's start. */
  lemma RescaleOfExactSpanShifts(words: seq<Word>, finalMs: nat, offset: nat)
    requires words != [] && Ordered(words, 0) && words[|words| - 1].endMs == finalMs
    ensures Monotonic(Rescaled(words, finalMs, offset), 0)
         == seq(|words|, i requires 0 <= i < |words| => Shifted(words[i], offset))
  {
    forall i | 0 <= i < |words|
      ensures words[i].startMs <= words[i].endMs
      ensures RescaledAt(words, finalMs, offset, i) == Shifted(words[i], offset)
    {
      ExactSpanShiftsWord(words, finalMs, offset, i);
    }
    RescaleAlreadyOrdered(words, finalMs, offset);
  }

  /** Every word starts and ends within the final audio. */
  predicate WithinAudio(words: seq<Word>, offset: int, finalMs: int) {
    forall i :: 0 <= i < |words| ==> offset <= words[i].startMs <= words[i].endMs <= offset + finalMs
  }

  lemma UnscaledTimeShows(words: seq<Word>, offset: nat, i: nat)
    requires i < |words| && (words[i].startMs >= 1 || words[i].endMs >= 1)
    ensures |Monotonic(Rescaled(words, 0, offset), 0)| == |words|
    ensures Monotonic(Rescaled(words, 0, offset), 0)[i].endMs > offset
  {
    MonotonicOrders(Rescaled(words, 0, offset), 0);
    MonotonicLength(Rescaled(words, 0, offset), 0);
    assert Rescaled(words, 0, offset)[i] == RescaledAt(words, 0, offset, i);
  }

  /**
   * Rescaled words lie within the final audio exactly when there is a final duration or the provider reported no time
   * at all: with a final duration of zero times are neither scaled nor clamped.
   */
  lemma RescaleInsideExactly(words: seq<Word>, finalMs: nat, offset: nat)
    requires words != []
    ensures WithinAudio(Monotonic(Rescaled(words, finalMs, offset), 0), offset, finalMs) <==>
      finalMs > 0 || !HasTime(words)
  {
    var raw := Rescaled(words, finalMs, offset);
    var out := Monotonic(raw, 0);
    MonotonicLength(raw, 0);
    if finalMs > 0 {
      RescaleStaysInside(words, finalMs, offset);
      forall i | 0 <= i < |out| ensures offset <= out[i].startMs <= out[i].endMs { OrderedEnds(out, offset, i, i); }
    } else if i :| 0 <= i < |words| && (words[i].startMs >= 1 || words[i].endMs >= 1) {
      UnscaledTimeShows(words, offset, i);
    } else {
      forall i | 0 <= i < |raw| ensures offset <= raw[i].startMs && raw[i].startMs <= offset && raw[i].endMs <= offset {
        LatestEndOfNone(words, i);
        RescaledRange(words, finalMs, offset, i);
      }
      MonotonicStaysWithin(raw, 0, 0, offset);
      MonotonicOrders(raw, 0);
    }
  }

  /** The smallest case: one timed word runs half a second past the empty audio. */
  lemma ZeroFinalIsUnbounded()
    ensures Aligned(0, "hi", Some([Word("hi", 0, 500)]), 0) == [Word("hi", 0, 500)]
  {
    var words := [Word("hi", 0, 500)];
    assert Rescaled(words, 0, 0) == [RescaledAt(words, 0, 0, 0)] == words;
    assert words[1..] == [];
    assert Monotonic(words, 0) == words;
  }

  // ---- What the rescale does to every time ----

  /** A provider time on the final audio. */
  function ScaledTime(x: int, finalMs: nat, span: int): int
    requires span > 0
  {
    Clamp(Scale(x, finalMs, span), finalMs)
  }

  lemma ScaledMax(x: int, y: int, finalMs: nat, span: int)
    requires span > 0
    ensures ScaledTime(Max(x, y), finalMs, span) == Max(ScaledTime(x, finalMs, span), ScaledTime(y, finalMs, span))
  {
    if x <= y { ScaleMonotone(x, y, finalMs, span); } else { ScaleMonotone(y, x, finalMs, span); }
  }

  /** Scaling and moving a time; nothing on the video's timeline comes before 0. */
  function Placed(x: int, finalMs: nat, span: int, offset: int): int
    requires span > 0
  {
    Max(0, offset + ScaledTime(x, finalMs, span))
  }

  function PlacedWord(word: Word, finalMs: nat, span: int, offset: int): Word
    requires span > 0
  {
    Word(word.text, Placed(word.startMs, finalMs, span, offset), Placed(word.endMs, finalMs, span, offset))
  }

  lemma PassOfMaxima(s: int, e: int, l: int, p: int, offset: int, prevOut: int)
    requires 0 <= l <= p && (prevOut == Max(0, offset + p) || (p == 0 && prevOut == 0))
    ensures
      var rawStart, rawEnd := offset + Max(s, l), offset + Max(Max(e, l), Max(s, l));
      && Max(rawStart, prevOut) == Max(0, offset + Max(s, p))
      && Max(rawEnd, Max(rawStart, prevOut)) == Max(0, offset + Max(e, Max(s, p)))
  {
  }

  /** The rescale of one word in terms of the scaled times. */
  lemma RescaledByMax(words: seq<Word>, finalMs: nat, offset: int, i: nat)
    requires i < |words|
    ensures
      var raw, latest := RescaledAt(words, finalMs, offset, i), ScaledTime(LatestEnd(words, i), finalMs, Span(words));
      var start := Max(ScaledTime(words[i].startMs, finalMs, Span(words)), latest);
      var end := Max(ScaledTime(words[i].endMs, finalMs, Span(words)), latest);
      raw.startMs == offset + start && raw.endMs == offset + Max(end, start)
  {
    var span, latest := Span(words), LatestEnd(words, i);
    ScaledMax(words[i].startMs, latest, finalMs, span);
    ScaledMax(words[i].endMs, latest, finalMs, span);
  }

  lemma ScaledFromZero(x: int, y: int, finalMs: nat, span: int)
    requires span > 0 && 0 <= x <= y
    ensures 0 <= ScaledTime(x, finalMs, span) <= ScaledTime(y, finalMs, span)
    ensures y == 0 ==> ScaledTime(y, finalMs, span) == 0
  {
    ScaleMonotone(x, y, finalMs, span);
    if finalMs > 0 { RoundExact(0, span); }
  }

  lemma ScaledMaxOfThree(start: int, end: int, prev: int, finalMs: nat, span: int)
    requires span > 0
    ensures
      var s, e, p := ScaledTime(start, finalMs, span), ScaledTime(end, finalMs, span), ScaledTime(prev, finalMs, span);
      && ScaledTime(Max(start, prev), finalMs, span) == Max(s, p)
      && ScaledTime(Max(end, Max(start, prev)), finalMs, span) == Max(e, Max(s, p))
  {
    ScaledMax(start, prev, finalMs, span);
    ScaledMax(end, Max(start, prev), finalMs, span);
  }

  /** One word through the rescale and the pass is the word through the pass and then scaled. */
  lemma PassScalesWord(words: seq<Word>, finalMs: nat, offset: int, i: nat, prev: int, prevOut: int)
    requires i < |words| && prev >= LatestEnd(words, i)
    requires prevOut == Placed(prev, finalMs, Span(words), offset) || (prev == 0 && prevOut == 0)
    ensures
      var raw, word := RescaledAt(words, finalMs, offset, i), words[i];
      var start := Max(word.startMs, prev);
      && Max(raw.startMs, prevOut) == Placed(start, finalMs, Span(words), offset)
      && Max(raw.endMs, Max(raw.startMs, prevOut))
         == Placed(Max(word.endMs, start), finalMs, Span(words), offset)
  {
    var span, latest, word := Span(words), LatestEnd(words, i), words[i];
    LatestEndGrows(words, 0, i);
    RescaledByMax(words, finalMs, offset, i);
    var s, e := ScaledTime(word.startMs, finalMs, span), ScaledTime(word.endMs, finalMs, span);
    var l, p := ScaledTime(latest, finalMs, span), ScaledTime(prev, finalMs, span);
    ScaledFromZero(latest, prev, finalMs, span);
    ScaledMaxOfThree(word.startMs, word.endMs, prev, finalMs, span);
    PassOfMaxima(s, e, l, p, offset, prevOut);
  }

  lemma {:induction false} PassScales(words: seq<Word>, finalMs: nat, offset: int, i: nat, prev: int, prevOut: int)
    requires words != [] && i <= |words| && prev >= LatestEnd(words, i)
    requires prevOut == Placed(prev, finalMs, Span(words), offset) || (prev == 0 && prevOut == 0)
    ensures
      var out, ordered := Monotonic(Rescaled(words, finalMs, offset)[i..], prevOut), Monotonic(words[i..], prev);
      && |out| == |ordered| == |words| - i
      && forall k :: 0 <= k < |out| ==> out[k] == PlacedWord(ordered[k], finalMs, Span(words), offset)
    decreases |words| - i
  {
    var raw := Rescaled(words, finalMs, offset);
    if i < |words| {
      var start := Max(words[i].startMs, prev);
      var end := Max(words[i].endMs, start);
      var startOut := Max(raw[i].startMs, prevOut);
      var endOut := Max(raw[i].endMs, startOut);
      PassScalesWord(words, finalMs, offset, i, prev, prevOut);
      assert words[i..][1..] == words[i + 1..] && raw[i..][1..] == raw[i + 1..];
      PassScales(words, finalMs, offset, i + 1, end, endOut);
      assert Monotonic(words[i..], prev) == [Word(words[i].text, start, end)] + Monotonic(words[i + 1..], end);
      assert Monotonic(raw[i..], prevOut) == [Word(raw[i].text, startOut, endOut)] + Monotonic(raw[i + 1..], endOut);
    }
  }

  /**
   * `t` is where a provider time `x` goes: without a final duration it stays, else the provider's last end, or 1 ms if
   * that is not positive, goes to the final duration, what is later goes there too, and what is earlier goes to the
   * nearest millisecond in proportion.
   */
  predicate GoesTo(x: int, words: seq<Word>, finalMs: nat, t: int)
    requires words != []
  {
    var last := words[|words| - 1].endMs;
    var span := if last >= 1 then last else 1;
    if finalMs == 0 then t == x
    else if x >= span then t == finalMs
    else IsNearestEven(x * finalMs, span, t)
  }

  lemma ScaledGoes(x: int, words: seq<Word>, finalMs: nat)
    requires words != []
    ensures GoesTo(x, words, finalMs, ScaledTime(x, finalMs, Span(words)))
  {
    var span := Span(words);
    if finalMs > 0 {
      if x >= span {
        ScaleReachesFinal(x, finalMs, span);
      } else {
        RoundIsNearestEven(x * finalMs, span);
        MulMonotone(finalMs, x, span);
        RoundAtMost(x * finalMs, span, finalMs);
      }
    }
  }

  /**
   * The rescale is the pass followed by scaling: for any provider timings, ordered or not, each result time is where
   * the largest provider time up to it goes, moved by the offset and never before 0.
   */
  lemma RescaleScales(words: seq<Word>, text: string, finalMs: nat, offset: int, i: nat) returns (s: int, e: int)
    requires i < |words|
    ensures |Aligned(offset, text, Some(words), finalMs)| == |words| == |Monotonic(words, 0)|
    ensures
      var word, ordered := Aligned(offset, text, Some(words), finalMs)[i], Monotonic(words, 0)[i];
      && word == Word(words[i].text, Max(0, offset + s), Max(0, offset + e))
      && GoesTo(ordered.startMs, words, finalMs, s) && GoesTo(ordered.endMs, words, finalMs, e)
  {
    var raw, ordered := Rescaled(words, finalMs, offset), Monotonic(words, 0);
    assert raw[0..] == raw && words[0..] == words;
    PassScales(words, finalMs, offset, 0, 0, 0);
    MonotonicOrders(words, 0);
    assert ordered[i].text == words[i].text by { assert Texts(ordered)[i] == Texts(words)[i]; }
    s, e := ScaledTime(ordered[i].startMs, finalMs, Span(words)), ScaledTime(ordered[i].endMs, finalMs, Span(words));
    ScaledGoes(ordered[i].startMs, words, finalMs);
    ScaledGoes(ordered[i].endMs, words, finalMs);
  }

  /** `t` is x * finalMs / last, rounded to the nearest millisecond. */
  predicate InProportion(x: int, finalMs: nat, last: int, t: int)
    requires last > 0
  {
    IsNearestEven(x * finalMs, last, t)
  }

  /** Up to the provider's last end a time goes where the proportion says, the end itself included. */
  lemma ScaledInProportion(x: int, words: seq<Word>, finalMs: nat)
    requires words != [] && words[|words| - 1].endMs >= 1 && 0 <= x <= words[|words| - 1].endMs && finalMs > 0
    ensures ScaledTime(x, finalMs, Span(words)) >= 0
    ensures InProportion(x, finalMs, words[|words| - 1].endMs, ScaledTime(x, finalMs, Span(words)))
  {
    var span := words[|words| - 1].endMs;
    ScaledFromZero(0, x, finalMs, span);
    ScaledGoes(x, words, finalMs);
    assert x == span ==> span * finalMs == x * finalMs;
  }

  lemma OrderedIsPlaced(words: seq<Word>, finalMs: nat, offset: int, i: nat)
    requires i < |words| && Ordered(words, 0)
    ensures |Monotonic(Rescaled(words, finalMs, offset), 0)| == |words|
    ensures Monotonic(Rescaled(words, finalMs, offset), 0)[i] == PlacedWord(words[i], finalMs, Span(words), offset)
  {
    var raw := Rescaled(words, finalMs, offset);
    assert raw[0..] == raw && words[0..] == words;
    PassScales(words, finalMs, offset, 0, 0, 0);
    OrderedIsFixed(words, 0);
  }

  /** Ordered timings are stretched in proportion: start * final / last end and end * final / last end, rounded. */
  lemma RescaleStretches(words: seq<Word>, text: string, finalMs: nat, offset: nat, i: nat)
    requires finalMs > 0 && i < |words| && Ordered(words, 0) && words[|words| - 1].endMs >= 1
    ensures |Aligned(offset, text, Some(words), finalMs)| == |words|
    ensures
      var word, last := Aligned(offset, text, Some(words), finalMs)[i], words[|words| - 1].endMs;
      && word.text == words[i].text
      && InProportion(words[i].startMs, finalMs, last, word.startMs - offset)
      && InProportion(words[i].endMs, finalMs, last, word.endMs - offset)
  {
    OrderedIsPlaced(words, finalMs, offset, i);
    OrderedEnds(words, 0, i, |words| - 1);
    ScaledInProportion(words[i].startMs, words, finalMs);
    ScaledInProportion(words[i].endMs, words, finalMs);
  }
}

/** services/tts-service/tts/synthesizer.py: word timings from the providers' raw timing data. */
module Synthesizer {
  import opened Rounding
  import opened Words
  import opened Outcomes
  import opened Text

  // A time in seconds is a numerator over a common positive denominator `scale`.

  // ---- Characters to words ----

  /** `str.isspace` on one entry of the character list, which may hold any number of characters. */
  predicate IsSpaceEntry(entry: string) {
    entry != "" && forall i :: 0 <= i < |entry| ==> IsSpace(entry[i])
  }

  /** The word being collected. */
  datatype Pending = Pending(chars: seq<string>, start: Option<int>, end: int)

  const NOTHING := Pending([], None, 0)

  function Millis(seconds: int, scale: int): int
    requires scale > 0
  {
    RoundHalfEven(seconds * 1000, scale)
  }

  function Extend(p: Pending, entry: string, start: int, end: int): Pending {
    Pending(p.chars + [entry], if p.start.None? then Some(start) else p.start, end)
  }

  function Flushed(p: Pending, scale: int): seq<Word>
    requires scale > 0
  {
    if p.chars != [] && p.start.Some? && Strip(Concat(p.chars)) != "" then
      [Word(Strip(Concat(p.chars)), Millis(p.start.value, scale), Millis(p.end, scale))]
    else []
  }

  predicate SameLength(chars: seq<string>, starts: seq<int>, ends: seq<int>) {
    |chars| == |starts| == |ends|
  }

  /** The words still to come from the i-th entry on. */
  function WordsFrom(chars: seq<string>, starts: seq<int>, ends: seq<int>, scale: int, i: nat, p: Pending): seq<Word>
    requires SameLength(chars, starts, ends) && i <= |chars| && scale > 0
    decreases |chars| - i
  {
    if i == |chars| then Flushed(p, scale)
    else if IsSpaceEntry(chars[i]) then Flushed(p, scale) + WordsFrom(chars, starts, ends, scale, i + 1, NOTHING)
    else WordsFrom(chars, starts, ends, scale, i + 1, Extend(p, chars[i], starts[i], ends[i]))
  }

  function Aggregated(chars: seq<string>, starts: seq<int>, ends: seq<int>, scale: int): seq<Word>
    requires SameLength(chars, starts, ends) && scale > 0
  {
    Monotonic(WordsFrom(chars, starts, ends, scale, 0, NOTHING), 0)
  }

  method AggregateCharactersToWords(chars: seq<string>, starts: seq<int>, ends: seq<int>, scale: int)
    returns (r: Result<seq<Word>, string>)
    requires scale > 0
    ensures r.Ok? <==> SameLength(chars, starts, ends)
    ensures r.Ok? ==> r.value == Aggregated(chars, starts, ends, scale)
  {
    if !SameLength(chars, starts, ends) {
      return Err("characters/start_times/end_times length mismatch");
    }
    var words: seq<Word> := [];
    var currentChars: seq<string>, currentStart: Option<int>, currentEnd := [], None, 0;
    for i := 0 to |chars|
      invariant words + WordsFrom(chars, starts, ends, scale, i, Pending(currentChars, currentStart, currentEnd))
             == WordsFrom(chars, starts, ends, scale, 0, NOTHING)
    {
      if IsSpaceEntry(chars[i]) {
        words := words + Flushed(Pending(currentChars, currentStart, currentEnd), scale);
        currentChars, currentStart, currentEnd := [], None, 0;
      } else {
        if currentStart.None? {
          currentStart := Some(starts[i]);
        }
        currentChars := currentChars + [chars[i]];
        currentEnd := ends[i];
      }
    }
    words := words + Flushed(Pending(currentChars, currentStart, currentEnd), scale);
    var normalised := EnforceMonotonic(words);
    return Ok(normalised);
  }

  // ---- Nothing but whitespace is lost ----

  predicate WellFormed(p: Pending) {
    p.chars != [] <==> p.start.Some?
  }

  lemma ConcatSingle(s: string)
    ensures Concat([s]) == s
  {
    assert [s][1..] == [];
  }

  lemma FlushConserves(p: Pending, scale: int)
    requires scale > 0 && WellFormed(p)
    ensures NonSpace(Concat(Texts(Flushed(p, scale)))) == NonSpace(Concat(p.chars))
  {
    NonSpaceStrip(Concat(p.chars));
    var texts := Texts(Flushed(p, scale));
    if Flushed(p, scale) != [] {
      assert texts == [Strip(Concat(p.chars))];
      ConcatSingle(Strip(Concat(p.chars)));
    } else {
      assert texts == [];
    }
  }

  lemma {:induction false} SpaceEntryVanishes(entry: string)
    requires forall i :: 0 <= i < |entry| ==> IsSpace(entry[i])
    ensures NonSpace(entry) == ""
  {
    if entry != "" { SpaceEntryVanishes(entry[1..]); }
  }

  lemma Regroup(a: string, b: string, c: string)
    ensures a + b + c == a + (b + c)
  {
  }

  lemma NonSpaceConcat(parts: seq<string>, more: seq<string>)
    ensures NonSpace(Concat(parts + more)) == NonSpace(Concat(parts)) + NonSpace(Concat(more))
  {
    ConcatAppend(parts, more);
    NonSpaceAppend(Concat(parts), Concat(more));
  }

  lemma TextsConcat(head: seq<Word>, rest: seq<Word>)
    ensures NonSpace(Concat(Texts(head + rest))) == NonSpace(Concat(Texts(head))) + NonSpace(Concat(Texts(rest)))
  {
    assert Texts(head + rest) == Texts(head) + Texts(rest);
    NonSpaceConcat(Texts(head), Texts(rest));
  }

  lemma PeelEntry(chars: seq<string>, i: nat)
    requires i < |chars|
    ensures NonSpace(Concat(chars[i..])) == NonSpace(chars[i]) + NonSpace(Concat(chars[i + 1..]))
  {
    assert chars[i..] == [chars[i]] + chars[i + 1..];
    ConcatSingle(chars[i]);
    NonSpaceConcat([chars[i]], chars[i + 1..]);
  }

  lemma SpaceConserves(p: Pending, scale: int, rest: seq<Word>, chars: seq<string>, i: nat)
    requires scale > 0 && WellFormed(p) && i < |chars| && IsSpaceEntry(chars[i])
    requires NonSpace(Concat(Texts(rest))) == "" + NonSpace(Concat(chars[i + 1..]))
    ensures NonSpace(Concat(Texts(Flushed(p, scale) + rest))) ==
      NonSpace(Concat(p.chars)) + NonSpace(Concat(chars[i..]))
  {
    FlushConserves(p, scale);
    TextsConcat(Flushed(p, scale), rest);
    PeelEntry(chars, i);
    SpaceEntryVanishes(chars[i]);
  }

  lemma ExtendedText(p: Pending, entry: string)
    ensures NonSpace(Concat(p.chars + [entry])) == NonSpace(Concat(p.chars)) + NonSpace(entry)
  {
    NonSpaceConcat(p.chars, [entry]);
    ConcatSingle(entry);
  }

  lemma {:induction false} WordsFromConserve(chars: seq<string>, starts: seq<int>, ends: seq<int>, scale: int, i: nat,
          p: Pending)
    requires SameLength(chars, starts, ends) && i <= |chars| && scale > 0 && WellFormed(p)
    ensures NonSpace(Concat(Texts(WordsFrom(chars, starts, ends, scale, i, p))))
         == NonSpace(Concat(p.chars)) + NonSpace(Concat(chars[i..]))
    decreases |chars| - i
  {
    if i == |chars| {
      FlushConserves(p, scale);
      assert NonSpace(Concat(chars[i..])) == "";
    } else if IsSpaceEntry(chars[i]) {
      WordsFromConserve(chars, starts, ends, scale, i + 1, NOTHING);
      SpaceConserves(p, scale, WordsFrom(chars, starts, ends, scale, i + 1, NOTHING), chars, i);
    } else {
      WordsFromConserve(chars, starts, ends, scale, i + 1, Extend(p, chars[i], starts[i], ends[i]));
      ExtendedText(p, chars[i]);
      PeelEntry(chars, i);
      Regroup(NonSpace(Concat(p.chars)), NonSpace(chars[i]), NonSpace(Concat(chars[i + 1..])));
    }
  }

  predicate Trimmed(text: string) {
    text != "" && !IsSpace(text[0]) && !IsSpace(text[|text| - 1])
  }

  lemma FlushTrims(p: Pending, scale: int)
    requires scale > 0
    ensures forall word :: word in Flushed(p, scale) ==> Trimmed(word.text)
  {
    var left, right := StripTrims(Concat(p.chars));
  }

  lemma {:induction false} WordsFromTrim(chars: seq<string>, starts: seq<int>, ends: seq<int>, scale: int, i: nat,
          p: Pending)
    requires SameLength(chars, starts, ends) && i <= |chars| && scale > 0
    ensures forall word :: word in WordsFrom(chars, starts, ends, scale, i, p) ==> Trimmed(word.text)
    decreases |chars| - i
  {
    FlushTrims(p, scale);
    if i < |chars| {
      WordsFromTrim(chars, starts, ends, scale, i + 1,
        if IsSpaceEntry(chars[i]) then NOTHING else Extend(p, chars[i], starts[i], ends[i]));
    }
  }

  /** For entries of any length no word is empty, or begins or ends with whitespace. */
  lemma AggregationTrims(chars: seq<string>, starts: seq<int>, ends: seq<int>, scale: int, k: nat)
    requires SameLength(chars, starts, ends) && scale > 0 && k < |Aggregated(chars, starts, ends, scale)|
    ensures Trimmed(Aggregated(chars, starts, ends, scale)[k].text)
  {
    var raw := WordsFrom(chars, starts, ends, scale, 0, NOTHING);
    WordsFromTrim(chars, starts, ends, scale, 0, NOTHING);
    MonotonicOrders(raw, 0);
    MonotonicLength(raw, 0);
    assert Texts(Monotonic(raw, 0))[k] == Texts(raw)[k];
    assert raw[k] in raw;
  }

  /** For any entries, the words hold exactly the non-space characters of the input, in order. */
  lemma AggregationConservesCharacters(chars: seq<string>, starts: seq<int>, ends: seq<int>, scale: int)
    requires SameLength(chars, starts, ends) && scale > 0
    ensures NonSpace(Concat(Texts(Aggregated(chars, starts, ends, scale)))) == NonSpace(Concat(chars))
  {
    WordsFromConserve(chars, starts, ends, scale, 0, NOTHING);
    MonotonicOrders(WordsFrom(chars, starts, ends, scale, 0, NOTHING), 0);
    assert chars[0..] == chars;
  }

  // ---- One character per entry: the words are the whitespace-separated tokens ----

  predicate SingleCharacters(chars: seq<string>) {
    forall i :: 0 <= i < |chars| ==> |chars[i]| == 1
  }

  lemma StripOfSpaceFree(s: string)
    requires SpaceFree(s)
    ensures Strip(s) == s
  {
  }

  lemma PeelSingle(chars: seq<string>, i: nat)
    requires i < |chars| && |chars[i]| == 1
    ensures chars[i] == [chars[i][0]] && (IsSpaceEntry(chars[i]) <==> IsSpace(chars[i][0]))
    ensures Concat(chars[i..]) != "" && Concat(chars[i..])[0] == chars[i][0]
    ensures Concat(chars[i..])[1..] == Concat(chars[i + 1..])
  {
    assert chars[i..][1..] == chars[i + 1..];
    assert (chars[i] + Concat(chars[i + 1..]))[1..] == Concat(chars[i + 1..]);
  }

  lemma {:induction false} WordsFromSplit(chars: seq<string>, starts: seq<int>, ends: seq<int>, scale: int, i: nat,
          p: Pending)
    requires SameLength(chars, starts, ends) && i <= |chars| && scale > 0 && WellFormed(p)
    requires SingleCharacters(chars) && SpaceFree(Concat(p.chars)) && (p.chars != [] ==> Concat(p.chars) != "")
    ensures Texts(WordsFrom(chars, starts, ends, scale, i, p)) == SplitFrom(Concat(chars[i..]), Concat(p.chars))
    decreases |chars| - i
  {
    StripOfSpaceFree(Concat(p.chars));
    assert Texts(Flushed(p, scale)) == Flush(Concat(p.chars));
    if i < |chars| {
      PeelSingle(chars, i);
      var c := chars[i][0];
      if IsSpace(c) {
        WordsFromSplit(chars, starts, ends, scale, i + 1, NOTHING);
        var head, rest := Flushed(p, scale), WordsFrom(chars, starts, ends, scale, i + 1, NOTHING);
        assert Texts(head + rest) == Texts(head) + Texts(rest);
      } else {
        ConcatAppend(p.chars, [chars[i]]);
        ConcatSingle(chars[i]);
        WordsFromSplit(chars, starts, ends, scale, i + 1, Extend(p, chars[i], starts[i], ends[i]));
      }
    }
  }

  lemma AggregationRefinesSplit(chars: seq<string>, starts: seq<int>, ends: seq<int>, scale: int)
    requires SameLength(chars, starts, ends) && scale > 0 && SingleCharacters(chars)
    ensures Texts(Aggregated(chars, starts, ends, scale)) == Split(Concat(chars))
  {
    WordsFromSplit(chars, starts, ends, scale, 0, NOTHING);
    MonotonicOrders(WordsFrom(chars, starts, ends, scale, 0, NOTHING), 0);
    assert chars[0..] == chars;
  }

  // ---- Timing of each word ----

  /** Entries `first` up to but excluding `end`. */
  datatype Run = Run(first: nat, end: nat)

  function Close(open: Option<nat>, i: nat): seq<Run> {
    if open.Some? then [Run(open.value, i)] else []
  }

  function RunsFrom(chars: seq<string>, i: nat, open: Option<nat>): seq<Run>
    requires i <= |chars|
    decreases |chars| - i
  {
    if i == |chars| then Close(open, i)
    else if IsSpaceEntry(chars[i]) then Close(open, i) + RunsFrom(chars, i + 1, None)
    else RunsFrom(chars, i + 1, if open.Some? then open else Some(i))
  }

  predicate Dense(chars: seq<string>, first: nat, end: nat)
    requires first <= end <= |chars|
  {
    forall k :: first <= k < end ==> !IsSpaceEntry(chars[k])
  }

  /** A run of non-space entries that cannot be extended on either side. */
  predicate IsMaximalRun(chars: seq<string>, r: Run) {
    && r.first < r.end <= |chars|
    && Dense(chars, r.first, r.end)
    && (r.first == 0 || IsSpaceEntry(chars[r.first - 1]))
    && (r.end == |chars| || IsSpaceEntry(chars[r.end]))
  }

  function OpenFrom(open: Option<nat>, i: nat): nat {
    if open.Some? then open.value else i
  }

  /** The runs are maximal, start at or after `from`, and are separated. */
  predicate AreMaximalRuns(chars: seq<string>, runs: seq<Run>, from: nat) {
    && (forall k :: 0 <= k < |runs| ==> IsMaximalRun(chars, runs[k]) && runs[k].first >= from)
    && (forall j, k :: 0 <= j < k < |runs| ==> runs[j].end < runs[k].first)
  }

  predicate InSomeRun(runs: seq<Run>, e: nat) {
    exists k :: 0 <= k < |runs| && runs[k].first <= e < runs[k].end
  }

  /** Every non-space entry at or after `from` is in a run. */
  predicate CoverEntries(chars: seq<string>, runs: seq<Run>, from: nat) {
    forall e :: from <= e < |chars| && !IsSpaceEntry(chars[e]) ==> InSomeRun(runs, e)
  }

  lemma MaximalPrepend(chars: seq<string>, r: Run, rest: seq<Run>)
    requires IsMaximalRun(chars, r) && AreMaximalRuns(chars, rest, r.end + 1)
    ensures AreMaximalRuns(chars, [r] + rest, r.first)
  {
    var runs := [r] + rest;
    forall k | 0 <= k < |runs|
      ensures IsMaximalRun(chars, runs[k]) && runs[k].first >= r.first
    {
      if k > 0 { assert runs[k] == rest[k - 1]; }
    }
  }

  lemma MaximalFromLater(chars: seq<string>, runs: seq<Run>, from: nat, later: nat)
    requires AreMaximalRuns(chars, runs, later) && from <= later
    ensures AreMaximalRuns(chars, runs, from)
  {
  }

  lemma {:induction false} RunsAreMaximal(chars: seq<string>, i: nat, open: Option<nat>)
    requires i <= |chars|
    requires open.Some? ==> open.value < i && Dense(chars, open.value, i)
    requires OpenFrom(open, i) == 0 || IsSpaceEntry(chars[OpenFrom(open, i) - 1])
    ensures AreMaximalRuns(chars, RunsFrom(chars, i, open), OpenFrom(open, i))
    decreases |chars| - i
  {
    if i == |chars| {
      if open.Some? { MaximalPrepend(chars, Run(open.value, i), []); }
    } else if IsSpaceEntry(chars[i]) {
      RunsAreMaximal(chars, i + 1, None);
      var rest := RunsFrom(chars, i + 1, None);
      if open.Some? {
        MaximalPrepend(chars, Run(open.value, i), rest);
        assert RunsFrom(chars, i, open) == [Run(open.value, i)] + rest;
      } else {
        MaximalFromLater(chars, rest, i, i + 1);
        assert RunsFrom(chars, i, open) == rest;
      }
    } else {
      RunsAreMaximal(chars, i + 1, if open.Some? then open else Some(i));
    }
  }

  lemma CoverPrepend(chars: seq<string>, r: Run, rest: seq<Run>, from: nat)
    requires CoverEntries(chars, rest, from) && r.end <= from <= |chars|
    requires forall e :: r.end <= e < from ==> IsSpaceEntry(chars[e])
    ensures CoverEntries(chars, [r] + rest, r.first)
  {
    forall e | r.first <= e < |chars| && !IsSpaceEntry(chars[e])
      ensures InSomeRun([r] + rest, e)
    {
      if e < r.end {
        assert ([r] + rest)[0] == r;
      } else {
        assert InSomeRun(rest, e);
        var k :| 0 <= k < |rest| && rest[k].first <= e < rest[k].end;
        assert ([r] + rest)[k + 1] == rest[k];
      }
    }
  }

  lemma {:induction false} RunsCoverEntries(chars: seq<string>, i: nat, open: Option<nat>)
    requires i <= |chars| && (open.Some? ==> open.value < i)
    ensures CoverEntries(chars, RunsFrom(chars, i, open), OpenFrom(open, i))
    decreases |chars| - i
  {
    if i == |chars| {
      if open.Some? { CoverPrepend(chars, Run(open.value, i), [], i); }
    } else if IsSpaceEntry(chars[i]) {
      RunsCoverEntries(chars, i + 1, None);
      if open.Some? {
        CoverPrepend(chars, Run(open.value, i), RunsFrom(chars, i + 1, None), i + 1);
      } else {
        assert RunsFrom(chars, i, open) == RunsFrom(chars, i + 1, None);
      }
    } else {
      RunsCoverEntries(chars, i + 1, if open.Some? then open else Some(i));
    }
  }

  /** A word runs from the rounded start of its first character to the rounded end of its last one. */
  function WordOfRun(chars: seq<string>, starts: seq<int>, ends: seq<int>, scale: int, r: Run): Word
    requires SameLength(chars, starts, ends) && scale > 0 && r.first < r.end <= |chars|
  {
    Word(Concat(chars[r.first..r.end]), Millis(starts[r.first], scale), Millis(ends[r.end - 1], scale))
  }

  function PendingAt(chars: seq<string>, starts: seq<int>, ends: seq<int>, i: nat, open: Option<nat>): Pending
    requires SameLength(chars, starts, ends) && i <= |chars| && (open.Some? ==> open.value < i)
  {
    if open.Some? then Pending(chars[open.value..i], Some(starts[open.value]), ends[i - 1]) else NOTHING
  }

  lemma {:induction false} DenseText(chars: seq<string>, first: nat, end: nat)
    requires first <= end <= |chars| && SingleCharacters(chars) && Dense(chars, first, end)
    ensures SpaceFree(Concat(chars[first..end])) && |Concat(chars[first..end])| == end - first
    decreases end - first
  {
    if first < end {
      assert chars[first..end][1..] == chars[first + 1..end];
      DenseText(chars, first + 1, end);
      assert !IsSpaceEntry(chars[first]);
    }
  }

  lemma FlushOfRun(chars: seq<string>, starts: seq<int>, ends: seq<int>, scale: int, i: nat, open: Option<nat>)
    requires SameLength(chars, starts, ends) && scale > 0 && SingleCharacters(chars) && i <= |chars|
    requires open.Some? ==> open.value < i && Dense(chars, open.value, i)
    ensures Flushed(PendingAt(chars, starts, ends, i, open), scale)
         == if open.Some? then [WordOfRun(chars, starts, ends, scale, Run(open.value, i))] else []
  {
    if open.Some? {
      DenseText(chars, open.value, i);
      StripOfSpaceFree(Concat(chars[open.value..i]));
    }
  }

  /** Word for word, the words are those of the runs. */
  predicate TimedByRuns(words: seq<Word>, runs: seq<Run>, chars: seq<string>, starts: seq<int>, ends: seq<int>,
          scale: int)
    requires SameLength(chars, starts, ends) && scale > 0
  {
    && |words| == |runs|
    && forall k :: 0 <= k < |runs| ==>
      runs[k].first < runs[k].end <= |chars| && words[k] == WordOfRun(chars, starts, ends, scale, runs[k])
  }

  lemma TimedPrepend(words: seq<Word>, runs: seq<Run>, chars: seq<string>, starts: seq<int>, ends: seq<int>, scale: int,
          r: Run)
    requires SameLength(chars, starts, ends) && scale > 0 && r.first < r.end <= |chars|
    requires TimedByRuns(words, runs, chars, starts, ends, scale)
    ensures TimedByRuns([WordOfRun(chars, starts, ends, scale, r)] + words, [r] + runs, chars, starts, ends, scale)
  {
  }

  lemma EmptyPrefix<T>(s: seq<T>)
    ensures [] + s == s
  {
  }

  lemma SpaceEndsRun(chars: seq<string>, starts: seq<int>, ends: seq<int>, scale: int, i: nat, open: Option<nat>)
    requires SameLength(chars, starts, ends) && scale > 0 && SingleCharacters(chars) && i < |chars| &&
      IsSpaceEntry(chars[i])
    requires open.Some? ==> open.value < i && Dense(chars, open.value, i)
    requires TimedByRuns(WordsFrom(chars, starts, ends, scale, i + 1, NOTHING), RunsFrom(chars, i + 1, None), chars,
      starts, ends, scale)
    ensures TimedByRuns(WordsFrom(chars, starts, ends, scale, i, PendingAt(chars, starts, ends, i, open)),
                        RunsFrom(chars, i, open), chars, starts, ends, scale)
  {
    FlushOfRun(chars, starts, ends, scale, i, open);
    var words, runs := WordsFrom(chars, starts, ends, scale, i + 1, NOTHING), RunsFrom(chars, i + 1, None);
    if open.Some? {
      TimedPrepend(words, runs, chars, starts, ends, scale, Run(open.value, i));
    } else {
      EmptyPrefix(words);
      EmptyPrefix(runs);
    }
  }

  lemma PendingGrows(chars: seq<string>, starts: seq<int>, ends: seq<int>, i: nat, open: Option<nat>)
    requires SameLength(chars, starts, ends) && i < |chars| && (open.Some? ==> open.value < i)
    ensures PendingAt(chars, starts, ends, i + 1, if open.Some? then open else Some(i))
         == Extend(PendingAt(chars, starts, ends, i, open), chars[i], starts[i], ends[i])
  {
  }

  lemma {:induction false} WordsFromRuns(chars: seq<string>, starts: seq<int>, ends: seq<int>, scale: int, i: nat,
          open: Option<nat>)
    requires SameLength(chars, starts, ends) && scale > 0 && SingleCharacters(chars) && i <= |chars|
    requires open.Some? ==> open.value < i && Dense(chars, open.value, i)
    ensures TimedByRuns(WordsFrom(chars, starts, ends, scale, i, PendingAt(chars, starts, ends, i, open)),
                        RunsFrom(chars, i, open), chars, starts, ends, scale)
    decreases |chars| - i
  {
    FlushOfRun(chars, starts, ends, scale, i, open);
    if i == |chars| {
    } else if IsSpaceEntry(chars[i]) {
      WordsFromRuns(chars, starts, ends, scale, i + 1, None);
      SpaceEndsRun(chars, starts, ends, scale, i, open);
    } else {
      var open' := if open.Some? then open else Some(i);
      PendingGrows(chars, starts, ends, i, open);
      WordsFromRuns(chars, starts, ends, scale, i + 1, open');
    }
  }

  /** Non-negative times that never go back. */
  predicate Chronological(starts: seq<int>, ends: seq<int>)
    requires |starts| == |ends|
  {
    && (forall i :: 0 <= i < |starts| ==> 0 <= starts[i] <= ends[i])
    && (forall i, j :: 0 <= i < j < |starts| ==> ends[i] <= starts[j])
  }

  lemma MillisMonotone(x: int, y: int, scale: int)
    requires scale > 0 && x <= y
    ensures Millis(x, scale) <= Millis(y, scale)
    ensures 0 <= x ==> 0 <= Millis(x, scale)
  {
    RoundMonotone(x * 1000, y * 1000, scale);
    if 0 <= x { RoundAtLeast(x * 1000, scale, 0); }
  }

  /** Word k runs from the start of its run's first character to the end of its last one, to the nearest millisecond. */
  predicate NearestMillis(words: seq<Word>, runs: seq<Run>, starts: seq<int>, ends: seq<int>, scale: int)
    requires scale > 0 && |words| == |runs| && |starts| == |ends|
    requires forall k :: 0 <= k < |runs| ==> runs[k].first < runs[k].end <= |starts|
  {
    forall k :: 0 <= k < |runs| ==>
      && IsNearestEven(starts[runs[k].first] * 1000, scale, words[k].startMs)
      && IsNearestEven(ends[runs[k].end - 1] * 1000, scale, words[k].endMs)
  }

  lemma RunsAreNearest(words: seq<Word>, runs: seq<Run>, chars: seq<string>, starts: seq<int>, ends: seq<int>,
          scale: int)
    requires SameLength(chars, starts, ends) && scale > 0 && TimedByRuns(words, runs, chars, starts, ends, scale)
    ensures NearestMillis(words, runs, starts, ends, scale)
  {
    forall k | 0 <= k < |runs|
      ensures IsNearestEven(starts[runs[k].first] * 1000, scale, words[k].startMs)
      ensures IsNearestEven(ends[runs[k].end - 1] * 1000, scale, words[k].endMs)
    {
      RoundIsNearestEven(starts[runs[k].first] * 1000, scale);
      RoundIsNearestEven(ends[runs[k].end - 1] * 1000, scale);
    }
  }

  /** With chronological times there is one word per maximal run, timed by the run's first and last character. */
  lemma AggregationTimesRuns(chars: seq<string>, starts: seq<int>, ends: seq<int>, scale: int)
    requires SameLength(chars, starts, ends) && scale > 0 && SingleCharacters(chars) && Chronological(starts, ends)
    ensures
      var runs := RunsFrom(chars, 0, None);
      var words := Aggregated(chars, starts, ends, scale);
      && AreMaximalRuns(chars, runs, 0) && CoverEntries(chars, runs, 0)
      && TimedByRuns(words, runs, chars, starts, ends, scale)
      && NearestMillis(words, runs, starts, ends, scale)
  {
    var runs := RunsFrom(chars, 0, None);
    RunsAreMaximal(chars, 0, None);
    RunsCoverEntries(chars, 0, None);
    WordsFromRuns(chars, starts, ends, scale, 0, None);
    var raw := WordsFrom(chars, starts, ends, scale, 0, NOTHING);
    forall k | 0 <= k < |raw|
      ensures EndBefore(raw, 0, k) <= raw[k].startMs <= raw[k].endMs
    {
      var r := runs[k];
      assert starts[r.first] <= ends[r.end - 1];
      MillisMonotone(starts[r.first], ends[r.end - 1], scale);
      if k > 0 {
        assert runs[k - 1].end < r.first;
        MillisMonotone(ends[runs[k - 1].end - 1], starts[r.first], scale);
      }
    }
    OrderedIsFixed(raw, 0);
    RunsAreNearest(raw, runs, chars, starts, ends, scale);
  }

  // ---- Polly speech marks ----

  datatype Mark = Mark(time: Option<int>, value: string)

  function TimeOf(m: Mark): int {
    if m.time.Some? then m.time.value else 0
  }

  predicate ByTime(marks: seq<Mark>) {
    forall i, j :: 0 <= i < j < |marks| ==> TimeOf(marks[i]) <= TimeOf(marks[j])
  }

  function InsertMark(m: Mark, ordered: seq<Mark>): seq<Mark> {
    if ordered == [] || TimeOf(m) <= TimeOf(ordered[0]) then [m] + ordered
    else [ordered[0]] + InsertMark(m, ordered[1..])
  }

  /** Python's stable `sorted` by time. */
  function SortMarks(marks: seq<Mark>): seq<Mark> {
    if marks == [] then [] else InsertMark(marks[0], SortMarks(marks[1..]))
  }

  lemma {:induction false} InsertMarkKeeps(m: Mark, ordered: seq<Mark>)
    ensures multiset(InsertMark(m, ordered)) == multiset{m} + multiset(ordered)
  {
    if !(ordered == [] || TimeOf(m) <= TimeOf(ordered[0])) {
      InsertMarkKeeps(m, ordered[1..]);
      assert ordered == [ordered[0]] + ordered[1..];
    }
  }

  lemma {:induction false} InsertMarkSorts(m: Mark, ordered: seq<Mark>)
    requires ByTime(ordered)
    ensures ByTime(InsertMark(m, ordered))
  {
    if !(ordered == [] || TimeOf(m) <= TimeOf(ordered[0])) {
      var rest := InsertMark(m, ordered[1..]);
      InsertMarkSorts(m, ordered[1..]);
      InsertMarkKeeps(m, ordered[1..]);
      forall j | 0 <= j < |rest|
        ensures TimeOf(ordered[0]) <= TimeOf(rest[j])
      {
        assert rest[j] in multiset(rest);
        assert rest[j] == m || rest[j] in ordered[1..];
      }
    }
  }

  /** The marks with this time, in the order they come. */
  function WithTime(marks: seq<Mark>, t: int): seq<Mark> {
    if marks == [] then []
    else (if TimeOf(marks[0]) == t then [marks[0]] else []) + WithTime(marks[1..], t)
  }

  /** `t` is later than the first mark, so the first mark is not among those with time `t`. */
  lemma EarlierHasNone(ordered: seq<Mark>, t: int)
    requires ordered != [] && TimeOf(ordered[0]) < t
    ensures WithTime(ordered, t) == WithTime(ordered[1..], t)
  {
  }

  lemma {:induction false} InsertMarkStable(m: Mark, ordered: seq<Mark>, t: int)
    requires ByTime(ordered)
    ensures WithTime(InsertMark(m, ordered), t) == (if TimeOf(m) == t then [m] else []) + WithTime(ordered, t)
  {
    if ordered == [] || TimeOf(m) <= TimeOf(ordered[0]) {
      assert ([m] + ordered)[1..] == ordered;
    } else {
      InsertMarkStable(m, ordered[1..], t);
      assert InsertMark(m, ordered)[1..] == InsertMark(m, ordered[1..]);
      if TimeOf(m) == t { EarlierHasNone(ordered, t); }
    }
  }

  /** The sort orders the marks by time, loses none, and keeps those with equal times in their order. */
  lemma {:induction false} SortMarksSorts(marks: seq<Mark>)
    ensures ByTime(SortMarks(marks)) && multiset(SortMarks(marks)) == multiset(marks)
    ensures forall t :: WithTime(SortMarks(marks), t) == WithTime(marks, t)
  {
    if marks != [] {
      SortMarksSorts(marks[1..]);
      InsertMarkSorts(marks[0], SortMarks(marks[1..]));
      InsertMarkKeeps(marks[0], SortMarks(marks[1..]));
      assert marks == [marks[0]] + marks[1..];
      forall t ensures WithTime(SortMarks(marks), t) == WithTime(marks, t) {
        InsertMarkStable(marks[0], SortMarks(marks[1..]), t);
      }
    }
  }

  /** A word lasts until the next mark; the last one lasts 70 ms per character. */
  function MarkEnd(ordered: seq<Mark>, i: nat): int
    requires i < |ordered|
  {
    var start := TimeOf(ordered[i]);
    if i + 1 < |ordered| then
      Max(if ordered[i + 1].time.Some? then ordered[i + 1].time.value else start, start)
    else start + Max(1, |Strip(ordered[i].value)| * 70)
  }

  function MarkWords(ordered: seq<Mark>, count: nat): seq<Word>
    requires count <= |ordered|
  {
    if count == 0 then []
    else
      var before := MarkWords(ordered, count - 1);
      var m := ordered[count - 1];
      if Strip(m.value) == "" then before
      else before + [Word(Strip(m.value), TimeOf(m), MarkEnd(ordered, count - 1))]
  }

  function MarkAlignment(marks: seq<Mark>): Option<seq<Word>> {
    var words := MarkWords(SortMarks(marks), |SortMarks(marks)|);
    if words == [] then None else Some(Monotonic(words, 0))
  }

  method MarksToAlignment(marks: seq<Mark>) returns (r: Option<seq<Word>>)
    ensures r == MarkAlignment(marks)
  {
    if marks == [] {
      return None;
    }
    var words: seq<Word> := [];
    var ordered := SortMarks(marks);
    for i := 0 to |ordered|
      invariant words == MarkWords(ordered, i)
    {
      var value := Strip(ordered[i].value);
      if value == "" {
        continue;
      }
      var start := TimeOf(ordered[i]);
      var end;
      if i + 1 < |ordered| {
        end := if ordered[i + 1].time.Some? then ordered[i + 1].time.value else start;
      } else {
        end := start + Max(1, |value| * 70);
      }
      if end < start {
        end := start;
      }
      words := words + [Word(value, start, end)];
    }
    if words == [] {
      return None;
    }
    var normalised := EnforceMonotonic(words);
    return Some(normalised);
  }

  lemma OrderedSnoc(words: seq<Word>, from: int, word: Word)
    requires Ordered(words, from) && EndBefore(words, from, |words|) <= word.startMs <= word.endMs
    ensures Ordered(words + [word], from)
  {
    var longer := words + [word];
    forall i | 0 <= i < |longer|
      ensures EndBefore(longer, from, i) <= longer[i].startMs <= longer[i].endMs
    {
      assert EndBefore(longer, from, i) == EndBefore(words, from, i);
    }
  }

  lemma {:induction false} MarkWordsOrdered(ordered: seq<Mark>, count: nat)
    requires count <= |ordered| && ByTime(ordered)
    requires forall i :: 0 <= i < |ordered| ==> 0 <= TimeOf(ordered[i])
    ensures Ordered(MarkWords(ordered, count), 0)
    ensures count < |ordered| ==>
      EndBefore(MarkWords(ordered, count), 0, |MarkWords(ordered, count)|) <= TimeOf(ordered[count])
  {
    if count > 0 {
      MarkWordsOrdered(ordered, count - 1);
      var m := ordered[count - 1];
      if Strip(m.value) != "" {
        OrderedSnoc(MarkWords(ordered, count - 1), 0, Word(Strip(m.value), TimeOf(m), MarkEnd(ordered, count - 1)));
      }
    }
  }

  lemma SortedTimesNotNegative(marks: seq<Mark>)
    requires forall k :: 0 <= k < |marks| ==> 0 <= TimeOf(marks[k])
    ensures forall k :: 0 <= k < |SortMarks(marks)| ==> 0 <= TimeOf(SortMarks(marks)[k])
  {
    SortMarksSorts(marks);
    var ordered := SortMarks(marks);
    forall k | 0 <= k < |ordered| ensures 0 <= TimeOf(ordered[k]) {
      assert ordered[k] in multiset(ordered);
      assert ordered[k] in multiset(marks);
    }
  }

  /** Marks with non-negative times give an ordered timeline as they are: sorting alone makes the closing pass idle. */
  lemma SortedMarksNeedNoPass(marks: seq<Mark>)
    requires forall i :: 0 <= i < |marks| ==> 0 <= TimeOf(marks[i])
    ensures
      var words := MarkWords(SortMarks(marks), |SortMarks(marks)|);
      Monotonic(words, 0) == words
  {
    SortMarksSorts(marks);
    SortedTimesNotNegative(marks);
    var ordered := SortMarks(marks);
    MarkWordsOrdered(ordered, |ordered|);
    OrderedIsFixed(MarkWords(ordered, |ordered|), 0);
  }

  /** How many of the first `n` marks have text. */
  function Spoken(ordered: seq<Mark>, n: nat): nat
    requires n <= |ordered|
  {
    if n == 0 then 0 else Spoken(ordered, n - 1) + (if Strip(ordered[n - 1].value) == "" then 0 else 1)
  }

  /** When a mark's word ends: at the next mark, blank or not; the last one after 70 ms per character, 1 ms at least. */
  predicate EndsWithNext(ordered: seq<Mark>, i: nat, end: int)
    requires i < |ordered|
  {
    if i + 1 < |ordered| then end == TimeOf(ordered[i + 1])
    else end == TimeOf(ordered[i]) + Max(1, 70 * |Strip(ordered[i].value)|)
  }

  /** The word of a mark: its stripped text, from its time on. */
  predicate IsWordOfMark(word: Word, ordered: seq<Mark>, i: nat)
    requires i < |ordered|
  {
    && word.text == Strip(ordered[i].value) && word.startMs == TimeOf(ordered[i])
    && EndsWithNext(ordered, i, word.endMs)
  }

  lemma MarkEndsWithNext(ordered: seq<Mark>, i: nat)
    requires i < |ordered| && ByTime(ordered) && forall k :: 0 <= k < |ordered| ==> 0 <= TimeOf(ordered[k])
    ensures IsWordOfMark(Word(Strip(ordered[i].value), TimeOf(ordered[i]), MarkEnd(ordered, i)), ordered, i)
  {
    if i + 1 < |ordered| { assert TimeOf(ordered[i]) <= TimeOf(ordered[i + 1]); }
  }

  lemma MarkWordAdded(ordered: seq<Mark>, n: nat)
    requires n < |ordered| && Strip(ordered[n].value) != ""
    ensures MarkWords(ordered, n + 1)
         == MarkWords(ordered, n) + [Word(Strip(ordered[n].value), TimeOf(ordered[n]), MarkEnd(ordered, n))]
  {
  }

  lemma MarkWordsGrow(ordered: seq<Mark>, n: nat)
    requires n < |ordered|
    ensures MarkWords(ordered, n) <= MarkWords(ordered, n + 1)
  {
  }

  lemma {:induction false} MarkWordsCount(ordered: seq<Mark>, n: nat)
    requires n <= |ordered|
    ensures |MarkWords(ordered, n)| == Spoken(ordered, n)
  {
    if n > 0 { MarkWordsCount(ordered, n - 1); }
  }

  lemma {:induction false} MarkWordAt(ordered: seq<Mark>, n: nat, i: nat)
    requires i < n <= |ordered| && Strip(ordered[i].value) != "" && ByTime(ordered)
    requires forall k :: 0 <= k < |ordered| ==> 0 <= TimeOf(ordered[k])
    ensures Spoken(ordered, i) < |MarkWords(ordered, n)|
    ensures IsWordOfMark(MarkWords(ordered, n)[Spoken(ordered, i)], ordered, i)
    decreases n
  {
    if i < n - 1 {
      MarkWordAt(ordered, n - 1, i);
      MarkWordsGrow(ordered, n - 1);
    } else {
      MarkWordsCount(ordered, i);
      MarkWordAdded(ordered, i);
      MarkEndsWithNext(ordered, i);
    }
  }

  /**
   * The result for marks at non-negative times: none exactly when no mark has text, else one word per mark with text in
   * the order of time. It is the stripped text, starts at its mark's time, and ends at the time of the next mark.
   */
  lemma WordsOfMarks(marks: seq<Mark>, i: nat)
    requires forall k :: 0 <= k < |marks| ==> 0 <= TimeOf(marks[k])
    requires i < |SortMarks(marks)|
    ensures MarkAlignment(marks).None? <==> Spoken(SortMarks(marks), |SortMarks(marks)|) == 0
    ensures
      var ordered, r := SortMarks(marks), MarkAlignment(marks);
      Strip(ordered[i].value) != "" ==>
        && r.Some? && |r.value| == Spoken(ordered, |ordered|) && Spoken(ordered, i) < |r.value|
        && IsWordOfMark(r.value[Spoken(ordered, i)], ordered, i)
  {
    var ordered := SortMarks(marks);
    SortMarksSorts(marks);
    SortedTimesNotNegative(marks);
    SortedMarksNeedNoPass(marks);
    MarkWordsCount(ordered, |ordered|);
    if Strip(ordered[i].value) != "" { MarkWordAt(ordered, |ordered|, i); }
  }

  lemma {:induction false} AllSpoken(ordered: seq<Mark>, n: nat)
    requires n <= |ordered| && forall k :: 0 <= k < |ordered| ==> Strip(ordered[k].value) != ""
    ensures Spoken(ordered, n) == n
  {
    if n > 0 { AllSpoken(ordered, n - 1); }
  }

  /** The words of these marks, one each, in their order. */
  predicate WordPerMark(words: seq<Word>, ordered: seq<Mark>) {
    && |words| == |ordered|
    && forall i :: 0 <= i < |ordered| ==> IsWordOfMark(words[i], ordered, i)
  }

  /** A word that starts at its mark, and ends no earlier. */
  lemma WordOfMarkForward(word: Word, ordered: seq<Mark>, i: nat)
    requires i < |ordered| && ByTime(ordered) && IsWordOfMark(word, ordered, i)
    ensures word.startMs == TimeOf(ordered[i]) <= word.endMs
    ensures word.endMs == if i + 1 < |ordered| then TimeOf(ordered[i + 1])
                          else TimeOf(ordered[i]) + Max(1, 70 * |Strip(ordered[i].value)|)
  {
    if i + 1 < |ordered| { assert TimeOf(ordered[i]) <= TimeOf(ordered[i + 1]); }
  }

  lemma WordPerMarkTiles(words: seq<Word>, ordered: seq<Mark>)
    requires ordered != [] && ByTime(ordered) && WordPerMark(words, ordered)
    ensures
      var last := ordered[|ordered| - 1];
      Tiles(words, TimeOf(ordered[0]), TimeOf(last) + Max(1, 70 * |Strip(last.value)|))
  {
    forall i | 0 <= i < |words|
      ensures words[i].startMs == EndBefore(words, TimeOf(ordered[0]), i) <= words[i].endMs
    {
      WordOfMarkForward(words[i], ordered, i);
      if i > 0 { WordOfMarkForward(words[i - 1], ordered, i - 1); }
    }
    WordOfMarkForward(words[|words| - 1], ordered, |words| - 1);
  }

  /** Every mark has a time of at least 0, and text. */
  predicate TimedTexts(marks: seq<Mark>) {
    forall k :: 0 <= k < |marks| ==>
      marks[k].time.Some? && marks[k].time.value >= 0 && Strip(marks[k].value) != ""
  }

  lemma SortKeepsTimedTexts(marks: seq<Mark>)
    requires TimedTexts(marks)
    ensures |SortMarks(marks)| == |marks| && TimedTexts(SortMarks(marks))
  {
    var ordered := SortMarks(marks);
    SortMarksSorts(marks);
    assert |multiset(ordered)| == |multiset(marks)|;
    forall k | 0 <= k < |ordered|
      ensures ordered[k].time.Some? && ordered[k].time.value >= 0 && Strip(ordered[k].value) != ""
    {
      assert ordered[k] in multiset(ordered);
      assert ordered[k] in multiset(marks);
    }
  }

  lemma MarksGiveWords(marks: seq<Mark>)
    requires marks != [] && TimedTexts(marks)
    ensures MarkAlignment(marks).Some? && WordPerMark(MarkAlignment(marks).value, SortMarks(marks))
  {
    var ordered := SortMarks(marks);
    SortKeepsTimedTexts(marks);
    AllSpoken(ordered, |ordered|);
    WordsOfMarks(marks, 0);
    var words := MarkAlignment(marks).value;
    forall i | 0 <= i < |ordered|
      ensures IsWordOfMark(words[i], ordered, i)
    {
      AllSpoken(ordered, i);
      WordsOfMarks(marks, i);
    }
  }

  /**
   * When every mark has a time and text, the words are the marks in order of time, and run without gaps from the first
   * time to the last time plus the length of the last word.
   */
  lemma MarksTile(marks: seq<Mark>)
    requires marks != [] && TimedTexts(marks)
    ensures |SortMarks(marks)| == |marks| && MarkAlignment(marks).Some?
    ensures WordPerMark(MarkAlignment(marks).value, SortMarks(marks))
    ensures
      var first, last := SortMarks(marks)[0], SortMarks(marks)[|marks| - 1];
      Tiles(MarkAlignment(marks).value, TimeOf(first), TimeOf(last) + Max(1, 70 * |Strip(last.value)|))
  {
    SortMarksSorts(marks);
    SortKeepsTimedTexts(marks);
    MarksGiveWords(marks);
    WordPerMarkTiles(MarkAlignment(marks).value, SortMarks(marks));
  }
}

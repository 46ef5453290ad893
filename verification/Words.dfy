/** Timed words and the closing monotonic pass shared by the aligner and the synthesizers. */
module Words {
  import opened Rounding

  datatype Word = Word(text: string, startMs: int, endMs: int)

  /** Where the word before the i-th one ends; `from` when there is none. */
  function EndBefore(words: seq<Word>, from: int, i: nat): int
    requires i <= |words|
  {
    if i == 0 then from else words[i - 1].endMs
  }

  /** One non-overlapping timeline starting no earlier than `from`. */
  predicate Ordered(words: seq<Word>, from: int) {
    forall i :: 0 <= i < |words| ==> EndBefore(words, from, i) <= words[i].startMs <= words[i].endMs
  }

  /** Contiguous words from `from` to exactly `end`, none of negative length. */
  predicate Tiles(words: seq<Word>, from: int, end: int) {
    && words != [] && words[|words| - 1].endMs == end
    && forall i :: 0 <= i < |words| ==> words[i].startMs == EndBefore(words, from, i) <= words[i].endMs
  }

  /** Every time of `high` is at least the corresponding time of `low`. */
  predicate AtLeast(high: seq<Word>, low: seq<Word>) {
    && |high| == |low|
    && forall i :: 0 <= i < |high| ==> high[i].startMs >= low[i].startMs && high[i].endMs >= low[i].endMs
  }

  function Texts(words: seq<Word>): seq<string> {
    seq(|words|, i requires 0 <= i < |words| => words[i].text)
  }

  /** The monotonic pass, started with `prevEnd`. */
  function Monotonic(words: seq<Word>, prevEnd: int): seq<Word> {
    if words == [] then []
    else
      var start := Max(words[0].startMs, prevEnd);
      var end := Max(words[0].endMs, start);
      [Word(words[0].text, start, end)] + Monotonic(words[1..], end)
  }

  method EnforceMonotonic(words: seq<Word>) returns (out: seq<Word>)
    ensures out == Monotonic(words, 0)
  {
    out := [];
    var prevEnd := 0;
    for i := 0 to |words|
      invariant out + Monotonic(words[i..], prevEnd) == Monotonic(words, 0)
    {
      assert words[i..][1..] == words[i + 1..];
      var start := Max(words[i].startMs, prevEnd);
      var end := Max(words[i].endMs, start);
      out := out + [Word(words[i].text, start, end)];
      prevEnd := end;
    }
  }

  lemma {:induction false} OrderedEnds(words: seq<Word>, from: int, i: nat, j: nat)
    requires Ordered(words, from) && i <= j < |words|
    ensures words[i].startMs <= words[i].endMs <= words[j].endMs
    ensures from <= words[i].startMs
    decreases j
  {
    assert EndBefore(words, from, j) <= words[j].startMs <= words[j].endMs;
    if i < j { OrderedEnds(words, from, i, j - 1); }
    else if i > 0 { OrderedEnds(words, from, i - 1, j - 1); }
  }

  // ---- The pass is a running maximum ----

  /** start0, end0, start1, end1, ... */
  function Times(words: seq<Word>): seq<int> {
    if words == [] then [] else [words[0].startMs, words[0].endMs] + Times(words[1..])
  }

  function Peak(times: seq<int>, base: int): int {
    if times == [] then base else Peak(times[1..], Max(base, times[0]))
  }

  lemma {:induction false} TimesLength(words: seq<Word>)
    ensures |Times(words)| == 2 * |words|
  {
    if words != [] { TimesLength(words[1..]); }
  }

  lemma {:induction false} MonotonicLength(words: seq<Word>, prevEnd: int)
    ensures |Monotonic(words, prevEnd)| == |words|
  {
    if words != [] {
      var s := Max(words[0].startMs, prevEnd);
      MonotonicLength(words[1..], Max(words[0].endMs, s));
    }
  }

  /** The k-th time of the result is the largest of `prevEnd` and the first k+1 times of the input. */
  lemma {:induction false} MonotonicIsRunningMaximum(words: seq<Word>, prevEnd: int, k: nat)
    requires k < 2 * |words|
    ensures |Times(words)| == |Times(Monotonic(words, prevEnd))| == 2 * |words|
    ensures Times(Monotonic(words, prevEnd))[k] == Peak(Times(words)[..k + 1], prevEnd)
  {
    TimesLength(words);
    MonotonicLength(words, prevEnd);
    TimesLength(Monotonic(words, prevEnd));
    var out := Monotonic(words, prevEnd);
    var start := Max(words[0].startMs, prevEnd);
    var end := Max(words[0].endMs, start);
    assert out[1..] == Monotonic(words[1..], end);
    var prefix := Times(words)[..k + 1];
    if k == 0 {
      assert prefix == [words[0].startMs];
    } else if k == 1 {
      assert prefix == [words[0].startMs, words[0].endMs];
      assert prefix[1..] == [words[0].endMs] && prefix[1..][1..] == [];
      assert Peak(prefix, prevEnd) == Peak(prefix[1..], start) == end;
    } else {
      MonotonicIsRunningMaximum(words[1..], end, k - 2);
      assert prefix[1..][1..] == Times(words[1..])[..k - 1];
      assert Times(out)[k] == Times(out[1..])[k - 2];
    }
  }

  // ---- The pass is a closure operator ----

  lemma {:induction false} MonotonicOrders(words: seq<Word>, prevEnd: int)
    ensures Ordered(Monotonic(words, prevEnd), prevEnd)
    ensures AtLeast(Monotonic(words, prevEnd), words)
    ensures Texts(Monotonic(words, prevEnd)) == Texts(words)
  {
    MonotonicLength(words, prevEnd);
    if words != [] {
      var start := Max(words[0].startMs, prevEnd);
      var end := Max(words[0].endMs, start);
      MonotonicOrders(words[1..], end);
      var out, rest := Monotonic(words, prevEnd), Monotonic(words[1..], end);
      forall i | 0 <= i < |out|
        ensures EndBefore(out, prevEnd, i) <= out[i].startMs <= out[i].endMs
        ensures out[i].startMs >= words[i].startMs && out[i].endMs >= words[i].endMs
        ensures out[i].text == words[i].text
      {
        if i > 0 {
          assert out[i] == rest[i - 1] && words[i] == words[1..][i - 1];
          assert Texts(rest)[i - 1] == Texts(words[1..])[i - 1];
          if i > 1 { assert out[i - 1] == rest[i - 2]; }
        }
      }
    }
  }

  /** No ordered timeline above the input lies below the result anywhere. */
  lemma {:induction false} MonotonicIsLeast(words: seq<Word>, prevEnd: int, other: seq<Word>)
    requires Ordered(other, prevEnd) && AtLeast(other, words)
    ensures AtLeast(other, Monotonic(words, prevEnd))
  {
    MonotonicLength(words, prevEnd);
    if words != [] {
      var start := Max(words[0].startMs, prevEnd);
      var end := Max(words[0].endMs, start);
      assert other[0].startMs >= words[0].startMs && other[0].endMs >= words[0].endMs;
      assert EndBefore(other, prevEnd, 0) == prevEnd;
      var rest := Monotonic(words[1..], end);
      forall i | 0 <= i < |other[1..]|
        ensures EndBefore(other[1..], end, i) <= other[1..][i].startMs <= other[1..][i].endMs
      {
        assert other[1..][i] == other[i + 1];
        assert EndBefore(other, prevEnd, i + 1) == other[i].endMs;
      }
      MonotonicIsLeast(words[1..], end, other[1..]);
      forall i | 0 <= i < |other|
        ensures other[i].startMs >= Monotonic(words, prevEnd)[i].startMs
        ensures other[i].endMs >= Monotonic(words, prevEnd)[i].endMs
      {
        if i > 0 { assert other[i] == other[1..][i - 1]; }
      }
    }
  }

  lemma OrderedIsFixed(words: seq<Word>, prevEnd: int)
    requires Ordered(words, prevEnd)
    ensures Monotonic(words, prevEnd) == words
  {
    var out := Monotonic(words, prevEnd);
    MonotonicOrders(words, prevEnd);
    MonotonicIsLeast(words, prevEnd, words);
    forall i | 0 <= i < |words|
      ensures out[i] == words[i]
    {
      assert Texts(out)[i] == Texts(words)[i];
    }
  }

  /** The fixed points are exactly the ordered timelines, so the pass is idempotent. */
  lemma MonotonicFixesExactlyOrdered(words: seq<Word>, prevEnd: int)
    ensures Monotonic(words, prevEnd) == words <==> Ordered(words, prevEnd)
    ensures Monotonic(Monotonic(words, prevEnd), prevEnd) == Monotonic(words, prevEnd)
  {
    MonotonicOrders(words, prevEnd);
    if Ordered(words, prevEnd) { OrderedIsFixed(words, prevEnd); }
    OrderedIsFixed(Monotonic(words, prevEnd), prevEnd);
  }

  /** Raising input times never lowers an output time. */
  lemma MonotonicPreservesAtLeast(low: seq<Word>, high: seq<Word>, prevEnd: int)
    requires AtLeast(high, low)
    ensures AtLeast(Monotonic(high, prevEnd), Monotonic(low, prevEnd))
  {
    MonotonicOrders(high, prevEnd);
    MonotonicIsLeast(low, prevEnd, Monotonic(high, prevEnd));
  }

  /** The times of the result stay inside any band that holds the start value and the input times. */
  lemma {:induction false} MonotonicStaysWithin(words: seq<Word>, prevEnd: int, low: int, high: int)
    requires low <= prevEnd <= high
    requires forall i :: 0 <= i < |words| ==> words[i].startMs <= high && words[i].endMs <= high
    ensures |Monotonic(words, prevEnd)| == |words|
    ensures forall i :: 0 <= i < |words| ==>
      low <= Monotonic(words, prevEnd)[i].startMs <= Monotonic(words, prevEnd)[i].endMs <= high
  {
    if words != [] {
      var start := Max(words[0].startMs, prevEnd);
      MonotonicStaysWithin(words[1..], Max(words[0].endMs, start), low, high);
    }
  }
}

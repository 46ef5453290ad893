/** services/tts-service/tts/iterate.py: synthesize, score, rewrite, repeat; the best attempt is returned. */
module Iterate {
  import opened Outcomes
  import opened Words
  import opened SpeedControl
  import Text

  datatype Synthesis = Synthesis(audio: Bytes, durationMs: int, wordAlignments: Option<seq<Word>>, mimeType: string)

  /** Of a score only the combined value takes part in the loop's decisions. */
  datatype QualityScore = QualityScore(combined: real) {
    predicate Passes(threshold: real) { combined >= threshold }
  }

  /**
   * The services the loop calls. Each may answer differently on every attempt; the provider may raise, which is None.
   */
  datatype Services = Services(
    provider: (nat, string) -> Option<Synthesis>,
    scorer: (nat, Synthesis, int) -> QualityScore,
    rewriter: (nat, string, QualityScore) -> Option<string>)

  datatype HistoryRecord = HistoryRecord(attempt: nat, text: string, synthesizedMs: int, score: QualityScore)

  datatype Attempt = Attempt(number: nat, text: string, synthesis: Synthesis, score: QualityScore)

  class IterationResult {
    const synthesis: Synthesis
    const finalText: string
    const score: QualityScore
    const iterations: nat
    var rewriteHistory: seq<HistoryRecord>

    constructor (synthesis: Synthesis, finalText: string, score: QualityScore, iterations: nat)
      ensures this.synthesis == synthesis && this.finalText == finalText
      ensures this.score == score && this.iterations == iterations && rewriteHistory == []
    {
      this.synthesis, this.finalText, this.score, this.iterations := synthesis, finalText, score, iterations;
      rewriteHistory := [];
    }

    /** This result is that attempt. */
    predicate Is(a: Attempt) {
      synthesis == a.synthesis && finalText == a.text && score == a.score && iterations == a.number
    }
  }

  // ---- The attempts the services produce ----

  datatype Settings = Settings(targetMs: int, maxIterations: int, threshold: real, enabled: bool)

  function Budget(s: Settings): nat {
    if s.enabled && s.maxIterations > 1 then s.maxIterations else 1
  }

  /** None when the provider raises. */
  function AttemptAt(env: Services, s: Settings, number: nat, text: string): Option<Attempt> {
    match env.provider(number, text)
    case None => None
    case Some(synthesis) =>
      var targetMs := if s.targetMs != 0 then s.targetMs else synthesis.durationMs;
      Some(Attempt(number, text, synthesis, env.scorer(number, synthesis, targetMs)))
  }

  function RequestRewrite(env: Services, a: Attempt): Option<string> {
    env.rewriter(a.number, a.text, a.score)
  }

  /** The text of the next attempt, when there is one. */
  function NextText(env: Services, s: Settings, a: Attempt): Option<string> {
    if a.score.Passes(s.threshold) || a.number >= Budget(s) then None
    else
      var rewritten := RequestRewrite(env, a);
      if rewritten == Some(a.text) then None else rewritten
  }

  /** Attempts numbered from 1, the first on `first`, each later one on the text its predecessor leads to. */
  predicate IsChain(env: Services, s: Settings, first: string, made: seq<Attempt>) {
    && (made != [] ==> AttemptAt(env, s, 1, first) == Some(made[0]))
    && forall i :: 1 <= i < |made| ==>
      NextText(env, s, made[i - 1]) == Some(made[i].text) && AttemptAt(env, s, i + 1, made[i].text) == Some(made[i])
  }

  /** The text the attempt after these works on, when there is one. */
  function TextAfter(env: Services, s: Settings, first: string, made: seq<Attempt>): Option<string> {
    if made == [] then Some(first) else NextText(env, s, made[|made| - 1])
  }

  /** A chain that stops exactly where the loop does. */
  predicate IsRun(env: Services, s: Settings, first: string, run: seq<Attempt>) {
    IsChain(env, s, first, run) && TextAfter(env, s, first, run) == None
  }

  /** A chain whose next attempt raises. */
  predicate Raises(env: Services, s: Settings, first: string, run: seq<Attempt>) {
    && IsChain(env, s, first, run) && TextAfter(env, s, first, run).Some?
    && AttemptAt(env, s, |run| + 1, TextAfter(env, s, first, run).value) == None
  }

  function Record(a: Attempt): HistoryRecord {
    HistoryRecord(a.number, a.text, a.synthesis.durationMs, a.score)
  }

  function Records(run: seq<Attempt>): seq<HistoryRecord> {
    seq(|run|, i requires 0 <= i < |run| => Record(run[i]))
  }

  /** `best` is the earliest attempt with the highest combined score. */
  predicate IsFirstBest(run: seq<Attempt>, best: nat) {
    && best < |run|
    && (forall i :: 0 <= i < |run| ==> run[i].score.combined <= run[best].score.combined)
    && (forall i :: 0 <= i < best ==> run[i].score.combined < run[best].score.combined)
  }

  lemma ChainGrows(env: Services, s: Settings, first: string, made: seq<Attempt>, a: Attempt)
    requires IsChain(env, s, first, made) && TextAfter(env, s, first, made) == Some(a.text)
    requires AttemptAt(env, s, |made| + 1, a.text) == Some(a)
    ensures IsChain(env, s, first, made + [a])
  {
  }

  lemma RecordsAppend(made: seq<Attempt>, a: Attempt)
    ensures Records(made + [a]) == Records(made) + [Record(a)]
  {
  }

  /** One more attempt displaces the best so far only when its score is strictly higher. */
  lemma BestAfter(made: seq<Attempt>, best: nat, a: Attempt)
    requires made != [] ==> IsFirstBest(made, best)
    ensures made == [] || a.score.combined > made[best].score.combined ==> IsFirstBest(made + [a], |made|)
    ensures made != [] && a.score.combined <= made[best].score.combined ==> IsFirstBest(made + [a], best)
  {
  }

  /** An attempt that raises discards the earlier ones. */
  method SynthesizeWithIteration(env: Services, s: Settings, segmentText: string)
    returns (r: Result<IterationResult, string>, ghost run: seq<Attempt>, ghost bestIndex: nat)
    ensures r.Err? ==> Raises(env, s, Text.Strip(segmentText), run)
    ensures r.Ok? ==>
      && fresh(r.value)
      && IsRun(env, s, Text.Strip(segmentText), run) && IsFirstBest(run, bestIndex)
      && r.value.Is(run[bestIndex]) && r.value.rewriteHistory == Records(run)
  {
    var text := Text.Strip(segmentText);
    ghost var first := text;
    var history: seq<HistoryRecord> := [];
    var best: IterationResult? := null;
    var attempts := if s.enabled then (if s.maxIterations > 1 then s.maxIterations else 1) else 1;
    run, bestIndex := [], 0;

    var attempt := 1;
    while attempt <= attempts
      invariant 1 <= attempt <= attempts == Budget(s) && |run| == attempt - 1
      invariant IsChain(env, s, first, run) && TextAfter(env, s, first, run) == Some(text)
      invariant history == Records(run)
      invariant run == [] <==> best == null
      invariant best != null ==> fresh(best) && IsFirstBest(run, bestIndex) && best.Is(run[bestIndex])
      decreases attempts - attempt
    {
      var made := AttemptAt(env, s, attempt, text); // synthesize and score
      if made.None? {
        return Err("synthesis failed"), run, bestIndex;
      }
      var a := made.value;
      history := history + [HistoryRecord(attempt, text, a.synthesis.durationMs, a.score)];
      RecordsAppend(run, a);
      var candidate := new IterationResult(a.synthesis, text, a.score, attempt);
      BestAfter(run, bestIndex, a);
      if best == null || candidate.score.combined > best.score.combined {
        best, bestIndex := candidate, attempt - 1;
      }
      ChainGrows(env, s, first, run, a);
      run := run + [a];
      if a.score.Passes(s.threshold) {
        best.rewriteHistory := history;
        return Ok(best), run, bestIndex;
      }
      if attempt >= attempts {
        break;
      }
      var rewritten := RequestRewrite(env, a);
      if rewritten.None? || rewritten.value == text {
        break;
      }
      text := rewritten.value;
      attempt := attempt + 1;
    }
    best.rewriteHistory := history;
    return Ok(best), run, bestIndex;
  }

  // ---- What every run satisfies ----

  lemma FirstBestIsUnique(run: seq<Attempt>, i: nat, j: nat)
    requires IsFirstBest(run, i) && IsFirstBest(run, j)
    ensures i == j
  {
    assert run[i].score.combined == run[j].score.combined;
  }

  /** One chain cannot go on where another ends. */
  lemma {:induction false} ChainsAgree(env: Services, s: Settings, first: string, run: seq<Attempt>,
          other: seq<Attempt>, n: nat)
    requires IsChain(env, s, first, run) && n <= |run|
    requires IsRun(env, s, first, other) || Raises(env, s, first, other)
    ensures n <= |other| && run[..n] == other[..n]
  {
    if n > 0 {
      ChainsAgree(env, s, first, run, other, n - 1);
      if n > 1 {
        assert run[..n - 1][n - 2] == other[..n - 1][n - 2];
        assert NextText(env, s, run[n - 1 - 1]) == Some(run[n - 1].text);
      }
      assert AttemptAt(env, s, n, run[n - 1].text) == Some(run[n - 1]);
      assert n - 1 < |other|;
      if n > 1 { assert NextText(env, s, other[n - 1 - 1]) == Some(other[n - 1].text); }
      assert run[..n] == run[..n - 1] + [run[n - 1]];
      assert other[..n] == other[..n - 1] + [other[n - 1]];
    }
  }

  /** The services and settings determine the attempts, and whether they end in a result or an error. */
  lemma RunIsUnique(env: Services, s: Settings, first: string, run: seq<Attempt>, other: seq<Attempt>)
    requires IsRun(env, s, first, run) || Raises(env, s, first, run)
    requires IsRun(env, s, first, other) || Raises(env, s, first, other)
    ensures run == other && (IsRun(env, s, first, run) <==> !Raises(env, s, first, run))
  {
    ChainsAgree(env, s, first, run, other, |run|);
    ChainsAgree(env, s, first, other, run, |other|);
  }

  /** Between 1 and the budget attempts are made: exactly one when iteration is off or the limit is at most one. */
  lemma RunLength(env: Services, s: Settings, first: string, run: seq<Attempt>)
    requires IsRun(env, s, first, run)
    ensures 1 <= |run| <= if s.enabled && s.maxIterations > 1 then s.maxIterations else 1
  {
    if |run| > 1 {
      var i := |run| - 1;
      assert NextText(env, s, run[i - 1]) == Some(run[i].text);
      assert run[i - 1].number == i by {
        if i > 1 { assert AttemptAt(env, s, i, run[i - 1].text) == Some(run[i - 1]); }
      }
    }
  }

  /**
   * Every attempt against the services: the first is on the given text and each later one on the rewriter's answer to
   * the one before; the provider's audio for that text is scored against the target, or its own length when the target
   * is 0.
   */
  lemma AttemptsAreScored(env: Services, s: Settings, first: string, made: seq<Attempt>, i: nat)
    requires IsChain(env, s, first, made) && i < |made|
    ensures
      var a := made[i];
      && a.number == i + 1
      && (if i == 0 then a.text == first
          else env.rewriter(i, made[i - 1].text, made[i - 1].score) == Some(a.text))
      && env.provider(i + 1, a.text) == Some(a.synthesis)
      && a.score == env.scorer(i + 1, a.synthesis, if s.targetMs == 0 then a.synthesis.durationMs else s.targetMs)
  {
    if i > 0 {
      AttemptsAreScored(env, s, first, made, i - 1);
      assert NextText(env, s, made[i - 1]) == Some(made[i].text);
      assert AttemptAt(env, s, i + 1, made[i].text) == Some(made[i]);
    }
  }

  /**
   * The loop goes on past these attempts unless the last one passes, the limit is reached, or the rewriter has no other
   * text; if it goes on, the next attempt raises exactly when the provider does.
   */
  lemma StopsExactly(env: Services, s: Settings, first: string, made: seq<Attempt>)
    requires made != [] && IsChain(env, s, first, made)
    ensures
      var last, n := made[|made| - 1], |made|;
      var answer := env.rewriter(n, last.text, last.score);
      var ends := || last.score.combined >= s.threshold || n >= (if s.enabled then s.maxIterations else 1)
                  || answer == None || answer == Some(last.text);
      && (IsRun(env, s, first, made) <==> ends)
      && (Raises(env, s, first, made) <==> !ends && env.provider(n + 1, answer.value) == None)
  {
    AttemptsAreScored(env, s, first, made, |made| - 1);
  }

  /** The history tells, per attempt, its number, its text, the length of its audio and its score. */
  lemma HistoryTells(env: Services, s: Settings, first: string, run: seq<Attempt>, i: nat)
    requires IsChain(env, s, first, run) && i < |run|
    ensures |Records(run)| == |run|
    ensures Records(run)[i] == HistoryRecord(i + 1, run[i].text, run[i].synthesis.durationMs, run[i].score)
  {
    AttemptsAreScored(env, s, first, run, i);
  }

  /** Consecutive attempts are on different texts, and only the last attempt of a run can pass. */
  lemma RunChangesText(env: Services, s: Settings, first: string, run: seq<Attempt>, i: nat)
    requires IsRun(env, s, first, run) && i + 1 < |run|
    ensures run[i].text != run[i + 1].text && !run[i].score.Passes(s.threshold)
    ensures RequestRewrite(env, run[i]) == Some(run[i + 1].text)
  {
    assert NextText(env, s, run[i + 1 - 1]) == Some(run[i + 1].text);
  }

  /** If any attempt passes, it is the last one made and the one returned; so the returned one passes iff any does. */
  lemma PassingAttemptIsReturned(env: Services, s: Settings, first: string, run: seq<Attempt>, best: nat, i: nat)
    requires IsRun(env, s, first, run) && IsFirstBest(run, best) && i < |run|
    requires run[i].score.Passes(s.threshold)
    ensures i == best == |run| - 1
  {
    if i + 1 < |run| { RunChangesText(env, s, first, run, i); }
    assert run[best].score.combined >= run[i].score.combined >= s.threshold;
    if best + 1 < |run| { RunChangesText(env, s, first, run, best); }
  }

  /**
   * A provider that synthesizes once and then raises, a score that never passes, and a rewriter with one other text.
   */
  function OnceOnly(made: Synthesis, score: QualityScore, other: string): Services {
    Services((number, text) => if number == 1 then Some(made) else None,
             (number, synthesis, targetMs) => score,
             (number, text, s) => Some(other))
  }

  /** An error on the second attempt discards the first one: whatever was synthesized, nothing is returned. */
  lemma ErrorDiscardsEarlier(made: Synthesis, score: QualityScore, s: Settings, first: string, other: string)
    requires Budget(s) > 1 && !score.Passes(s.threshold) && other != first
    ensures Raises(OnceOnly(made, score, other), s, first, [Attempt(1, first, made, score)])
  {
  }
}

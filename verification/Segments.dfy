/** services/tts-service/main.py, `_process_segment`: iterate, fit, align, and decide the review flag. */
module Segments {
  import opened Rounding
  import opened Outcomes
  import opened Words
  import opened SpeedControl
  import opened Iterate
  import Alignment
  import Text
  import Validator

  datatype Scene = Scene(startMs: int, endMs: int, text: string)

  datatype Config = Config(maxIterations: int, threshold: real, enabled: bool)

  /** What is stored for the segment, and the summary values derived from it. */
  datatype Processed = Processed(
    audio: Bytes, durationMs: int, appliedRatio: real, words: seq<Word>, flagged: bool,
    newText: Option<string>, iterations: nat, score: QualityScore, rewriteHistory: seq<HistoryRecord>)

  function SceneMs(scene: Scene): nat {
    Max(scene.endMs - scene.startMs, 0)
  }

  function SettingsFor(scene: Scene, config: Config): Settings {
    Settings(SceneMs(scene), config.maxIterations, config.threshold, config.enabled)
  }

  /** An empty scene falls back to the audio's own length. */
  function FitTarget(scene: Scene, audioMs: int): int {
    if SceneMs(scene) != 0 then SceneMs(scene) else audioMs
  }

  function FittedMs(scene: Scene, audioMs: int): (ms: int)
    ensures audioMs >= 0 ==> ms >= 0
  {
    FinalMs(audioMs, FitTarget(scene, audioMs))
  }

  // ---- Words against the scene ----

  predicate Inside(words: seq<Word>, low: int, high: int) {
    forall i :: 0 <= i < |words| ==> low <= words[i].startMs <= words[i].endMs <= high
  }

  /** Whether the words come from the provider; otherwise they are the tokens of the text. */
  predicate FromProvider(provider: Option<seq<Word>>) {
    provider.Some? && provider.value != []
  }

  lemma OrderedInside(words: seq<Word>, low: int, high: int)
    requires Ordered(words, low) && (words != [] ==> words[|words| - 1].endMs <= high)
    ensures Inside(words, low, high)
  {
    forall i | 0 <= i < |words|
      ensures low <= words[i].startMs <= words[i].endMs <= high
    {
      OrderedEnds(words, low, i, |words| - 1);
    }
  }

  predicate EndsAt(words: seq<Word>, end: int) {
    words != [] && words[|words| - 1].endMs == end
  }

  /** The words of a text, the scene's own or a rewritten one, over audio of the given length, fitted to the scene. */
  function LaidOut(scene: Scene, text: string, audioMs: nat, provider: Option<seq<Word>>): seq<Word> {
    Alignment.Aligned(scene.startMs, text, provider, FittedMs(scene, audioMs))
  }

  /** The words cover some time: the provider reported some, or else there is a token to place. */
  predicate Timed(text: string, provider: Option<seq<Word>>) {
    if FromProvider(provider) then Alignment.HasTime(provider.value) else Text.Split(text) != []
  }

  /** The words against the fitted audio, whatever the scene. */
  lemma FitsAudio(scene: Scene, text: string, audioMs: nat, provider: Option<seq<Word>>)
    requires 0 <= scene.startMs && FittedMs(scene, audioMs) > 0
    ensures Ordered(LaidOut(scene, text, audioMs, provider), scene.startMs)
    ensures Inside(LaidOut(scene, text, audioMs, provider), scene.startMs, scene.startMs + FittedMs(scene, audioMs))
    ensures EndsAt(LaidOut(scene, text, audioMs, provider), scene.startMs + FittedMs(scene, audioMs)) <==>
      Timed(text, provider)
  {
    var finalMs := FittedMs(scene, audioMs);
    var words := LaidOut(scene, text, audioMs, provider);
    if FromProvider(provider) {
      Alignment.RescaleStaysInside(provider.value, finalMs, scene.startMs);
      Alignment.RescaleEndsWithAudio(provider.value, finalMs, scene.startMs);
    } else if Text.Split(text) != [] {
      Alignment.ProportionalTiles(Text.Split(text), finalMs, scene.startMs);
      assert Ordered(words, scene.startMs);
    }
    OrderedInside(words, scene.startMs, scene.startMs + finalMs);
  }

  /**
   * The end-to-end scene bound. Audio that is not speed-flagged lasts strictly within 1% of the scene, and all its
   * words are in order between the scene's start and the end of the audio. The last word ends exactly with the audio
   * precisely when the words cover any time at all.
   */
  lemma SceneBound(scene: Scene, text: string, audioMs: nat, provider: Option<seq<Word>>)
    requires 0 <= scene.startMs < scene.endMs && !Flagged(audioMs, FitTarget(scene, audioMs))
    ensures FittedMs(scene, audioMs) > 0
    ensures
      var sceneMs := scene.endMs - scene.startMs;
      99 * sceneMs < 100 * FittedMs(scene, audioMs) < 101 * sceneMs
    ensures Ordered(LaidOut(scene, text, audioMs, provider), scene.startMs)
    ensures Inside(LaidOut(scene, text, audioMs, provider), scene.startMs, scene.startMs + FittedMs(scene, audioMs))
    ensures EndsAt(LaidOut(scene, text, audioMs, provider), scene.startMs + FittedMs(scene, audioMs)) <==>
      Timed(text, provider)
  {
    UnflaggedFits(audioMs, FitTarget(scene, audioMs));
    FitsAudio(scene, text, audioMs, provider);
  }

  /** No word runs past the scene's end by as much as 1% of the scene. */
  predicate KeepsToScene(words: seq<Word>, scene: Scene) {
    forall i :: 0 <= i < |words| ==> 100 * (words[i].endMs - scene.endMs) < Max(scene.endMs - scene.startMs, 0)
  }

  /**
   * For audio that is not speed-flagged the words keep to the scene exactly when the scene has a length, however they
   * are timed. A scene without length is never speed-flagged: any audio counts as fitting.
   */
  lemma KeepsToSceneExactly(scene: Scene, text: string, audioMs: nat, provider: Option<seq<Word>>)
    requires 0 <= scene.startMs && audioMs > 0 && Timed(text, provider)
    requires !Flagged(audioMs, FitTarget(scene, audioMs))
    ensures KeepsToScene(LaidOut(scene, text, audioMs, provider), scene) <==> scene.startMs < scene.endMs
  {
    var words := LaidOut(scene, text, audioMs, provider);
    if scene.startMs < scene.endMs {
      SceneBound(scene, text, audioMs, provider);
    } else {
      assert FittedMs(scene, audioMs) == audioMs;
      FitsAudio(scene, text, audioMs, provider);
      assert words[|words| - 1].endMs > scene.endMs;
    }
  }

  lemma EmptySceneIsNeverSpeedFlagged(scene: Scene, audioMs: nat)
    requires audioMs > 0
    ensures scene.endMs <= scene.startMs ==> !Flagged(audioMs, FitTarget(scene, audioMs))
  {
  }

  function SceneOf(seg: Validator.RawSegment): Scene {
    Scene(seg.startMs, seg.endMs, seg.text)
  }

  /**
   * Across an accepted transcript: when an earlier and a later segment both go unflagged, whatever text and timings
   * they ended up with, no word of the earlier one runs past a word of the later one by as much as 1% of the earlier
   * scene.
   */
  lemma ScenesBarelyOverlap(segments: seq<Validator.RawSegment>, durationMs: Option<int>, sanitize: string -> string,
          i: nat, j: nat, text1: string, text2: string, audio1: nat, audio2: nat, provider1: Option<seq<Word>>,
          provider2: Option<seq<Word>>)
    requires Validator.Accepted(segments, durationMs, sanitize) && i < j < |segments|
    requires !Flagged(audio1, FitTarget(SceneOf(segments[i]), audio1))
    requires !Flagged(audio2, FitTarget(SceneOf(segments[j]), audio2))
    ensures
      var first, second := SceneOf(segments[i]), SceneOf(segments[j]);
      forall a, b :: a in LaidOut(first, text1, audio1, provider1) && b in LaidOut(second, text2, audio2, provider2) ==>
        100 * (a.endMs - b.startMs) < first.endMs - first.startMs
  {
    assert Validator.VerdictAt(segments, i, durationMs, sanitize) == None;
    assert Validator.VerdictAt(segments, j, durationMs, sanitize) == None;
    Validator.EarlierEndsFirst(segments, durationMs, sanitize, i, j);
    SceneBound(SceneOf(segments[i]), text1, audio1, provider1);
    SceneBound(SceneOf(segments[j]), text2, audio2, provider2);
  }

  /** Timings from either provider parser go through the rescale without any help from its closing pass. */
  lemma ParsedTimingsNeedNoPass(parsed: seq<Word>, raw: seq<Word>, finalMs: nat, offset: nat)
    requires parsed == Monotonic(raw, 0)
    ensures Monotonic(Alignment.Rescaled(parsed, finalMs, offset), 0) == Alignment.Rescaled(parsed, finalMs, offset)
  {
    MonotonicOrders(raw, 0);
    Alignment.RescaleAlreadyOrdered(parsed, finalMs, offset);
  }

  // ---- One segment ----

  function FittedHere(scene: Scene, made: Synthesis, atempo: (Bytes, seq<real>) -> Option<Bytes>): Option<Bytes> {
    FittedAudio(made.audio, made.durationMs, FitTarget(scene, made.durationMs), atempo)
  }

  /**
   * What is stored comes from that attempt: its audio's length, ratio and words, its flag, text, score and the
   * history.
   */
  predicate IsProcessed(p: Processed, scene: Scene, config: Config, run: seq<Attempt>, best: nat)
    requires best < |run|
  {
    var a := run[best];
    var audioMs := a.synthesis.durationMs;
    && p.durationMs == FittedMs(scene, audioMs) >= 0
    && p.appliedRatio == AppliedRatio(audioMs, FitTarget(scene, audioMs))
    && p.words == Alignment.Aligned(scene.startMs, a.text, a.synthesis.wordAlignments, p.durationMs)
    && (p.flagged <==> Flagged(audioMs, FitTarget(scene, audioMs)) || !a.score.Passes(config.threshold))
    && p.iterations == best + 1 && p.score == a.score && p.rewriteHistory == Records(run)
    && p.newText == (if Text.Strip(a.text) == Text.Strip(scene.text) then None else Some(a.text))
  }

  /** The chosen audio, fitted to the scene, and its words on the timeline. */
  method FitAndAlign(scene: Scene, made: Synthesis, finalText: string, atempo: (Bytes, seq<real>) -> Option<Bytes>)
    returns (r: Result<(FitResult, seq<Word>), string>)
    ensures r.Err? <==> FittedHere(scene, made, atempo).None? || FittedMs(scene, made.durationMs) < 0
    ensures r.Ok? ==>
      && r.value.0.audio == FittedHere(scene, made, atempo).value
      && r.value.0.finalMs == FittedMs(scene, made.durationMs) >= 0
      && r.value.0.appliedRatio == AppliedRatio(made.durationMs, FitTarget(scene, made.durationMs))
      && r.value.0.speedFlagged == Flagged(made.durationMs, FitTarget(scene, made.durationMs))
      && r.value.1 == Alignment.Aligned(scene.startMs, finalText, made.wordAlignments, r.value.0.finalMs)
    ensures r.Ok? ==>
      var target := if scene.startMs < scene.endMs then scene.endMs - scene.startMs else made.durationMs;
      Fits(r.value.0, made.audio, made.durationMs, target, atempo)
  {
    var targetMs := Max(scene.endMs - scene.startMs, 0);
    var fit := FitToSegment(made.audio, made.durationMs, if targetMs != 0 then targetMs else made.durationMs,
                            made.mimeType, atempo);
    if fit.Err? {
      return Err(fit.error);
    }
    var words := Alignment.AlignWordsToSegment(scene.startMs, finalText, made.wordAlignments, fit.value.finalMs);
    if words.Err? {
      return Err(words.error);
    }
    r := Ok((fit.value, words.value));
  }

  lemma NumberedInOrder(env: Services, s: Settings, first: string, run: seq<Attempt>, i: nat)
    requires IsRun(env, s, first, run) && i < |run|
    ensures run[i].number == i + 1
  {
    if i > 0 { assert AttemptAt(env, s, i + 1, run[i].text) == Some(run[i]); }
  }

  /**
   * The stored audio, length and ratio are those of a fit of the chosen attempt to the scene's length, or to its own
   * when the scene has none; the segment is flagged when the fit is, or when the attempt scores below the threshold.
   */
  ghost predicate StoresFit(p: Processed, scene: Scene, config: Config, a: Attempt,
          atempo: (Bytes, seq<real>) -> Option<Bytes>)
  {
    var target := if scene.startMs < scene.endMs then scene.endMs - scene.startMs else a.synthesis.durationMs;
    exists fit: FitResult ::
      && Fits(fit, a.synthesis.audio, a.synthesis.durationMs, target, atempo)
      && p.audio == fit.audio && p.durationMs == fit.finalMs && p.appliedRatio == fit.appliedRatio
      && (p.flagged <==> fit.speedFlagged || a.score.combined < config.threshold)
  }

  /**
   * The attempts are scored against the scene's length, when it has one, and keep to the limit of the configuration.
   */
  lemma AttemptsFollowScene(env: Services, scene: Scene, config: Config, first: string, run: seq<Attempt>, i: nat)
    requires IsRun(env, SettingsFor(scene, config), first, run) && i < |run|
    ensures
      var made := run[i].synthesis;
      var target := if scene.startMs < scene.endMs then scene.endMs - scene.startMs else made.durationMs;
      run[i].score == env.scorer(i + 1, made, target)
    ensures |run| <= if config.enabled && config.maxIterations > 1 then config.maxIterations else 1
    ensures i < |run| - 1 ==> run[i].score.combined < config.threshold
  {
    AttemptsAreScored(env, SettingsFor(scene, config), first, run, i);
    RunLength(env, SettingsFor(scene, config), first, run);
    if i < |run| - 1 { RunChangesText(env, SettingsFor(scene, config), first, run, i); }
  }

  /**
   * `uploads` and `updates` say whether the audio can be stored and the segment's record updated. The segment fails
   * exactly when some attempt raises, the fit or the alignment fails, or one of these does.
   */
  method ProcessSegment(scene: Scene, config: Config, env: Services, atempo: (Bytes, seq<real>) -> Option<Bytes>,
          uploads: bool, updates: bool)
    returns (r: Result<Processed, string>, ghost run: seq<Attempt>, ghost best: nat)
    ensures
      var settings, text := SettingsFor(scene, config), Text.Strip(scene.text);
      if Raises(env, settings, text, run) then r.Err?
      else
        && IsRun(env, settings, text, run) && IsFirstBest(run, best)
        && var made := run[best].synthesis;
        && var fitted := FittedHere(scene, made, atempo);
        && (r.Err? <==> fitted.None? || FittedMs(scene, made.durationMs) < 0 || !uploads || !updates)
        && (r.Ok? ==>
              && IsProcessed(r.value, scene, config, run, best) && r.value.audio == fitted.value
              && StoresFit(r.value, scene, config, run[best], atempo))
    ensures r.Ok? && 0 <= scene.startMs < scene.endMs && !r.value.flagged ==>
      && 99 * (scene.endMs - scene.startMs) < 100 * r.value.durationMs < 101 * (scene.endMs - scene.startMs)
      && Ordered(r.value.words, scene.startMs)
      && Inside(r.value.words, scene.startMs, scene.startMs + r.value.durationMs)
  {
    var text := Text.Strip(scene.text);
    var iterated;
    iterated, run, best := SynthesizeWithIteration(env, SettingsFor(scene, config), scene.text);
    if iterated.Err? {
      return Err(iterated.error), run, best;
    }
    var iteration := iterated.value;
    NumberedInOrder(env, SettingsFor(scene, config), text, run, best);
    var result := iteration.synthesis;
    var laid := FitAndAlign(scene, result, iteration.finalText, atempo);
    if laid.Err? {
      return Err(laid.error), run, best;
    }
    var (fit, words) := laid.value;
    if !uploads {
      return Err("upload failed"), run, best;
    }
    var qualityPassed := iteration.score.Passes(config.threshold);
    var flagged := fit.speedFlagged || !qualityPassed;
    var textChanged := Text.Strip(iteration.finalText) != text;
    if !updates {
      return Err("update failed"), run, best;
    }
    r := Ok(Processed(fit.audio, fit.finalMs, fit.appliedRatio, words, flagged,
                      if textChanged then Some(iteration.finalText) else None,
                      iteration.iterations, iteration.score, iteration.rewriteHistory));
    assert StoresFit(r.value, scene, config, run[best], atempo) by {
      assert fit.audio == r.value.audio && fit.finalMs == r.value.durationMs;
    }
    if 0 <= scene.startMs < scene.endMs && !flagged {
      SceneBound(scene, iteration.finalText, result.durationMs, result.wordAlignments);
    }
  }

  /** The returned attempt passes, so that quality does not flag the segment, exactly when some attempt passed. */
  lemma QualityFlagMeansNoAttemptPassed(env: Services, s: Settings, first: string, run: seq<Attempt>, best: nat)
    requires IsRun(env, s, first, run) && IsFirstBest(run, best)
    ensures run[best].score.Passes(s.threshold) <==> exists i :: 0 <= i < |run| && run[i].score.Passes(s.threshold)
  {
    if i :| 0 <= i < |run| && run[i].score.Passes(s.threshold) {
      PassingAttemptIsReturned(env, s, first, run, best, i);
    }
  }
}

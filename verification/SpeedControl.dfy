/** services/tts-service/tts/speed_control.py and the duration score of services/tts-service/tts/quality.py. */
module SpeedControl {
  import opened Outcomes

  type Bytes = seq<bv8>

  // ---- The atempo chain ----

  function Product(stages: seq<real>): real {
    if stages == [] then 1.0 else Product(stages[..|stages| - 1]) * stages[|stages| - 1]
  }

  lemma ProductAppend(stages: seq<real>, x: real)
    ensures Product(stages + [x]) == Product(stages) * x
  {
    assert (stages + [x])[..|stages|] == stages;
  }

  /** Stages ffmpeg's `atempo` accepts. */
  predicate Playable(stages: seq<real>) {
    forall i :: 0 <= i < |stages| ==> 0.5 <= stages[i] <= 2.0
  }

  function Doubled(n: nat): real {
    if n == 0 then 1.0 else Doubled(n - 1) * 2.0
  }

  function Halved(n: nat): real {
    if n == 0 then 1.0 else Halved(n - 1) * 0.5
  }

  predicate NearOne(ratio: real) {
    -0.001 < ratio - 1.0 < 0.001
  }

  /** The ratio is above 2^n or below 2^-n. */
  predicate OutOfReach(ratio: real, n: nat) {
    ratio > Doubled(n) || ratio < Halved(n)
  }

  predicate AllAre(stages: seq<real>, x: real) {
    forall i :: 0 <= i < |stages| ==> stages[i] == x
  }

  /**
   * The chain for a ratio: one neutral stage around 1, and otherwise full stages, all 2 or all 1/2, followed by a rest
   * that one stage can play.
   */
  predicate IsAtempoChain(ratio: real, filters: seq<real>) {
    if NearOne(ratio) then filters == [1.0]
    else
      && filters != [] && Product(filters) == ratio
      && var full, rest := filters[..|filters| - 1], filters[|filters| - 1];
      if ratio > 2.0 then AllAre(full, 2.0) && 1.0 < rest <= 2.0
      else if ratio < 0.5 then AllAre(full, 0.5) && 0.5 <= rest < 1.0
      else full == []
  }

  lemma DoublingStep(n: nat, remaining: real)
    ensures Doubled(n + 1) * (remaining / 2.0) == Doubled(n) * remaining
  {
  }

  lemma Exceeds(reached: real, remaining: real, ratio: real)
    requires reached > 0.0 && remaining > 1.0 && reached * remaining == ratio
    ensures ratio > reached
  {
    assert reached * remaining - reached == reached * (remaining - 1.0) > 0.0;
  }

  method FullSpeedStages(ratio: real) returns (filters: seq<real>, remaining: real)
    requires ratio > 2.0
    ensures Playable(filters) && 1.0 < remaining <= 2.0
    ensures AllAre(filters, 2.0)
    ensures Product(filters) * remaining == ratio && ratio > Doubled(|filters|)
  {
    filters, remaining := [], ratio;
    while remaining > 2.0
      invariant AllAre(filters, 2.0) && Product(filters) == Doubled(|filters|) > 0.0
      invariant Doubled(|filters|) * remaining == ratio && remaining > 1.0
      decreases remaining
    {
      ProductAppend(filters, 2.0);
      DoublingStep(|filters|, remaining);
      filters := filters + [2.0];
      remaining := remaining / 2.0;
    }
    Exceeds(Doubled(|filters|), remaining, ratio);
  }

  lemma HalvingStep(n: nat, remaining: real)
    ensures Halved(n + 1) * (remaining / 0.5) == Halved(n) * remaining
  {
  }

  lemma ScaleOrder(k: real, a: real, b: real)
    requires k > 0.0
    ensures a <= b ==> k * a <= k * b
    ensures a < b ==> k * a < k * b
  {
    assert k * b - k * a == k * (b - a);
  }

  lemma InverseBound(inv: real, x: real)
    requires inv <= 2.0 && 0.0 < x < 0.5
    ensures inv * x < 1.0
  {
    assert (2.0 - inv) * x >= 0.0;
    assert (2.0 - inv) * x == 2.0 * x - inv * x;
  }

  lemma HalvedInverse(x: real)
    requires 0.0 < x < 0.5
    ensures 1.0 / (x / 0.5) <= 1.0 / x - 1.0
  {
    var inv := 1.0 / x;
    assert inv * x == 1.0;
    assert inv > 2.0 by {
      if inv <= 2.0 { InverseBound(inv, x); assert false; }
    }
    assert x / 0.5 == 2.0 * x;
    var half := 1.0 / (x / 0.5);
    assert half * (2.0 * x) == 1.0;
    assert (half * 2.0) * x == inv * x;
    assert half * 2.0 == inv;
  }

  method HalfSpeedStages(ratio: real) returns (filters: seq<real>, remaining: real)
    requires 0.0 < ratio < 0.5
    ensures Playable(filters) && 0.5 <= remaining < 1.0
    ensures AllAre(filters, 0.5)
    ensures Product(filters) * remaining == ratio && ratio < Halved(|filters|)
  {
    filters, remaining := [], ratio;
    while remaining < 0.5
      invariant AllAre(filters, 0.5) && Product(filters) == Halved(|filters|) > 0.0
      invariant Halved(|filters|) * remaining == ratio && 0.0 < remaining < 1.0
      decreases 1.0 / remaining
    {
      ProductAppend(filters, 0.5);
      HalvingStep(|filters|, remaining);
      HalvedInverse(remaining);
      filters := filters + [0.5];
      remaining := remaining / 0.5;
    }
    ScaleOrder(Halved(|filters|), remaining, 1.0);
  }

  /**
   * Besides the chain's shape: every stage is playable, and the ratio is out of reach of all but the last stage, which
   * makes the chain a shortest one (`ChainIsShortest`).
   */
  method BuildAtempoChain(ratio: real) returns (filters: seq<real>)
    requires ratio > 0.0
    ensures IsAtempoChain(ratio, filters)
    ensures Playable(filters) && filters != []
    ensures |filters| > 1 ==> OutOfReach(ratio, |filters| - 1)
    ensures if 0.999 < ratio < 1.001 then filters == [1.0] else Product(filters) == ratio
  {
    if NearOne(ratio) {
      return [1.0];
    }
    var remaining := ratio;
    filters := [];
    if remaining > 2.0 {
      filters, remaining := FullSpeedStages(ratio);
    } else if remaining < 0.5 {
      filters, remaining := HalfSpeedStages(ratio);
    }
    ProductAppend(filters, remaining);
    assert (filters + [remaining])[..|filters|] == filters;
    filters := filters + [remaining];
  }

  /** What any playable chain of n stages can reach: a ratio between 2^-n and 2^n. */
  lemma {:induction false} PlayableReach(stages: seq<real>)
    requires Playable(stages)
    ensures 0.0 < Halved(|stages|) <= Product(stages) <= Doubled(|stages|)
  {
    if stages != [] {
      var head, x := stages[..|stages| - 1], stages[|stages| - 1];
      PlayableReach(head);
      ScaleOrder(Product(head), 0.5, x);
      ScaleOrder(Product(head), x, 2.0);
    }
  }

  lemma {:induction false} PowersGrow(m: nat, n: nat)
    requires m <= n
    ensures 0.0 < Doubled(m) <= Doubled(n) && 0.0 < Halved(n) <= Halved(m)
    decreases n
  {
    if m < n { PowersGrow(m, n - 1); } else if n > 0 { PowersGrow(m - 1, n - 1); }
  }

  /** No playable chain with the same product is shorter than the one built. */
  lemma ChainIsShortest(built: nat, other: seq<real>)
    requires built > 1 && Playable(other) && OutOfReach(Product(other), built - 1)
    ensures |other| >= built
  {
    PlayableReach(other);
    if |other| < built { PowersGrow(|other|, built - 1); }
  }

  lemma {:induction false} ProductOfFull(stages: seq<real>)
    ensures AllAre(stages, 2.0) ==> Product(stages) == Doubled(|stages|)
    ensures AllAre(stages, 0.5) ==> Product(stages) == Halved(|stages|)
  {
    if stages != [] { ProductOfFull(stages[..|stages| - 1]); }
  }

  lemma FullApart(a: real, x: real, b: real, y: real)
    requires b > 0.0 && b * 2.0 <= a && x > 1.0 && y <= 2.0
    ensures a * x > b * y
  {
    ScaleOrder(a, 1.0, x);
    ScaleOrder(b, y, 2.0);
  }

  lemma HalfApart(a: real, x: real, b: real, y: real)
    requires b > 0.0 && 0.0 < a <= b * 0.5 && x < 1.0 && y >= 0.5
    ensures a * x < b * y
  {
    ScaleOrder(a, x, 1.0);
    ScaleOrder(b, 0.5, y);
  }

  /** More full stages leave less to play: the number of full stages is fixed by the ratio. */
  lemma FullLengths(one: seq<real>, rest: real, other: seq<real>, rest': real)
    requires AllAre(one, 2.0) && AllAre(other, 2.0) && 1.0 < rest <= 2.0 && 1.0 < rest' <= 2.0
    requires Product(one) * rest == Product(other) * rest'
    ensures |one| <= |other|
  {
    ProductOfFull(one);
    ProductOfFull(other);
    if |other| < |one| {
      PowersGrow(|other| + 1, |one|);
      PowersGrow(0, |other|);
      FullApart(Product(one), rest, Product(other), rest');
    }
  }

  lemma HalfLengths(one: seq<real>, rest: real, other: seq<real>, rest': real)
    requires AllAre(one, 0.5) && AllAre(other, 0.5) && 0.5 <= rest < 1.0 && 0.5 <= rest' < 1.0
    requires Product(one) * rest == Product(other) * rest'
    ensures |one| <= |other|
  {
    ProductOfFull(one);
    ProductOfFull(other);
    if |other| < |one| {
      PowersGrow(|other| + 1, |one|);
      PowersGrow(0, |other|);
      HalfApart(Product(one), rest, Product(other), rest');
    }
  }

  lemma SameFactor(k: real, x: real, l: real, y: real)
    requires k == l > 0.0 && k * x == l * y
    ensures x == y
  {
    ScaleOrder(k, x, y);
    ScaleOrder(k, y, x);
  }

  lemma SameFullStages(one: seq<real>, other: seq<real>, x: real)
    requires AllAre(one, x) && AllAre(other, x) && |one| == |other| && (x == 2.0 || x == 0.5)
    ensures one == other && Product(one) > 0.0
  {
    ProductOfFull(one);
    PowersGrow(0, |one|);
  }

  lemma FullChainIsUnique(one: seq<real>, rest: real, other: seq<real>, rest': real)
    requires AllAre(one, 2.0) && AllAre(other, 2.0) && 1.0 < rest <= 2.0 && 1.0 < rest' <= 2.0
    requires Product(one) * rest == Product(other) * rest'
    ensures one == other && rest == rest'
  {
    FullLengths(one, rest, other, rest');
    FullLengths(other, rest', one, rest);
    SameFullStages(one, other, 2.0);
    SameFactor(Product(one), rest, Product(other), rest');
  }

  lemma HalfChainIsUnique(one: seq<real>, rest: real, other: seq<real>, rest': real)
    requires AllAre(one, 0.5) && AllAre(other, 0.5) && 0.5 <= rest < 1.0 && 0.5 <= rest' < 1.0
    requires Product(one) * rest == Product(other) * rest'
    ensures one == other && rest == rest'
  {
    HalfLengths(one, rest, other, rest');
    HalfLengths(other, rest', one, rest);
    SameFullStages(one, other, 0.5);
    SameFactor(Product(one), rest, Product(other), rest');
  }

  lemma SingleStage(ratio: real, filters: seq<real>)
    requires IsAtempoChain(ratio, filters) && 0.5 <= ratio <= 2.0 && !NearOne(ratio)
    ensures filters == [ratio]
  {
    assert filters[..0] == [];
    assert Product([]) == 1.0;
  }

  /** The ratio determines the chain. */
  lemma ChainIsUnique(ratio: real, one: seq<real>, other: seq<real>)
    requires ratio > 0.0 && IsAtempoChain(ratio, one) && IsAtempoChain(ratio, other)
    ensures one == other
  {
    if !NearOne(ratio) {
      var n, m := |one| - 1, |other| - 1;
      if ratio > 2.0 {
        FullChainIsUnique(one[..n], one[n], other[..m], other[m]);
      } else if ratio < 0.5 {
        HalfChainIsUnique(one[..n], one[n], other[..m], other[m]);
      } else {
        SingleStage(ratio, one);
        SingleStage(ratio, other);
      }
      assert one == one[..n] + [one[n]] && other == other[..m] + [other[m]];
    }
  }

  // ---- Fitting audio to the scene ----

  const MIN_RATIO := 0.75
  const MAX_RATIO := 1.5

  datatype FitResult = FitResult(audio: Bytes, finalMs: int, appliedRatio: real, speedFlagged: bool, mimeType: string)

  /** current/target is below 3/4 or above 3/2. */
  predicate OutOfBounds(currentMs: int, targetMs: int) {
    4 * currentMs < 3 * targetMs || 2 * currentMs > 3 * targetMs
  }

  /** current/target is within 1% of 1. */
  predicate NearlyFits(currentMs: int, targetMs: int) {
    -targetMs < 100 * (currentMs - targetMs) < targetMs
  }

  predicate Flagged(currentMs: int, targetMs: int) {
    currentMs <= 0 || targetMs <= 0 || OutOfBounds(currentMs, targetMs)
  }

  function FinalMs(currentMs: int, targetMs: int): int {
    if Flagged(currentMs, targetMs) || NearlyFits(currentMs, targetMs) then currentMs else targetMs
  }

  /** The audio after the fit: untouched when flagged or close enough, else run through a single stage. */
  function FittedAudio(audio: Bytes, currentMs: int, targetMs: int,
          atempo: (Bytes, seq<real>) -> Option<Bytes>): Option<Bytes> {
    if Flagged(currentMs, targetMs) || NearlyFits(currentMs, targetMs) then Some(audio)
    else atempo(audio, [currentMs as real / targetMs as real])
  }

  function AppliedRatio(currentMs: int, targetMs: int): real {
    if Flagged(currentMs, targetMs) || NearlyFits(currentMs, targetMs) then 1.0
      else currentMs as real / targetMs as real
  }

  lemma CompareRatio(c: real, t: real, ratio: real, bound: real)
    requires t > 0.0 && t * ratio == c
    ensures ratio < bound <==> c < t * bound
    ensures ratio > bound <==> c > t * bound
  {
    assert t * bound - t * ratio == t * (bound - ratio);
  }

  lemma RatioBounds(currentMs: int, targetMs: int, ratio: real)
    requires currentMs > 0 && targetMs > 0 && ratio == currentMs as real / targetMs as real
    ensures (ratio < MIN_RATIO || ratio > MAX_RATIO) <==> OutOfBounds(currentMs, targetMs)
    ensures -0.01 < ratio - 1.0 < 0.01 <==> NearlyFits(currentMs, targetMs)
    ensures ratio > 0.0 && targetMs as real * ratio == currentMs as real
  {
    var c, t := currentMs as real, targetMs as real;
    assert t * ratio == c;
    CompareRatio(c, t, ratio, 0.75);
    CompareRatio(c, t, ratio, 1.5);
    CompareRatio(c, t, ratio, 0.99);
    CompareRatio(c, t, ratio, 1.01);
    CompareRatio(c, t, ratio, 0.0);
    assert 4.0 * c < 3.0 * t <==> 4 * currentMs < 3 * targetMs;
    assert 2.0 * c > 3.0 * t <==> 2 * currentMs > 3 * targetMs;
    assert 100.0 * (c - t) < t <==> 100 * (currentMs - targetMs) < targetMs;
    assert -t < 100.0 * (c - t) <==> -targetMs < 100 * (currentMs - targetMs);
  }

  /** Played at the applied ratio, the original length becomes the final one. */
  lemma RatioExplainsLength(currentMs: int, targetMs: int)
    ensures FinalMs(currentMs, targetMs) as real * AppliedRatio(currentMs, targetMs) == currentMs as real
  {
    if !Flagged(currentMs, targetMs) { RatioBounds(currentMs, targetMs, currentMs as real / targetMs as real); }
  }

  /** What ffmpeg makes of the audio with these stages. */
  predicate PlaysAs(r: Result<Bytes, string>, played: Option<Bytes>) {
    (r.Err? <==> played.None?) && (r.Ok? ==> r.value == played.value)
  }

  method ApplyAtempo(audio: Bytes, ratio: real, atempo: (Bytes, seq<real>) -> Option<Bytes>)
    returns (r: Result<Bytes, string>)
    ensures ratio <= 0.0 ==> r.Err?
    ensures ratio > 0.0 ==> exists filters :: IsAtempoChain(ratio, filters) && PlaysAs(r, atempo(audio, filters))
    ensures 0.5 <= ratio <= 2.0 && !NearOne(ratio) ==> PlaysAs(r, atempo(audio, [ratio]))
  {
    if ratio <= 0.0 {
      return Err("ratio must be positive");
    }
    var filters := BuildAtempoChain(ratio);
    if 0.5 <= ratio <= 2.0 && !NearOne(ratio) { SingleStage(ratio, filters); }
    var out := atempo(audio, filters);
    if out.None? {
      r := Err("ffmpeg atempo failed");
      assert PlaysAs(r, atempo(audio, filters));
      return;
    }
    r := Ok(out.value);
    assert PlaysAs(r, atempo(audio, filters));
  }

  /**
   * The fit against the two lengths. It is flagged exactly without a positive length or outside 3/4 to 3/2; flagged, or
   * strictly within 1% of the target, the audio is untouched and keeps its length. Otherwise it takes the target's
   * length, and is played through a chain whose ratio is the applied one and whose stages, multiplied with the final
   * length, give the original length.
   */
  ghost predicate Fits(r: FitResult, audio: Bytes, currentMs: int, targetMs: int,
          atempo: (Bytes, seq<real>) -> Option<Bytes>)
  {
    && (r.speedFlagged <==>
          currentMs <= 0 || targetMs <= 0 || 4 * currentMs < 3 * targetMs || 2 * currentMs > 3 * targetMs)
    && if r.speedFlagged || 99 * targetMs < 100 * currentMs < 101 * targetMs
       then r.audio == audio && r.finalMs == currentMs && r.appliedRatio == 1.0
       else r.finalMs == targetMs && exists filters ::
         && IsAtempoChain(r.appliedRatio, filters) && Playable(filters)
         && Product(filters) * r.finalMs as real == currentMs as real
         && atempo(audio, filters) == Some(r.audio)
  }

  /** Only an adjustment can fail: of a length within 3/4 to 3/2 of the target, but not within 1%. */
  ghost predicate FailsToFit(audio: Bytes, currentMs: int, targetMs: int, atempo: (Bytes, seq<real>) -> Option<Bytes>) {
    && 0 < 3 * targetMs <= 4 * currentMs && 2 * currentMs <= 3 * targetMs
    && !(99 * targetMs < 100 * currentMs < 101 * targetMs)
    && exists filters ::
      IsAtempoChain(currentMs as real / targetMs as real, filters) && atempo(audio, filters) == None
  }

  /** An adjusted audio is played at exactly its ratio: the shortcut near 1 is out of reach. */
  lemma AdjustedIsPlayed(currentMs: int, targetMs: int, ratio: real)
    requires !Flagged(currentMs, targetMs) && !NearlyFits(currentMs, targetMs)
    requires ratio == currentMs as real / targetMs as real
    ensures 0.5 <= ratio <= 2.0 && !NearOne(ratio)
    ensures IsAtempoChain(ratio, [ratio]) && Playable([ratio])
    ensures Product([ratio]) * targetMs as real == currentMs as real
  {
    RatioBounds(currentMs, targetMs, ratio);
    assert Product([ratio]) == ratio by { ProductAppend([], ratio); }
  }

  /** `atempo` runs ffmpeg on the audio with the given stages; None when it fails. */
  method FitToSegment(audio: Bytes, currentMs: int, targetMs: int, mimeType: string,
          atempo: (Bytes, seq<real>) -> Option<Bytes>)
    returns (r: Result<FitResult, string>)
    ensures r.Err? <==> FittedAudio(audio, currentMs, targetMs, atempo).None?
    ensures r.Ok? ==>
      && r.value.audio == FittedAudio(audio, currentMs, targetMs, atempo).value
      && r.value.speedFlagged == Flagged(currentMs, targetMs)
      && r.value.finalMs == FinalMs(currentMs, targetMs)
      && r.value.appliedRatio == AppliedRatio(currentMs, targetMs)
      && r.value.mimeType == mimeType
      && Fits(r.value, audio, currentMs, targetMs, atempo)
    ensures r.Err? ==> FailsToFit(audio, currentMs, targetMs, atempo)
  {
    if currentMs <= 0 {
      return Ok(FitResult(audio, currentMs, 1.0, true, mimeType));
    }
    if targetMs <= 0 {
      return Ok(FitResult(audio, currentMs, 1.0, true, mimeType));
    }
    var ratio := currentMs as real / targetMs as real;
    RatioBounds(currentMs, targetMs, ratio);
    if ratio < MIN_RATIO || ratio > MAX_RATIO {
      return Ok(FitResult(audio, currentMs, 1.0, true, mimeType));
    }
    if -0.01 < ratio - 1.0 < 0.01 {
      return Ok(FitResult(audio, currentMs, 1.0, false, mimeType));
    }
    var adjusted := ApplyAtempo(audio, ratio, atempo);
    AdjustedIsPlayed(currentMs, targetMs, ratio);
    if adjusted.Err? {
      assert atempo(audio, [ratio]) == None;
      return Err(adjusted.error);
    }
    assert atempo(audio, [ratio]) == Some(adjusted.value);
    return Ok(FitResult(adjusted.value, targetMs, ratio, false, mimeType));
  }

  /** Audio that is not flagged ends up strictly within 1% of the scene. */
  lemma UnflaggedFits(currentMs: int, targetMs: int)
    requires !Flagged(currentMs, targetMs)
    ensures NearlyFits(FinalMs(currentMs, targetMs), targetMs) && FinalMs(currentMs, targetMs) > 0
  {
  }

  // ---- The duration score (quality.py) ----

  /** Whole milliseconds beyond the longest, or short of the shortest, audio that `atempo` can fit. */
  function OverflowMs(audioMs: int, targetMs: int): nat {
    if audioMs > 0 && targetMs > 0 && 2 * audioMs > 3 * targetMs then (2 * audioMs - 3 * targetMs) / 2 else 0
  }

  function UnderflowMs(audioMs: int, targetMs: int): nat {
    if audioMs > 0 && targetMs > 0 && 4 * audioMs < 3 * targetMs then (3 * targetMs - 4 * audioMs) / 4 else 0
  }

  function DurationScore(audioMs: int, targetMs: int): real {
    var excess := OverflowMs(audioMs, targetMs) + UnderflowMs(audioMs, targetMs);
    if excess as real > 10000.0 then 0.0 else 1.0 - excess as real / 10000.0
  }

  /**
   * For positive lengths one minus the score is a ten-thousandth per whole millisecond (at most 1) between the audio
   * and the nearest length that `atempo` can fit, from 3/4 to 3/2 of the target.
   */
  lemma ScoreFallsLinearly(audioMs: int, targetMs: int) returns (missing: nat)
    requires audioMs > 0 && targetMs > 0
    ensures DurationScore(audioMs, targetMs) == if missing >= 10000 then 0.0 else 1.0 - missing as real / 10000.0
    ensures
      if 2 * audioMs > 3 * targetMs then 2 * missing <= 2 * audioMs - 3 * targetMs < 2 * missing + 2
      else if 4 * audioMs < 3 * targetMs then 4 * missing <= 3 * targetMs - 4 * audioMs < 4 * missing + 4
      else missing == 0
  {
    missing := OverflowMs(audioMs, targetMs) + UnderflowMs(audioMs, targetMs);
  }

  /**
   * A perfect duration score does not promise an unflagged fit: the two disagree exactly when a length is not
   * positive, or the audio is out of bounds by less than one millisecond.
   */
  lemma PerfectScoreGap(audioMs: int, targetMs: int)
    ensures DurationScore(audioMs, targetMs) == 1.0 && Flagged(audioMs, targetMs)
       <==> || audioMs <= 0 || targetMs <= 0
            || 2 * audioMs == 3 * targetMs + 1 || 0 < 3 * targetMs - 4 * audioMs < 4
  {
    var excess := OverflowMs(audioMs, targetMs) + UnderflowMs(audioMs, targetMs);
    assert DurationScore(audioMs, targetMs) == 1.0 <==> excess == 0;
  }

  /** No audio at all for a scene of one second, and audio half a millisecond too long for one of 333 ms. */
  lemma PerfectScoresFlagged()
    ensures DurationScore(0, 1000) == 1.0 && Flagged(0, 1000)
    ensures DurationScore(500, 333) == 1.0 && Flagged(500, 333)
  {
    PerfectScoreGap(0, 1000);
    PerfectScoreGap(500, 333);
  }
}

# Verification of the narration pipeline's core algorithms

A Dafny model of the parts of the repository whose correctness is hardest to see, with machine-checked proofs:

- **Word timing** (`Rounding`, `Words`, `Text`, `Alignment`, `Synthesizer`, `Validator`, `SpeedControl`, `Iterate`,
  `Segments`): how a transcript is validated, narration is synthesized and fitted to its scene, and every word gets a
  place on the video's timeline. The main results are exact tiling, no accumulated drift, and the end-to-end bound of a
  scene.
- **The transactional outbox** (`Outbox`, `OutboxProtocol`): one relay tick over the table, liveness of a single relay,
  and safety of any number of relays over every run.
- **Chunked upload** (`Decimal`, `Keys`, `Tracker`, `Assembly`, `Upload`, `Client`, `SizeCap`): trackers, handlers,
  in-place sort and reassembly, the client's split, and the size cap under concurrency.
- **The gateway's rate limiter** (`RateLimits`): admissions over all traces.

Loops and state changes are methods and classes, proved against functions whose properties are then lemmas. Services,
clocks and networks are parameters: a function per attempt, a record of answers per request, or a step of a protocol.
Times are integers; where the source divides, a time is a numerator over an explicit scale, and real ratios are exact.

## What the proofs found

Where the code does not do what its documentation or its shape suggests, the model follows the code, a lemma shows it,
and another gives the exact condition.

- `pkg/outbox/outbox.go:110-112` says relays claim with UPDATE ... RETURNING and cooperate without overlap. The claim is
  a plain SELECT ... FOR UPDATE SKIP LOCKED outside any transaction (`:136-146`), so its locks are gone before
  publishing. Two relays can hold one row; the recorded attempts are bounded by MaxAttempts - 1 + R, that bound is
  reached, and MaxAttempts itself caps them only for one relay (`OutboxProtocol.CappedOnlyAlone`). It caps the publishes
  themselves (`:72-74`) only if in addition no outcome is lost; when updates fail a row is published without end
  (`OutboxProtocol.PublishesCappedExactly`, `OutboxProtocol.PublishesUnbounded`).
- The 2 GiB cap is checked before the chunk is stored, and the size recorded after. k concurrent posts can record
  exactly 2 GiB + (k - 1) * 32 MiB (`SizeCap.CapHolds`, `SizeCap.CapIsReached`). The file that is assembled is not bound
  by the records: a body that is stored and then not recorded, or recorded in another order than stored, leaves a record
  smaller than the body, and this can be repeated up to a petabyte (`SizeCap.StoredBytesOvershoot`,
  `Client.OversizedUpload`). The file keeps to 2 GiB only with one post at a time and no failure after a store
  (`SizeCap.FilesWithinLimitExactly`). A re-sent chunk is counted twice by the check, so near the cap a retry that fits
  is refused (`Upload.SizeCheckOnResend`, `Client.ResendAtCap`).
- A completion deletes the chunks and the tracker entry before it publishes. Once it has stored the final object it can
  be repeated only if it cleaned up nothing at all: after a failed publish the client gets a 500 and a retry finds no
  chunks, and after a refused purge any deleted chunk leaves an entry that cannot be assembled as it is
  (`Upload.RetryExactly`, `Upload.CompletionKeepsRecordsStored`, `Upload.FailedCompletionLosesUpload`).
- The rate limiter is described as a token bucket and a sliding-window approximation. It is a fixed window: a minute can
  admit twice the limit less one, or twice the limit with both ends included. A request that starts a counter whose
  EXPIRE is refused, or whose INCR is applied but reports an error so that EXPIRE is never sent, leaves a counter that
  never ends: after `limit` requests the identity is shut out for good, but for requests on which INCR fails, and in no
  other case (`RateLimits.LimitedOnlyToOne`, `RateLimits.ShutOutExactly`, `RateLimits.OneRequestShutsOut`).
- Requests without a user are said to be counted per remote IP. They are counted per remote address, port included, and
  a user whose id is such an address shares its counter (`RateLimits.SharedCounters`).
- With a final duration of zero provider timings are neither scaled nor clamped (`Alignment.RescaleInsideExactly`). A
  scene without length is never speed-flagged, and its words run past it (`Segments.KeepsToSceneExactly`). A perfect
  duration score can come with a speed flag: whenever a length is not positive, and else when the audio is out of bounds
  by less than a millisecond (`SpeedControl.PerfectScoreGap`, `SpeedControl.PerfectScoresFlagged`).
- A provider error on a later attempt discards the audio of the earlier ones (`Iterate.ErrorDiscardsEarlier`).

## Model

| member | source | states |
|---|---|---|
| `Words.EnforceMonotonic` | services/tts-service/tts/alignment.py:118-128 | the closing pass, a loop, computes the pass function whose laws follow |
| `Words.MonotonicIsRunningMaximum` | services/tts-service/tts/alignment.py:118-128 | every output time is the maximum of the start value and all flattened input times up to it |
| `Words.MonotonicOrders` | services/tts-service/tts/alignment.py:118-128 | the output is one non-overlapping timeline with the same texts, and no time is lowered |
| `Words.MonotonicIsLeast` | services/tts-service/tts/alignment.py:118-128 | it is the pointwise least ordered timeline above the input |
| `Words.MonotonicFixesExactlyOrdered` | services/tts-service/tts/synthesizer.py:148-157 | its fixed points are exactly the ordered timelines; it is idempotent |
| `Words.MonotonicPreservesAtLeast` | services/tts-service/tts/synthesizer.py:148-157 | raising input times never lowers an output time |
| `Words.MonotonicStaysWithin` | services/tts-service/tts/synthesizer.py:148-157 | the output stays in any band that holds the start value and the input times |
| `Rounding.RoundIsNearestEven` | services/tts-service/tts/alignment.py:61-62 | Python's `round` of an exact ratio is the nearest integer, the even one on a tie |
| `Rounding.NearestEvenMonotone` | services/tts-service/tts/alignment.py:61-62 | rounding to nearest even is unique and monotone |
| `Alignment.RescaleProviderAlignment` | services/tts-service/tts/alignment.py:47-76 | the loop, with its running latest end, is the rescale function followed by the pass; empty input gives none |
| `Alignment.RescaleScales` | services/tts-service/tts/alignment.py:47-76 | for any timings, ordered or not, each result time is the largest provider time up to it (at least 0), scaled by final / last end to the nearest millisecond, capped at the final duration, unscaled without one, then moved by the offset and kept from going below 0 |
| `Alignment.RescaleStretches` | services/tts-service/tts/alignment.py:47-76 | for ordered timings each start and end, less the offset, is the nearest-even integer of its provider time * final / last end |
| `Alignment.RescaleStaysInside` | services/tts-service/tts/alignment.py:47-76 | rescaling keeps words and order, and every time lies in [offset, offset + final] |
| `Alignment.RescaleEndsWithAudio` | services/tts-service/tts/alignment.py:47-76 | the last word ends exactly at offset + final if and only if some provider time is at least 1 ms |
| `Alignment.RescaleAlreadyOrdered` | services/tts-service/tts/alignment.py:47-76 | when no word ends before it starts the closing pass changes nothing |
| `Alignment.RescaleOfExactSpanShifts` | services/tts-service/tts/alignment.py:47-76 | ordered timings that already span the final audio are only shifted by the offset |
| `Alignment.RescaleInsideExactly` | services/tts-service/tts/alignment.py:55-76 | all rescaled words lie in [offset, offset + final] if and only if there is a final duration or the provider reported no time at all |
| `Alignment.ProportionalAlignment` | services/tts-service/tts/alignment.py:79-115 | the cursor loop with its two bumps is the closed-form cut of the audio at rounded cumulative weights, then the pass |
| `Alignment.ProportionalTiles` | services/tts-service/tts/alignment.py:79-115 | the tokens tile [offset, offset + duration] exactly, and every boundary is within 1.5 ms of duration * W_i / W, whatever the number of words |
| `Alignment.AlignedTiles` | services/tts-service/tts/alignment.py:26-44 | a segment without provider timings gets exactly the tokens of its text, tiling the audio without drift, also when the audio is empty |
| `Alignment.WeightCountsCharacters` | services/tts-service/tts/alignment.py:91-92 | the weight of the first tokens is the number of their characters plus the number of tokens |
| `Alignment.ProportionalUnbumped` | services/tts-service/tts/alignment.py:95-107 | when 2 * duration exceeds the total weight no bump fires and every word has positive length |
| `Alignment.HalfMillisecondCanBump` | services/tts-service/tts/alignment.py:95-107 | counterexample family: at every even total weight from 8 on, 2 * duration equal to the weight lets two boundaries coincide and the bump reach into the next word |
| `Alignment.AlignWordsToSegment` | services/tts-service/tts/alignment.py:18-44 | exactly a negative duration is an error; otherwise provider timings are rescaled, else the text is cut proportionally |
| `Text.SplitTokens` | services/tts-service/tts/synthesizer.py:97-145 | whitespace splitting gives non-empty space-free tokens that hold exactly the non-space characters |
| `Text.StripKeepsTokens` | services/tts-service/tts/synthesizer.py:97-145 | stripping changes no token and empties exactly the strings without tokens |
| `Text.StripTrims` | services/tts-service/tts/synthesizer.py:372-374 | stripping takes away all whitespace at both ends and nothing else |
| `Synthesizer.AggregateCharactersToWords` | services/tts-service/tts/synthesizer.py:97-145 | length mismatch is an error; otherwise the flushing loop is the aggregation function |
| `Synthesizer.AggregationConservesCharacters` | services/tts-service/tts/synthesizer.py:97-145 | for entries of any length the words hold exactly the non-space characters, in order |
| `Synthesizer.AggregationTrims` | services/tts-service/tts/synthesizer.py:97-145 | for entries of any length no word is empty, or begins or ends with whitespace |
| `Synthesizer.AggregationRefinesSplit` | services/tts-service/tts/synthesizer.py:97-145 | for single-character entries the words are the whitespace-separated tokens of the concatenation |
| `Synthesizer.AggregationTimesRuns` | services/tts-service/tts/synthesizer.py:97-157 | for chronological timings there is one word per maximal run of non-space entries, from the start of its first to the end of its last one, in seconds * 1000 to the nearest millisecond |
| `Synthesizer.MarksToAlignment` | services/tts-service/tts/synthesizer.py:363-385 | the Polly loop: none when no mark has text, else the words of the sorted marks and the pass |
| `Synthesizer.WordsOfMarks` | services/tts-service/tts/synthesizer.py:363-385 | for non-negative times there is one word per mark with text, in order of time: its stripped text, from its time to the time of the next mark, blank or not, or for the last mark 70 ms per character and at least 1 ms |
| `Synthesizer.MarksTile` | services/tts-service/tts/synthesizer.py:363-385 | when every mark has a time and text, the words run without gaps from the first time to the last time plus max(1, 70 * length) |
| `Synthesizer.SortMarksSorts` | services/tts-service/tts/synthesizer.py:363-385 | sorting orders the marks by time, loses none, and keeps equal times in their order |
| `Synthesizer.SortedMarksNeedNoPass` | services/tts-service/tts/synthesizer.py:363-385 | with non-negative times the closing pass is idle after sorting |
| `Validator.SynthesizeWords` | services/video-analyzer/analyzer/validator.py:95-131 | the fallback timing loop is the recursive cut of the segment |
| `Validator.SynthesizedTiles` | services/video-analyzer/analyzer/validator.py:95-131 | the tokens tile the segment from start to end with no negative length |
| `Validator.TextWeighsCharacters` | services/video-analyzer/analyzer/validator.py:110-112 | a token weighs its characters, and all of them together the characters of the text other than whitespace |
| `Validator.SynthesizedCut` | services/video-analyzer/analyzer/validator.py:110-131 | for every segment and word: it starts where the one before ended and ends floor(max(1, span) * characters / all characters) later, at least 1 ms later, never past the segment; the last one ends with the segment |
| `Validator.SynthesizedShares` | services/video-analyzer/analyzer/validator.py:110-131 | with a millisecond per character every non-last word lasts exactly its floored share, at least 1 ms |
| `Validator.SynthesizedLastShare` | services/video-analyzer/analyzer/validator.py:110-131 | the last of n > 1 words gets its exact share plus less than n - 1 ms |
| `Validator.ValidateTranscript` | services/video-analyzer/analyzer/validator.py:139-254 | returns every segment cleaned, or the index and reason of the first failing check; schema violations come first |
| `Validator.VerdictIsFirstBroken` | services/video-analyzer/analyzer/validator.py:196-241 | a segment's reason is the first condition it breaks in the order of the checks, each condition written out, and none is reported exactly when none is broken |
| `Validator.CleanedKeeps` | services/video-analyzer/analyzer/validator.py:243-251 | an accepted segment keeps its id, times and confidence, its text is the sanitized one, and its words are the tokens of that text and tile the segment |
| `Validator.AcceptedExactly` | services/video-analyzer/analyzer/validator.py:186-254 | a schema-valid list is accepted if and only if each segment passes its own checks, an end by duration + 250 for a positive duration among them, and adjacent segments are ordered |
| `Validator.NoDurationNoLimit` | services/video-analyzer/analyzer/validator.py:189-193 | an absent or non-positive duration limits nothing: a segment of any length is accepted |
| `Validator.RemovingSanitizerNeverTooLong` | services/video-analyzer/analyzer/validator.py:88-92 | with a sanitizer that only removes text, four of the later checks can never fail |
| `Validator.AcceptedWhenOnlyRemoving` | services/video-analyzer/analyzer/validator.py:186-254 | with such a sanitizer, acceptance of a schema-valid list is exactly start before end, end within the tolerated duration, text left, and order |
| `Validator.EarlierEndsFirst` | services/video-analyzer/analyzer/validator.py:227-230 | in an accepted list every earlier segment ends by the start of every later one, adjacent or not |
| `Validator.ValidatedTimeline` | services/video-analyzer/analyzer/validator.py:186-254 | the words of all accepted segments are one ordered timeline from 0 on; for a positive duration every segment and word ends by duration + 250 |
| `SpeedControl.BuildAtempoChain` | services/tts-service/tts/speed_control.py:139-159 | for every positive ratio the loops end with full stages and one rest, every stage in [0.5, 2], and the product is the ratio, except strictly within 0.001 of 1, where the chain is one stage of 1 |
| `SpeedControl.ChainIsUnique` | services/tts-service/tts/speed_control.py:139-159 | the ratio determines the chain |
| `SpeedControl.FullSpeedStages` | services/tts-service/tts/speed_control.py:147-151 | the doubling loop: full stages times the rest is the ratio |
| `SpeedControl.HalfSpeedStages` | services/tts-service/tts/speed_control.py:152-155 | the halving loop terminates and keeps the product |
| `SpeedControl.PlayableReach` | services/tts-service/tts/speed_control.py:139-159 | n playable stages reach only ratios between 2^-n and 2^n |
| `SpeedControl.ChainIsShortest` | services/tts-service/tts/speed_control.py:139-159 | no playable chain with the same product is shorter than the one built |
| `SpeedControl.RatioBounds` | services/tts-service/tts/speed_control.py:66-92 | the real comparisons on current/target are the integer cross-multiplications |
| `SpeedControl.FitToSegment` | services/tts-service/tts/speed_control.py:35-105 | flagged exactly without a positive length or outside 3/4 to 3/2; flagged or strictly within 1% the audio is untouched, else it is played through a chain for the applied ratio whose product times the final length, the target, is the original length; it fails only when such a chain fails |
| `SpeedControl.RatioExplainsLength` | services/tts-service/tts/speed_control.py:66-105 | the final duration times the applied ratio is the synthesized duration, on every path |
| `SpeedControl.ApplyAtempo` | services/tts-service/tts/speed_control.py:108-136 | a non-positive ratio is an error; for every other ratio ffmpeg runs that ratio's chain, and fails when ffmpeg does |
| `SpeedControl.UnflaggedFits` | services/tts-service/tts/speed_control.py:66-105 | audio that is not flagged ends strictly within 1% of the scene |
| `SpeedControl.ScoreFallsLinearly` | services/tts-service/tts/quality.py:159-182 | for positive lengths the score loses a ten-thousandth per whole millisecond between the audio and 3/4 to 3/2 of the target, down to 0 |
| `SpeedControl.PerfectScoreGap` | services/tts-service/tts/quality.py:159-182 | a perfect duration score goes with a speed flag exactly when one of the lengths is not positive or the audio is out of bounds by less than 1 ms, for all lengths |
| `SpeedControl.PerfectScoresFlagged` | services/tts-service/tts/quality.py:159-182 | counterexamples: no audio for a second, and 500 ms for a scene of 333 ms |
| `Iterate.SynthesizeWithIteration` | services/tts-service/tts/iterate.py:50-146 | an error exactly when some attempt raises; otherwise the run the services determine, and from one attempt of it the earliest with maximal score, with one history record per attempt |
| `Iterate.ErrorDiscardsEarlier` | services/tts-service/tts/iterate.py:78-146 | counterexample: a first attempt is synthesized, the second raises, and the run ends in an error |
| `Iterate.FirstBestIsUnique` | services/tts-service/tts/iterate.py:103-104 | there is only one earliest best attempt |
| `Iterate.RunIsUnique` | services/tts-service/tts/iterate.py:74-146 | services and settings determine the attempts, and whether they end in a result or an error |
| `Iterate.AttemptsAreScored` | services/tts-service/tts/iterate.py:80-86 | every attempt: the provider's audio for its text, scored against the target or, when that is 0, its own length; the first text is given, each later one is the rewriter's answer to the attempt before |
| `Iterate.StopsExactly` | services/tts-service/tts/iterate.py:64-136 | attempts end a run if and only if the last passes, the limit is reached or the rewriter has no other text; if not, the run raises if and only if the provider does |
| `Iterate.HistoryTells` | services/tts-service/tts/iterate.py:88-95 | the history holds number, text, length and score of each attempt |
| `Iterate.RunLength` | services/tts-service/tts/iterate.py:64-78 | between 1 and max(1, max_iterations) syntheses run, exactly one when disabled |
| `Iterate.RunChangesText` | services/tts-service/tts/iterate.py:114-136 | consecutive texts differ and only the last attempt can pass |
| `Iterate.PassingAttemptIsReturned` | services/tts-service/tts/iterate.py:103-120 | an attempt that passes is the last one made and the one returned |
| `Segments.ProcessSegment` | services/tts-service/main.py:315-411 | fails exactly when an attempt, the fit, the alignment, the upload or the update does; otherwise what is stored is a fit of the earliest best attempt to the scene's length, flagged when that fit is or the score is below the threshold, and unflagged words lie in [start, start + duration] with a duration strictly within 1% of the scene |
| `Segments.AttemptsFollowScene` | services/tts-service/main.py:320-355 | attempts are scored against the scene's length, when it has one, at most as many as configured, and all but the last below the threshold |
| `Segments.FitAndAlign` | services/tts-service/main.py:360-371 | the fit and the alignment of the chosen audio, and when either fails |
| `Segments.SceneBound` | services/tts-service/main.py:332-384 | unflagged audio is within 1% of the scene, all words lie between scene start and the end of the audio, and the last word ends exactly there if and only if the words cover any time |
| `Segments.KeepsToSceneExactly` | services/tts-service/main.py:332-365 | for unflagged audio no word runs 1% of the scene past its end, if and only if the scene has a length, for provider and proportional timings alike |
| `Segments.ScenesBarelyOverlap` | services/tts-service/main.py:315-411 | across an accepted transcript, words of an earlier unflagged scene pass words of a later one by less than 1% of the earlier scene |
| `Segments.ParsedTimingsNeedNoPass` | services/tts-service/tts/alignment.py:47-76 | timings from either provider parser go through the rescale without its closing pass |
| `Segments.QualityFlagMeansNoAttemptPassed` | services/tts-service/main.py:381-386 | quality flags a segment exactly when no attempt passed |
| `Segments.EmptySceneIsNeverSpeedFlagged` | services/tts-service/main.py:332-365 | a scene without length is never speed-flagged |
| `Outbox.RelayConfig.WithDefaults` | pkg/outbox/outbox.go:77-87 | each setting by itself: kept when positive, else 1 second, 100 rows, 8 attempts |
| `Outbox.JobEvents.TxPublish` | pkg/outbox/outbox.go:44-63 | fails exactly on missing ids, an unencodable payload or a failing insert, leaving the table unchanged; otherwise appends one fresh row |
| `Outbox.JobEvents.Claim` | pkg/outbox/outbox.go:136-145 | the query returns the first `limit` eligible rows in id order |
| `Outbox.BatchRank` | pkg/outbox/outbox.go:136-145 | the k-th claimed row is the eligible row with exactly k eligible ones before it |
| `Outbox.BatchLength` | pkg/outbox/outbox.go:136-145 | the batch has min(limit, number eligible) rows |
| `Outbox.JobEvents.Update` | pkg/outbox/outbox.go:194-205 | one update changes the one row with that id |
| `Outbox.Relay.Tick` | pkg/outbox/outbox.go:135-192 | a failed claim changes nothing; otherwise the tick claims, publishes and marks each row of the batch once, in order, touches no other row, and counts the rows confirmed whose update reported success |
| `Outbox.Relay.PublishBatch` | pkg/outbox/outbox.go:170-192 | the publishing loop against the table function |
| `Outbox.CountsNewlyPublished` | pkg/outbox/outbox.go:170-192 | the number a tick returns is at most the number of rows it published in the table, and equal if and only if no update that marked a published row reported an error |
| `Outbox.ProcessNext` | pkg/outbox/outbox.go:176-190 | one pass of the loop moves the table from k to k + 1 processed rows |
| `Outbox.TickUsesAttempts` | pkg/outbox/outbox.go:135-205 | as long as updates apply, a tick uses up min(batch, eligible) of the attempts left on any id prefix, whatever the broker answers |
| `Outbox.ClaimedInTime` | pkg/outbox/outbox.go:135-205 | as long as updates apply, an eligible row is claimed by a tick n with n * BatchSize at most the attempts left on smaller ids |
| `Outbox.NoStarvation` | pkg/outbox/outbox.go:135-205 | as long as updates apply, a row with k eligible rows ahead is claimed within floor(k * MaxAttempts / BatchSize) + 1 ticks |
| `Outbox.BacklogDrains` | pkg/outbox/outbox.go:135-205 | with nothing new and as long as updates apply, after as many ticks as attempts left every row is published or has MaxAttempts attempts |
| `OutboxProtocol.StepKeepsInv` | pkg/outbox/outbox.go:135-205 | every step of every relay keeps the counting invariant |
| `OutboxProtocol.RelaySafety` | pkg/outbox/outbox.go:135-205 | over every run of R relays with crashes, lost updates and ambiguous errors: published means confirmed, recorded attempts and holders never exceed MaxAttempts - 1 + R, publishes are the recorded attempts, those in flight and the lost ones, and unpublished means eligible or MaxAttempts failures seen |
| `OutboxProtocol.RowsPersist` | pkg/outbox/outbox.go:194-205 | rows are never lost, never unpublished, and attempts never go down |
| `OutboxProtocol.BoundIsReached` | pkg/outbox/outbox.go:136-146 | for every MaxAttempts and R some run without any loss publishes a row MaxAttempts - 1 + R times |
| `OutboxProtocol.CappedOnlyAlone` | pkg/outbox/outbox.go:110-146 | MaxAttempts caps the recorded attempts in every run if and only if there is one relay |
| `OutboxProtocol.PublishesUnbounded` | pkg/outbox/outbox.go:170-205 | counterexample: for every n some run publishes a row n times with no recorded attempt, all its updates being lost |
| `OutboxProtocol.PublishesCappedExactly` | pkg/outbox/outbox.go:72-74 | MaxAttempts caps how often a row is published if and only if there is one relay and no outcome is lost |
| `OutboxProtocol.TickIsRun` | pkg/outbox/outbox.go:135-192 | a tick of the class is a run of the protocol from any matching state |
| `Decimal.AtoiItoa` | cmd/upload-service/main.go:746-767 | reading a printed integer gives it back exactly when it fits 64 bits |
| `Decimal.ItoaInjective` | cmd/upload-service/main.go:722 | no two integers print alike |
| `Decimal.AtoiAcceptsOtherSpellings` | cmd/upload-service/main.go:247 | reading is not injective: a plus sign or a leading zero is accepted |
| `Keys.IsSafeID` | cmd/upload-service/main.go:534-546 | accepts exactly 1 to 128 letters, digits, hyphens and underscores |
| `Keys.ChunkKeysDiffer` | cmd/upload-service/main.go:530-532 | for safe ids equal chunk keys mean equal upload and equal index |
| `Keys.ChunkIsNeverFinal` | cmd/upload-service/main.go:386 | no chunk key equals any upload's final key |
| `Keys.FinalKeysDiffer` | cmd/upload-service/main.go:386 | equal final keys mean equal upload and extension |
| `Keys.TrackerKeysDiffer` | cmd/upload-service/main.go:718 | uploads never share a Redis hash |
| `Tracker.SumTakesAny` | cmd/upload-service/main.go:793-801 | a total over a map does not depend on the iteration order |
| `Tracker.SumUpdate` | cmd/upload-service/main.go:784 | recording an index again replaces its share of the total |
| `Tracker.MemoryTracker.RecordChunk` | cmd/upload-service/main.go:775-785 | the one entry is set, everything else kept |
| `Tracker.MemoryTracker.ChunkCount` | cmd/upload-service/main.go:787-791 | the number of distinct indices |
| `Tracker.MemoryTracker.TotalSize` | cmd/upload-service/main.go:793-801 | the int64 total, in any iteration order |
| `Tracker.MemoryTracker.ListChunks` | cmd/upload-service/main.go:803-812 | each index once, in some order |
| `Tracker.MemoryTracker.Purge` | cmd/upload-service/main.go:814-819 | forgets the upload and no other |
| `Tracker.RedisTracker.RecordChunk` | cmd/upload-service/main.go:720-729 | writes the decimal field unless HSET is refused, keeps the hash representing the integer map, and succeeds when both commands do |
| `Tracker.RedisTracker.ChunkCount` | cmd/upload-service/main.go:731-737 | when Redis answers, the count an in-memory tracker would give after the same calls |
| `Tracker.RedisTracker.TotalSize` | cmd/upload-service/main.go:739-753 | an error exactly when Redis fails or a size does not parse; the in-memory tracker's total after the same calls |
| `Tracker.RedisTracker.ListChunks` | cmd/upload-service/main.go:755-769 | an error exactly when Redis fails or an index does not parse; after the same calls a listing of the in-memory tracker's indices |
| `Tracker.RedisTracker.Purge` | cmd/upload-service/main.go:771-773 | removes the upload's hash unless refused, and keeps representing the integer map |
| `Tracker.StepRefines` | cmd/upload-service/main.go:718-819 | every write keeps the hash representing the integer map |
| `Tracker.RedisRefinesMemory` | cmd/upload-service/main.go:718-819 | after any calls, with any answers and expiries, count, total and listing read from Redis agree with the in-memory tracker |
| `Assembly.SortInts` | cmd/upload-service/main.go:565-572 | insertion sort in place: ascending, and a permutation |
| `Assembly.ListingIsUnique` | cmd/upload-service/main.go:508-526 | a set of indices has one ascending listing |
| `Assembly.RearrangedListing` | cmd/upload-service/main.go:508-526 | sorting a listing leaves a listing of the same indices |
| `Assembly.LatestWins` | cmd/upload-service/main.go:224-293 | the last post for an index is the one that counts |
| `Assembly.OrderDoesNotMatter` | cmd/upload-service/main.go:224-293 | posts that do not disagree about an index give the same chunks in any order, with any repetitions |
| `Assembly.AssembledPieces` | web/src/lib/api.ts:406-423 | concatenating the client's slices in index order gives the file |
| `Assembly.ReassemblyUndoesSplit` | web/src/lib/api.ts:406-423 | any posts that cover the slices, in any order and with re-sends, assemble to the file |
| `Upload.Server.HandleChunk` | cmd/upload-service/main.go:224-293 | reply, store and tracker for every input and every failure of the tracker or store, in the order of the checks; no other object and no other record changes, and what is recorded keeps an object under its key |
| `Upload.Server.StoreChunk` | cmd/upload-service/main.go:258-293 | the part from the size check on |
| `Upload.SizeCheckOnResend` | cmd/upload-service/main.go:263-272 | the size check is exact for a new index and counts a re-sent index twice: when it refuses, exactly |
| `Upload.AdmittedKeepsSizes` | cmd/upload-service/main.go:263-285 | an admitted post keeps the recorded total within 2 GiB |
| `Upload.Server.ConcatChunks` | cmd/upload-service/main.go:508-526 | for any listing of the recorded indices: succeeds exactly when every chunk can be downloaded, and gives the bodies in ascending index order |
| `Upload.Server.DeleteChunks` | cmd/upload-service/main.go:406-411 | removes exactly the chunk objects whose deletion takes effect |
| `Upload.Server.HandleComplete` | cmd/upload-service/main.go:297-452 | when it queues and the exact status otherwise; once the final object is stored each recorded chunk is gone if its deletion takes effect and unchanged if not, whatever the purge answers, every other object is unchanged, and only this upload's records go, exactly when the purge takes effect |
| `Upload.Server.Finish` | cmd/upload-service/main.go:386-446 | the part from the final object on, object by object |
| `Upload.Server.HandleDelete` | cmd/upload-service/main.go:482-506 | removes the upload's chunks and entry and nothing else, reports how many were recorded |
| `Upload.PostsStayApart` | cmd/upload-service/main.go:224-293 | a post touches no other upload's chunks and no final object |
| `Upload.RemovalsStayApart` | cmd/upload-service/main.go:482-506 | removing an upload's chunks spares every other upload and every final object |
| `Upload.CompletionsStayApart` | cmd/upload-service/main.go:386-414 | a completion keeps the file it assembled and touches no other upload |
| `Upload.PostsKeepRecordsStored` | cmd/upload-service/main.go:224-293 | some object stays under the key of each recorded chunk over every post, whether it is recorded or not |
| `Upload.PostKeepsRecordsTrue` | cmd/upload-service/main.go:263-285 | a post keeps every record the length of its stored body if and only if nothing is stored, or it is recorded too, or its index is new, or the length is the recorded one |
| `Upload.AssembledLength` | cmd/upload-service/main.go:508-526 | with true records the assembled file is as long as the recorded total, so at most 2 GiB |
| `Upload.RemovalKeepsRecordsStored` | cmd/upload-service/main.go:482-506 | after removing an upload's chunks its records are backed if and only if the purge took effect or no deletion did; other uploads' always |
| `Upload.CompletionKeepsRecordsStored` | cmd/upload-service/main.go:386-414 | the same after a completion, which removes nothing unless the final object was stored |
| `Upload.RetryExactly` | cmd/upload-service/main.go:386-446 | after a completion that reached its final object, a good second one succeeds if and only if that object was not stored, or neither the entry nor any chunk was removed |
| `Upload.FailedCompletionLosesUpload` | cmd/upload-service/main.go:386-446 | counterexample: an upload that cannot be completed after a failed publish or a refused purge, and whose record the latter leaves unbacked |
| `Client.PostAll` | cmd/upload-service/main.go:224-293 | any sequence of stored posts leaves the last body per index, and all are stored when nothing fails and together they fit; recorded chunks stay in the store |
| `Client.UploadChunks` | web/src/lib/api.ts:401-421 | the slicing loop posts the slices in turn, stops at the first failure, and finishes when nothing fails and the file fits |
| `Client.UploadFile` | web/src/lib/api.ts:401-421 | round trip: what is queued is an object holding exactly the file, and it is queued when nothing fails, the file is not empty and within the limits, and it passes as a video |
| `Client.UploadInAnyOrder` | cmd/upload-service/main.go:224-452 | the round trip for slices sent in any order with re-sends: what is queued is an object holding exactly the file, and it is queued when nothing fails, all posts together fit, and it passes as a video |
| `Client.RetryCompletion` | cmd/upload-service/main.go:297-452 | two completions in a row: when the second is queued, exactly |
| `Client.ResendAtCap` | cmd/upload-service/main.go:263-272 | counterexample: an upload of exactly 2 GiB, whose first chunk is refused with 413 when sent again unchanged |
| `Client.OversizedUpload` | cmd/upload-service/main.go:263-285 | counterexample, one post at a time: records of 65 bytes, and a queued object of 65 * 32 MiB, after re-sends that were stored and not recorded |
| `SizeCap.StepKeepsInv` | cmd/upload-service/main.go:263-285 | check, store, record, abort and purge keep the invariant on recorded and pending bytes |
| `SizeCap.PostIsRun` | cmd/upload-service/main.go:263-285 | a post the server admits is a run of these steps, from what it holds to what it holds afterwards, whatever the store and the tracker answer |
| `SizeCap.CapHolds` | cmd/upload-service/main.go:263-285 | with at most k posts under way, recorded plus pending bytes never exceed 2 GiB + (k - 1) * 32 MiB, as long as the int64 total cannot wrap |
| `SizeCap.CapIsReached` | cmd/upload-service/main.go:263-285 | for every such k some run records exactly that many bytes |
| `SizeCap.RecordsWithinLimitExactly` | cmd/upload-service/main.go:263-285 | the recorded bytes stay within 2 GiB in every run if and only if k is 1 |
| `SizeCap.StoredBytesOvershoot` | cmd/upload-service/main.go:263-285 | when posts may fail after storing, or two may overlap, the bodies behind records within 2 GiB can reach (62 + n) * 32 MiB for every n up to 2^25 |
| `SizeCap.FilesWithinLimitExactly` | cmd/upload-service/main.go:37-44 | the documented limit on the total over all chunks: what a completion would assemble stays within 2 GiB in every run if and only if k is 1 and no post fails once its body is stored |
| `RateLimits.RateLimiter.constructor` | internal/gateway/middleware/ratelimit.go:31-33 | a limit that is not positive becomes 60 |
| `RateLimits.RateLimiter.Handle` | internal/gateway/middleware/ratelimit.go:35-80 | admission, the remaining header and the counter whether INCR and EXPIRE are done, refused, or applied with an error, which admits in any case; other identities untouched |
| `RateLimits.SharedCounters` | internal/gateway/middleware/ratelimit.go:37-45 | two requests share a counter if and only if they have the same user, or no user and the same remote address, or one's user id is the other's remote address |
| `RateLimits.FailsOpen` | internal/gateway/middleware/ratelimit.go:47-52 | every request on which INCR reports an error is admitted |
| `RateLimits.MinuteBound` | internal/gateway/middleware/ratelimit.go:45-80 | any half-open minute of any trace admits at most 2 * limit - 1 requests besides those on which INCR reported an error, whatever Redis answers |
| `RateLimits.ClosedMinuteBound` | internal/gateway/middleware/ratelimit.go:45-80 | with both ends included, at most 2 * limit |
| `RateLimits.MinuteBoundIsReached` | internal/gateway/middleware/ratelimit.go:45-80 | for every limit some trace admits 2 * limit - 1 in a half-open minute |
| `RateLimits.ClosedMinuteBoundIsReached` | internal/gateway/middleware/ratelimit.go:45-80 | for every limit some trace admits 2 * limit in a closed minute |
| `RateLimits.LimitedOnlyToOne` | internal/gateway/middleware/ratelimit.go:26-29 | over minutes in which INCR succeeds, none admits more than the limit if and only if the limit is 1 |
| `RateLimits.LifetimeAdmits` | internal/gateway/middleware/ratelimit.go:45-80 | within one key lifetime exactly the quota left is admitted |
| `RateLimits.EndlessExactly` | internal/gateway/middleware/ratelimit.go:48-60 | a counter has no deadline if and only if some request found none alive and either its INCR was lost or its EXPIRE refused |
| `RateLimits.ShutOutExactly` | internal/gateway/middleware/ratelimit.go:48-60 | no later counted request is ever admitted if and only if such a request exists and Redis has counted `limit` requests from it on |
| `RateLimits.OneRequestShutsOut` | internal/gateway/middleware/ratelimit.go:48-60 | counterexamples: with limit 1 a single request whose EXPIRE is refused, or whose INCR is lost, shuts the identity out |
| `RateLimits.LockedOut` | internal/gateway/middleware/ratelimit.go:54-58 | from the start of such a counter, at any point of a trace, exactly `limit` requests are ever admitted |
| `RateLimits.IdentitiesAreIndependent` | internal/gateway/middleware/ratelimit.go:37-45 | an identity's counter and admissions are those of its own requests alone |
| `RateLimits.EveryIdentityIsBounded` | internal/gateway/middleware/ratelimit.go:35-80 | the minute bound holds for each identity in every interleaving |

## Left out

- Floating-point error: ratios, scores and scaled times are exact. Rounding to integers is modelled (`Rounding`), as is
  the floor in the fallback word timings; the rounding of scores to three digits and the text formatting of atempo
  stages are not.
- Times from the character-alignment provider are integers over one common denominator, since they are decimal seconds.
- The combined quality score is an arbitrary real per attempt; its exp and log terms only feed the comparison.
- The transcript sanitizer is an arbitrary function; `Validator.RemovingSanitizerNeverTooLong` is what is used of the
  real one. Sanitizing is not idempotent.
- Providers, the scorer, the rewriter, ffmpeg, ffprobe, the broker, Postgres, Redis and the object store are parameters.
- HTTP and JSON plumbing, trimming of the id parameters, the choice of content type and the lower-casing of the file
  extension: handlers take the decoded values. The status handler only reads and is not modelled.
- Non-integer JSON numbers in a transcript, and reasons for a schema violation.
- SizeCap.CapHolds: with 2^38 - 64 or more posts at once the int64 total could wrap around, and nothing is claimed.
- Concurrent completion or deletion against posts of the same upload: handlers are atomic, except in `SizeCap`.
- The 24-hour expiry of a Redis hash is a step of `Tracker.Call`, without its clock.
- Overflow of identifiers and of the relay's counters; the int64 totals of the trackers do wrap. A failed insert may use
  up an id of the sequence.
- Rows removed from the outbox with their job: the protocol has no delete step.
- The relay's timer and the fairness of scheduling: liveness counts ticks.
- INCR and EXPIRE happen at one instant, and a counter ends exactly at its deadline.
- The names of the query parameters for a chunk index, on which client and server differ.
- The websocket hub, consumer-side deduplication, authentication, configuration, migrations, telemetry, the circuit
  breaker and the web interface.

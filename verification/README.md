# Frame-rate evaluation, modelled in Dafny

The repository records a pose-tracking video, makes lower-frame-rate copies
of it, measures every copy (duplicate frames, landmark coverage, joint
jitter and stability) and recommends the lowest rate whose metrics do not
degrade against the original. This project models the bookkeeping core of
that pipeline on abstract frames and proves its properties:

- **`FpsName`** (`fps_name.dfy`) — reading a frame rate out of a clip
  name: `_extract_fps` (the first `<digits>\s*fps` token, matched
  case-insensitively, else the first digit run, else an error), and the two
  ad-hoc parses of `run_pipeline` (the last `_` segment of the stem with
  "fps" removed, read by `int()`; the first digit run of each clip name).
- **`Downsample`** (`downsample.dfy`) — `downsample_video`: the default
  target list, the filter below the source rate, the output names, and the
  phase-accumulator decimator, with the exact count ⌊n·f/F0⌋ of frames each
  copy receives.
- **`ClipMetrics`** (`clip_metrics.dfy`) — `redundancy_stats`,
  `analyse_clip` (redundant pairs, full-visibility frames, per-joint
  trajectories with NaN markers, valid-point filtering, NaN-means) and
  `analyse_set` (baseline row first, then each clip with its deltas).
- **`Selection`** (`selection.dfy`) — `reshape_long`, `choose_fps` (the
  directional tolerance test, the p-value test, the per-rate conjunction and
  the largest passing rate, else the baseline; a rate shared by two clips
  fails the pivot in `pvals_vs_base`) and the selection at the end
  of `run_pipeline`.
- **`FrameReview`** (`frame_review.dfy`) — from `testing.py`:
  `is_similar`, `remove_similar_frames`, the per-threshold counts, the
  `create_image_grid` placement with `ceil(n/12)` rows, and the
  keypoint-match coverage of `process_video`.
- `Common` and `Text` hold the shared vocabulary: optional values, the
  error conditions, counting folds, decimal numerals and substring search.

Modelling choices:

- Floating-point values are exact reals. NaN is `None`. An exception is an
  `Err` carrying one `Error` constructor.
- The similarity score (SSIM), the pose detector (MediaPipe), the jitter
  and spread numerics, the all-black test and the p-values of the
  statistical tests are parameters. Video files become sequences of frames
  of a generic type `F`.
- A frame rate read from a name is a `nat`. A rate from the video
  container is a `real`.

Where the repository's prose and its code differ, the model follows the code:

- The coverage tolerance is stored as -0.02 and compared with `delta >= thresh`.
- `analyse_set` raises on an unreadable clip instead of skipping it.
- A fractional source rate such as 5.5 gives the default target 0. That
  target survives the `f < fps_orig` filter, and `fps_orig / f` then
  divides by zero (`Downsample.FractionalRateHitsZeroTarget`).
- The copies of a source whose stem already carries an fps token, such as
  `baseline_30fps.mp4`, are named `baseline_30fps_25fps.mp4` and so on.
  `_extract_fps` reads all of them as 30 (`Downsample.CopyNameReadsStemToken`).
- The recording hard-coded in `fps_check.py` ends in `_camera2`. Its base
  rate cannot be parsed, so `run_pipeline` raises before it selects a rate
  (`FpsName.ScriptRecordingHasNoBaseRate`).

## Model

| member | source | states |
|---|---|---|
| FpsName.ExtractFps | fps_result.py:22-34 | an error exactly when the name has no digit; when no `<digits>\s*fps` token matches anywhere, the first digit run is read |
| FpsName.ExtractFpsAt | fps_result.py:27-29 | when the leftmost token match starts at `i`, the value is the integer of the digit run at `i` |
| FpsName.ExtractFpsOfToken | fps_result.py:23-29 | a name whose first digits form `<n>fps` reads as `n` |
| FpsName.ExtractFpsOfBareNumber | fps_result.py:30-33 | with no fps token, a lone number in the name is read |
| FpsName.ExtractFpsWithoutDigits | fps_result.py:34 | a name without digits raises |
| FpsName.ExtractFpsExamples | fps_result.py:23-26 | 'baseline_30fps.mp4' gives 30, 'clip_25fps.mp4' gives 25, 'baseline_30' gives 30 |
| FpsName.ExtractFpsIsContained | fps_result.py:186-187 | `str(_extract_fps(name))` occurs in `name`, so the baseline search finds the row the maximum came from |
| FpsName.FirstRunValue | fps_check.py:31 | `str.extract(r"(\d+)").astype(int)` fails exactly when the name has no digit |
| FpsName.FirstRunValueAt | fps_check.py:31 | the value is that of the run starting at the first digit |
| FpsName.FileName | fps_check.py:30 | `Path.name`: a suffix of the path with no `/`, preceded by `/` unless it is the whole path |
| FpsName.Stem | fps_check.py:30 | `Path.stem`: a prefix of the name that drops exactly the last suffix, whose dot is neither first nor last |
| FpsName.LastSegment | fps_check.py:30 | `split(sep)[-1]`: a suffix without the separator, preceded by it unless it is the whole text |
| FpsName.RemoveFps | fps_check.py:30 | `replace("fps", "")` removes a multiple of three characters, and leaves the text unchanged exactly when the scan finds no "fps" |
| FpsName.HasFpsIffOccurs | fps_check.py:30 | the scan that `replace` performs finds "fps" exactly when "fps" occurs at some position |
| FpsName.RemoveFpsLeftmost | fps_check.py:30 | `replace` keeps everything before the leftmost "fps", drops that occurrence and resumes the scan right after it |
| FpsName.ParseInt | fps_check.py:30 | `int()` of a string succeeds exactly when, stripped of C whitespace, it is an optional sign followed by one or more digits; the only error is "not an integer" |
| FpsName.ParseIntOfSigned | fps_check.py:30 | a signed digit run reads as its value, negated after `-` |
| FpsName.ParseIntLeadingZero | fps_check.py:30 | a leading zero does not change the value read |
| FpsName.ParseIntSkipsSpace | fps_check.py:30 | whitespace in front of the text does not change the result |
| FpsName.ParseIntRoundTrip | fps_check.py:30 | `int(str(n)) == n` for every integer |
| FpsName.BaseFps | fps_check.py:30 | the base rate fails only with the "not an integer" error |
| FpsName.BaseFpsOfRateTaggedName | fps_check.py:30 | a recording named `<prefix>_<n>fps.<ext>` has base rate `n` |
| FpsName.CameraRecordingHasNoBaseRate | fps_check.py:30 | a recording named `<prefix>_camera<k>.mp4` has no base rate: `int()` raises |
| FpsName.ScriptRecordingHasNoBaseRate | fps_check.py:56 | the recording the script passes has no base rate |
| Downsample.DefaultStep | fps_check_lib.py:38 | the step is at least 1, equals ⌊F0/6⌋ from F0 >= 6 and is 1 below 12 |
| Downsample.DefaultTargets | fps_check_lib.py:37-41 | at most five default targets, each in [0, F0) |
| Downsample.DefaultTargetsShape | fps_check_lib.py:37-41 | the default list is the positive prefix of F0 - i·step, i = 1..5, truncated and strictly decreasing; the first candidate left out is not positive |
| Downsample.DefaultTargetsAt30 | fps_check_lib.py:39 | a 30 fps source gives [25, 20, 15, 10, 5] |
| Downsample.BelowSource | fps_check_lib.py:44 | keeps exactly the targets below F0; a list already below F0 is unchanged |
| Downsample.BelowSourceAppend | fps_check_lib.py:44 | the filter distributes over concatenation, so the kept targets stay in their input order |
| Downsample.BelowSourceSingle | fps_check_lib.py:44 | one target is kept exactly when it is below F0 |
| Downsample.TargetPlan | fps_check_lib.py:36-60 | the plan is drawn from the requested (else default) list, each entry nonzero and below F0; it fails with a zero rate exactly when 0 is listed and F0 > 0 |
| Downsample.DefaultPlanForWholeRate | fps_check_lib.py:37-44 | for a whole-number F0 the default plan succeeds and every target satisfies 0 < f < F0 |
| Downsample.FractionalRateHitsZeroTarget | fps_check_lib.py:37-60 | at 5.5 fps the default list is [4, 3, 2, 1, 0] and the plan fails on the zero rate |
| Downsample.KeptFrames | fps_check_lib.py:59-72 | the frames a copy receives from the first n are strictly increasing and all below n |
| Downsample.KeptFramesAreDue | fps_check_lib.py:59-72 | a frame below n is received exactly when ⌊(i+1)/ratio⌋ passes ⌊i/ratio⌋ |
| Downsample.CopyStep | fps_check_lib.py:68-72 | one frame through `acc[f] += 1; if acc[f] >= ratio[f]: write; acc[f] -= ratio[f]` keeps the copy's frames equal to the due frames and its accumulator equal to the unspent remainder, within [0, ratio) |
| Downsample.KeptCount | fps_check_lib.py:59-72 | with ratio >= 1, a copy of n frames receives ⌊n/ratio⌋ of them |
| Downsample.KeptCountForRates | fps_check_lib.py:59-72 | a copy at f of n frames at F0 receives ⌊n·f/F0⌋ frames |
| Downsample.Ratio | fps_check_lib.py:60 | the ratio F0/f is at least 1 for 0 < f <= F0 and multiplies back to F0 |
| Downsample.AccumulatorStep | fps_check_lib.py:68-72 | adding 1 to the accumulator reaches the ratio exactly when the frame is due, and 0 <= acc < ratio is kept |
| Downsample.FeedFrame | fps_check_lib.py:68-72 | one source frame keeps, for every target, the accumulator and frame list in step with the frame count |
| Downsample.Decimate | fps_check_lib.py:59-74 | after all frames each distinct lowering target has received exactly `KeptFrames` and its accumulator lies in [0, ratio) |
| Downsample.WriteCopies | fps_check_lib.py:53-72 | one copy per target, in order, named `<stem>_<f>fps.mp4`, holding the decimated frames |
| Downsample.DownsampleVideo | fps_check_lib.py:11-81 | an unopenable source raises; otherwise it fails exactly when the plan does, else one copy per planned rate, in order, named after the stem, with ⌊n·f/F0⌋ frames |
| Downsample.OutputPath | fps_check_lib.py:54 | the copy's path: the output directory, one `/`, and `<stem>_<f>fps.mp4` (its file name is stated by `CopyFileName`) |
| Downsample.CopyFileName | fps_check_lib.py:54 | for a stem without `/`, the file name of a copy's path is `<stem>_<f>fps.mp4` |
| Downsample.CopyNameReadsBack | fps_check_lib.py:54 | when the stem carries no fps token, `_extract_fps` reads a copy's own rate from its name |
| Downsample.CopyNameReadsStemToken | fps_check_lib.py:54 | when the stem carries an fps token, every copy's name reads as the stem's rate |
| ClipMetrics.PairScores | fps_check_lib.py:108-124 | one score per consecutive pair, comparing frame k with frame k+1 |
| ClipMetrics.CountAboveAntitone | fps_check_lib.py:120-121 | raising the threshold never adds redundant pairs |
| ClipMetrics.RedundancyStats | fps_check_lib.py:84-134 | an unreadable first frame raises; the ratio is the share of pairs strictly above the threshold over max(pairs, 1), lies in [0, 1], and the total counts the first frame |
| ClipMetrics.MeanSsimBounds | fps_check_lib.py:118-129 | the mean score lies within the scores' bounds |
| ClipMetrics.FullIffAllCounted | fps_check_lib.py:170-172 | the visible count equals the landmark count exactly when every landmark is visible |
| ClipMetrics.Trajectory | fps_check_lib.py:166-199 | the trajectory has one entry per frame, except that a first frame without a pose adds none |
| ClipMetrics.TrajectoryFirst | fps_check_lib.py:166-174 | the first frame contributes one entry if a pose is found, none otherwise |
| ClipMetrics.TrajectoryExtend | fps_check_lib.py:188-199 | every later frame appends exactly one entry to each joint |
| ClipMetrics.TrajectoryEmptyIff | fps_check_lib.py:166-199 | a trajectory is empty exactly when the clip is one frame without a pose |
| ClipMetrics.ValidPoints | fps_check_lib.py:210-213 | the non-NaN entries, in order, as many as the trajectory has numbers |
| ClipMetrics.ValidPointsAppend | fps_check_lib.py:212-213 | the valid points of a concatenation are those of each part, in order |
| ClipMetrics.ValidPointsSingle | fps_check_lib.py:212-213 | one entry contributes its point, or nothing when it is NaN |
| ClipMetrics.ValidPointCount | fps_check_lib.py:210-214 | a joint has as many valid points as there are frames with a pose |
| ClipMetrics.JointSummary | fps_check_lib.py:214-220 | a joint has a value exactly when it has more than one valid point |
| ClipMetrics.NanMean | fps_check_lib.py:222-223 | NaN exactly when every value is NaN |
| ClipMetrics.NanMeanBounds | fps_check_lib.py:222-223 | the NaN-mean lies within the bounds of the values present |
| ClipMetrics.PresentAppend | fps_check_lib.py:222-223 | the values present in a concatenation are those of each part, in order |
| ClipMetrics.NanMeanSkipsNaN | fps_check_lib.py:222-223 | inserting a NaN anywhere does not change the NaN-mean |
| ClipMetrics.NanMeanIsMean | fps_check_lib.py:222-223 | without NaN, the NaN-mean is the sum of the values over their count |
| ClipMetrics.JointValues | fps_check_lib.py:208-220 | one summary per tracked joint, in `JOINTS_IDX` order |
| ClipMetrics.ClipMetricsOf | fps_check_lib.py:154-231 | an unreadable clip, a pose too short for a tracked joint, and a one-frame clip without a pose (every trajectory empty, so the NaN mask cannot be taken along axis 1) are the errors, and only those |
| ClipMetrics.Observe | fps_check_lib.py:166-199 | a detected pose needs every tracked joint, counts as full when every landmark is visible and appends each joint; a missing pose appends NaN, except on the first frame |
| ClipMetrics.ScanFirst | fps_check_lib.py:161-174 | the counters and trajectories after the first frame are those of that frame |
| ClipMetrics.ScanFrame | fps_check_lib.py:177-199 | one more frame keeps the counters and trajectories those of the prefix read so far |
| ClipMetrics.ScannedAll | fps_check_lib.py:158-201 | after the last frame the counters and trajectories are those of the whole clip |
| ClipMetrics.ScanFrames | fps_check_lib.py:158-201 | the frame loop counts all frames, the pairs strictly above 0.95 and the full frames, and builds each joint's trajectory; it fails exactly when a pose lacks a tracked joint |
| ClipMetrics.AnalyseClip | fps_check_lib.py:154-231 | the loop-and-summary computation agrees with `ClipMetricsOf`, errors included |
| ClipMetrics.Summarise | fps_check_lib.py:204-231 | the summary step fails exactly when the clip is one frame without a pose; otherwise the frame count, the duplicate share, the coverage and the NaN-means of the joint values |
| ClipMetrics.ClipMetricsBounds | fps_check_lib.py:205-206 | coverage and the duplicate share lie in [0, 1]; the frame count is the clip's |
| ClipMetrics.JointValueIff | fps_check_lib.py:208-220 | one joint's value is a number exactly when a pose was found in at least two frames |
| ClipMetrics.JointValuesPresent | fps_check_lib.py:208-223 | the NaN-mean over the joints is a number exactly when a pose was found in at least two frames |
| ClipMetrics.JitterNeedsTwoPoses | fps_check_lib.py:208-231 | jitter and stability are reported exactly when at least two frames have a pose |
| ClipMetrics.OptionDiff | fps_check_lib.py:250-253 | a difference is NaN exactly when either side is, and adds back to the minuend |
| ClipMetrics.DeltasOf | fps_check_lib.py:250-253 | each delta, added to the baseline's value, gives the clip's value |
| ClipMetrics.CompareNext | fps_check_lib.py:247-253 | one comparison fails exactly when that clip's analysis fails; otherwise it appends the clip's row with its deltas against the baseline |
| ClipMetrics.AnalyseSet | fps_check_lib.py:234-256 | the baseline row comes first without deltas, then every other clip in order with its deltas; the first failing analysis fails the whole call with its error |
| Selection.ClipRates | fps_result.py:186 | fails exactly when some clip name has no digit; otherwise the rate of every row, in row order |
| Selection.LongRows | fps_result.py:40-43 | one long row per table row, in order, for subject "S0", with the row's rate and value |
| Selection.Insert | fps_result.py:44 | inserting into a sorted list keeps it sorted and adds exactly that row |
| Selection.SortByFps | fps_result.py:44 | sorted by rate and a permutation of the input |
| Selection.ReshapeLong | fps_result.py:36-45 | fails when a name has no digit, and on an empty table (no `fps` column to sort by); otherwise sorted by rate and a permutation of the long rows |
| Selection.ReshapeLongRows | fps_result.py:40-45 | one output row per input row, each for subject "S0" with some row's rate and value |
| Selection.FirstContaining | fps_result.py:187-189 | the first row whose name contains the text, or none when no row does |
| Selection.BaselineRowExists | fps_result.py:186-189 | for a non-empty table whose names all parse, a baseline row is always found |
| Selection.BaseIndex | fps_result.py:186-197 | the row whose values the baseline uses is the first whose name contains the baseline rate |
| Selection.Judge | fps_result.py:199-213 | the delta is NaN exactly when a value is, adds back to the value, and both checks pass exactly when the row is acceptable |
| Selection.MetricVerdicts | fps_result.py:199-213 | one verdict per row whose rate is not the baseline's, and no other |
| Selection.Verdicts | fps_result.py:194-213 | the verdicts are exactly those of every metric on every non-baseline row |
| Selection.PassingRates | fps_result.py:219-222 | exactly the rates of the verdicts whose rows all pass |
| Selection.AcceptedIffPasses | fps_result.py:219-222 | a rate's verdicts all pass exactly when, on every metric, every row at that rate is within tolerance and not significant |
| Selection.AcceptedPasses | fps_result.py:219-222 | an accepted rate has verdicts, and all of them pass |
| Selection.PassesAccepted | fps_result.py:219-222 | a rate with verdicts that all pass is accepted |
| Selection.PassingAreAccepted | fps_result.py:219-222 | the passing rates are exactly the accepted rates |
| Selection.ChooseFpsErrors | fps_result.py:161-215 | each failure exactly when it happens: a digitless name; an empty table; two clips with the same rate when there is a metric, because `pivot` rejects the repeated (subject, rate) pair; no metric or only one clip, because there is then no summary |
| Selection.SharedRateFails | fps_result.py:161-196 | two clips reading the same rate make the selection fail whatever the p-values, since every row has the one subject `S0`, the Wilcoxon branch is taken and its `pivot` raises |
| Selection.ChooseFpsSelects | fps_result.py:182-224 | the result is an accepted rate that no accepted rate exceeds, or the baseline when none is accepted, and never above the baseline |
| Selection.ChooseFps | fps_result.py:161-224 | the only errors are a digitless name, a missing baseline, a repeated rate and an empty summary; a result is always the rate of some row, and the rows' rates are then pairwise distinct |
| Selection.PassingAreRates | fps_result.py:219-222 | every passing rate is the rate of some row |
| Selection.FirstRuns | fps_check.py:31 | one rate per row, from the first digit run; fails exactly when a name has no digit |
| Common.AllOk | fps_check.py:31 | an element-wise conversion that raises gives every value when all elements convert, otherwise the error of the first element that fails |
| Selection.Qualifies | fps_check.py:39-44 | a row qualifies when its rate is not the base rate, Δcoverage >= -0.02, Δjitter <= 0.001, Δstability <= 0.001 and dup_pct <= 0.95 |
| Selection.QualifiesMono | fps_check.py:39-44 | the filter is monotone: better deltas or a lower duplicate share keep a row qualifying |
| Selection.NaNDeltaFails | fps_check.py:42-43 | a NaN jitter or stability change never qualifies |
| Selection.QualifyingRates | fps_check.py:39-45 | exactly the rates of the qualifying rows |
| Selection.SelectBest | fps_check.py:39-53 | the largest rate of a qualifying row, or the base rate when no row qualifies |
| Selection.PipelineBestFps | fps_check.py:30-53 | fails exactly when the base rate or a clip rate cannot be parsed, or when no row carries deltas (no Δ columns); otherwise the selection above |
| Selection.HasDeltaColumns | fps_check.py:41-43 | the Δ columns exist exactly when some row carries deltas |
| FrameReview.IsSimilar | testing.py:31-35 | two frames are similar when their score is strictly above the threshold |
| FrameReview.SimilarityMono | testing.py:31-35 | a pair similar at some threshold is similar at every lower one |
| FrameReview.Cleaned | testing.py:37-45 | same length; frame 0 kept; a later frame blanked exactly when it is similar to the original frame before it, otherwise kept unchanged |
| FrameReview.RemoveSimilarFrames | testing.py:37-45 | an empty list raises; otherwise the loop builds the cleaned list |
| FrameReview.KeptCount | testing.py:134 | at most one shown frame per input frame |
| FrameReview.KeptCountIsPairs | testing.py:130-134 | with no black original, the shown frames number all frames minus the pairs strictly above the threshold |
| FrameReview.KeptCountMono | testing.py:131-134 | a higher threshold shows at least as many frames |
| FrameReview.NothingBlankedAtOne | testing.py:31-45 | with scores at most 1, threshold 1.00 blanks nothing |
| FrameReview.SummaryCountsDescend | testing.py:130-134 | the counts for 1.00, 0.98, 0.95, 0.90, 0.85, 0.80 never increase |
| FrameReview.GridRows | testing.py:124-125 | the fewest rows of 12 that hold every frame |
| FrameReview.Placed | testing.py:24 | the images placed are the first min(n, rows·cols) |
| FrameReview.GridCell | testing.py:26-27 | the column is below `cols` and row·cols + column gives the index back |
| FrameReview.CellsFitAndDiffer | testing.py:24-28 | a placed image's row is inside the grid and no two images share a cell |
| FrameReview.CellInCanvas | testing.py:23-28 | a cell's pixel block lies inside the canvas |
| FrameReview.EveryFramePlaced | testing.py:124-127 | with ceil(n/12) rows every frame is placed |
| FrameReview.KeypointCoverage | testing.py:76-123 | no frames gives nothing, one frame gives 0, otherwise the share of later frames matching the first frame's keypoints, in [0, 1] |
| FrameReview.Matches | testing.py:106-109 | a later frame matches when it has a pose, the reference sees something, and at least 90% of the reference keypoints are visible again |
| FrameReview.MatchesCrossMultiplied | testing.py:107-108 | the 90% rule is 10·matches >= 9·reference keypoints, with some reference keypoint |
| FrameReview.NoReferenceNoMatches | testing.py:103-109 | without a pose in the first frame no later frame matches |
| FrameReview.SeeingEverythingMatches | testing.py:106-109 | a pose that sees every reference keypoint matches |

## Left out

- Video decoding and encoding, `VideoWriter`, directory creation, CSV, JPEG and PNG output, plots, progress bars and printing are I/O. A video is a sequence of frames, and an output file is a record of its path and frames.
- SSIM, MediaPipe pose inference and image resizing, sharpening and upscaling are foreign library calls. They are parameters.
- The Euclidean-norm jitter and the standard-deviation stability of a joint are float statistics. They are parameters of the valid-point list; only the filtering and the NaN handling around them are modelled.
- The statistical tests (`AnovaRM`, Tukey HSD, Friedman, the Wilcoxon test itself, Holm correction) and `run_stats` are numerics from libraries outside this model. `choose_fps` takes the p-values per metric as a map from rate to p-value. Of `pvals_vs_base` the model keeps the part it decides: the Tukey branch is never taken, because every row has the subject `S0`, and the Wilcoxon branch's `pivot` fails on a repeated rate (`Selection.RatesDistinct`).
- Selection.ChooseFps: failures inside `scipy.stats.wilcoxon` are not modelled. With one subject each comparison is a single pair; when the clip's value equals the baseline's, the only difference is zero, and depending on the library version the call raises ValueError or returns NaN. The model takes whatever p-value map is given and never fails there.
- Floating-point rounding: all arithmetic is exact, so a float sum or quotient that rounds differently from the real one is not modelled.
- Selection.PValue: a p-value that is itself NaN is not modelled; p-values are numbers.
- Unicode: digits, whitespace and case folding are ASCII only.
- FpsName.ParseInt: `int()` also accepts digits separated by single underscores, such as "1_000"; the model rejects them. `BaseFps` parses a segment taken after the last `_`, so it never holds one.
- Downsample.Decimate: the accumulator contract is stated for distinct targets strictly between 0 and F0. A repeated target shares one accumulator in the source. A negative target passes the `f < fps_orig` filter, gets a negative ratio and so receives every frame; the model does not state this. A zero target never reaches the decimator: `fps_orig / f` raises first, which `TargetPlan` models.
- Downsample.WriteCopies: the frame lists are stated only for plans without repeated rates, and only for rates strictly between 0 and F0. Its paths come from `OutputPath`, which does no pathlib normalisation (see below).
- Downsample.DownsampleVideo: the frame counts are stated only for plans without repeated rates, and only for rates strictly between 0 and F0. Its paths come from `OutputPath`, which does no pathlib normalisation: an empty output directory gives "/name" where the source writes "name".
- Downsample.OutputPath: joins the directory and the name with one `/` and does no pathlib normalisation. An empty directory gives "/name" where pathlib gives "name", and "out/" gives "out//name" where pathlib gives "out/name".
- FpsName.FileName: takes the text after the last `/` and does no pathlib normalisation. For "a/b/" it gives "" where `Path("a/b/").name` is "b".
- FpsName.FirstRunValue: the digit run's value is unbounded. `astype(int)` converts to a 64-bit integer and raises OverflowError for a run of 2^63 or more; that error is not modelled.
- ClipMetrics.Detections: each frame's pose comes from a pure function of that frame. MediaPipe Pose runs in tracking mode (`analyse_clip` and `process_video` reuse one `Pose()` object), so a detection can depend on the frames before it. The same holds for `FrameReview.KeypointCoverage`, which takes the detections as given.
- Downsample.TargetPlan: only a zero rate is an error. A NaN or zero source rate reported by the container is not modelled.
- Selection.ReshapeLong: rows with equal rates may come out in any order in the source, and the contract states only sortedness and permutation.
- FrameReview.KeptCountIsPairs: assumes no original frame is all black. In the source such a frame is not counted even when kept.
- The file-name suffix `int(th * 100):03d` of the per-threshold grids is output naming only.
- The GUI recorder (two_camera.py) and the module-level scripts that run the pipeline are left out. Only the path literal of `fps_check.py` is used, as an example.

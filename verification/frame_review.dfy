/** The frame review of testing.py: blanking frames that repeat their
    predecessor, counting what is left at several similarity thresholds,
    laying frames out on a contact-sheet grid, and the keypoint-match
    coverage of a recording. The similarity score, the pose detector and
    the "is this image all black" test are parameters; image resizing,
    sharpening, drawing and file output are left out. */
module FrameReview {
  import opened Common
  import opened ClipMetrics

  // ---------------------------------------------------------------------
  // Similar-frame removal

  /** `is_similar`: strictly more similar than the threshold. */
  predicate IsSimilar<F>(a: F, b: F, score: (F, F) -> real, threshold: real) {
    score(a, b) > threshold
  }

  /** A pair similar at some threshold is similar at every lower one. */
  lemma SimilarityMono<F>(a: F, b: F, score: (F, F) -> real, low: real, high: real)
    requires low <= high && IsSimilar(a, b, score, high)
    ensures IsSimilar(a, b, score, low)
  {
  }

  /** `remove_similar_frames` on a non-empty list: the first frame is kept,
      and every later frame is replaced by a blank (`None`) when it is
      similar to the ORIGINAL frame before it, not to what was kept. */
  function Cleaned<F>(frames: seq<F>, score: (F, F) -> real, threshold: real): (c: seq<Option<F>>)
    requires |frames| > 0
    ensures |c| == |frames|
    ensures c[0] == Some(frames[0])
    ensures forall i :: 1 <= i < |frames| ==> (c[i].None? <==> IsSimilar(frames[i - 1], frames[i], score, threshold))
    ensures forall i :: 0 <= i < |frames| && c[i].Some? ==> c[i].value == frames[i]
  {
    seq(|frames|, i requires 0 <= i < |frames| =>
          if i > 0 && IsSimilar(frames[i - 1], frames[i], score, threshold) then None else Some(frames[i]))
  }

  /** The loop of `remove_similar_frames`; an empty list has no `frames[0]`. */
  method RemoveSimilarFrames<F>(frames: seq<F>, score: (F, F) -> real, threshold: real)
    returns (r: Result<seq<Option<F>>>)
    ensures r.Err? <==> |frames| == 0
    ensures r.Err? ==> r.error == EmptyFrameList
    ensures r.Ok? ==> r.value == Cleaned(frames, score, threshold)
  {
    if |frames| == 0 {
      return Err(EmptyFrameList);
    }
    var result := [Some(frames[0])];
    var i := 1;
    while i < |frames|
      invariant 1 <= i <= |frames| && |result| == i
      invariant forall k :: 0 <= k < i ==> result[k] == Cleaned(frames, score, threshold)[k]
    {
      if IsSimilar(frames[i - 1], frames[i], score, threshold) {
        result := result + [None];
      } else {
        result := result + [Some(frames[i])];
      }
      i := i + 1;
    }
    return Ok(result);
  }

  /** A cleaned entry that still shows an image: not blanked, and the frame
      itself is not all black. */
  predicate Shows<F>(o: Option<F>, isBlack: F -> bool) {
    o.Some? && !isBlack(o.value)
  }

  /** `ssims[th]`: how many cleaned frames are not all zero. */
  function KeptCount<F>(frames: seq<F>, score: (F, F) -> real, threshold: real, isBlack: F -> bool): (n: nat)
    requires |frames| > 0
    ensures n <= |frames|
  {
    CountWhere(Cleaned(frames, score, threshold), o => Shows(o, isBlack))
  }

  /** With no black frame among the originals, the frames left are all
      frames but one per redundant consecutive pair: the same count
      `redundancy_stats` and `analyse_clip` make. */
  lemma KeptCountIsPairs<F>(frames: seq<F>, score: (F, F) -> real, threshold: real, isBlack: F -> bool)
    requires |frames| > 0
    requires forall i :: 0 <= i < |frames| ==> !isBlack(frames[i])
    ensures KeptCount(frames, score, threshold, isBlack) == |frames| - CountAbove(PairScores(frames, score), threshold)
  {
    var c := Cleaned(frames, score, threshold);
    var scores := PairScores(frames, score);
    var shows := (o: Option<F>) => Shows(o, isBlack);
    CountWhereFirst(c, shows);
    assert forall i :: 0 <= i < |scores| ==> c[1..][i] == c[i + 1];
    CountWhereSame(c[1..], shows, scores, x => !Above(threshold, x));
    CountWhereComplement(scores, x => Above(threshold, x), x => !Above(threshold, x));
  }

  /** Raising the threshold blanks fewer frames, so the counts in the
      summary never grow as the threshold drops from 1.00 to 0.80. */
  lemma KeptCountMono<F>(frames: seq<F>, score: (F, F) -> real, low: real, high: real, isBlack: F -> bool)
    requires |frames| > 0 && low <= high
    ensures KeptCount(frames, score, low, isBlack) <= KeptCount(frames, score, high, isBlack)
  {
    var cl := Cleaned(frames, score, low);
    var ch := Cleaned(frames, score, high);
    var shows := (o: Option<F>) => Shows(o, isBlack);
    assert forall i :: 0 <= i < |frames| ==> shows(cl[i]) ==> shows(ch[i]);
    CountWhereLe(cl, shows, ch, shows);
  }

  /** SSIM never exceeds 1, so at threshold 1.00 no frame is blanked. */
  lemma NothingBlankedAtOne<F>(frames: seq<F>, score: (F, F) -> real)
    requires |frames| > 0
    requires forall i :: 1 <= i < |frames| ==> score(frames[i - 1], frames[i]) <= 1.0
    ensures forall i :: 0 <= i < |frames| ==> Cleaned(frames, score, 1.0)[i] == Some(frames[i])
  {
  }

  /** The thresholds of the summary, from strictest to loosest. */
  const SummaryThresholds: seq<real> := [1.00, 0.98, 0.95, 0.90, 0.85, 0.80]

  /** Each summary count is at most the one before it. */
  lemma SummaryCountsDescend<F>(frames: seq<F>, score: (F, F) -> real, isBlack: F -> bool)
    requires |frames| > 0
    ensures forall k :: 0 <= k < |SummaryThresholds| - 1 ==>
      KeptCount(frames, score, SummaryThresholds[k + 1], isBlack) <= KeptCount(frames, score, SummaryThresholds[k], isBlack)
  {
    forall k | 0 <= k < |SummaryThresholds| - 1
      ensures KeptCount(frames, score, SummaryThresholds[k + 1], isBlack) <= KeptCount(frames, score, SummaryThresholds[k], isBlack)
    {
      KeptCountMono(frames, score, SummaryThresholds[k + 1], SummaryThresholds[k], isBlack);
    }
  }

  // ---------------------------------------------------------------------
  // Contact-sheet grid

  /** The grid of `process_video` is 12 columns wide. */
  const GridCols: nat := 12

  /** `math.ceil(n / 12)`: the fewest rows that hold `n` images. */
  function GridRows(n: nat): (rows: nat)
    ensures rows * GridCols >= n
    ensures rows > 0 ==> (rows - 1) * GridCols < n
  {
    (n + GridCols - 1) / GridCols
  }

  /** How many images `create_image_grid` places: `images[:rows * cols]`. */
  function Placed(n: nat, rows: nat, cols: nat): (p: nat)
    ensures p <= n && p <= rows * cols
    ensures p == n || p == rows * cols
  {
    if n <= rows * cols then n else rows * cols
  }

  /** The cell of image `idx`: row `idx // cols`, column `idx % cols`. The
      pair determines the index back. */
  function GridCell(idx: nat, cols: nat): (cell: (nat, nat))
    requires cols > 0
    ensures cell.1 < cols
    ensures cell.0 * cols + cell.1 == idx
  {
    (idx / cols, idx % cols)
  }

  /** A placed image lands inside the grid, and no two images share a cell. */
  lemma CellsFitAndDiffer(i: nat, j: nat, rows: nat, cols: nat)
    requires cols > 0 && i < rows * cols && j < rows * cols
    ensures GridCell(i, cols).0 < rows
    ensures i != j ==> GridCell(i, cols) != GridCell(j, cols)
  {
    var (r, c) := GridCell(i, cols);
    if r >= rows {
      MulLe(rows, r, cols);
    }
  }

  /** The pixel block of a cell lies inside the canvas of `rows * h` by
      `cols * w` pixels. */
  lemma CellInCanvas(idx: nat, rows: nat, cols: nat, w: nat, h: nat)
    requires cols > 0 && idx < rows * cols
    ensures (GridCell(idx, cols).0 + 1) * h <= rows * h
    ensures (GridCell(idx, cols).1 + 1) * w <= cols * w
  {
    CellsFitAndDiffer(idx, idx, rows, cols);
    var (r, c) := GridCell(idx, cols);
    assert r + 1 <= rows && c + 1 <= cols;
    MulLe(r + 1, rows, h);
    MulLe(c + 1, cols, w);
  }

  lemma MulLe(a: nat, b: nat, k: nat)
    requires a <= b
    ensures a * k <= b * k
  {
  }

  /** With `grid_rows = ceil(n / 12)` every recorded frame gets a cell. */
  lemma EveryFramePlaced(n: nat)
    ensures Placed(n, GridRows(n), GridCols) == n
  {
  }

  // ---------------------------------------------------------------------
  // Keypoint-match coverage

  /** The share of reference keypoints a later frame must see. */
  const MatchShare: real := 0.9

  /** The visibility flags of the first frame's pose, empty without a pose. */
  function RefVisible(d: Detection): (ref: seq<bool>)
    ensures |ref| == if d.Some? then |d.value| else 0
    ensures d.Some? ==> forall i :: 0 <= i < |ref| ==> (ref[i] <==> Visible(d.value[i]))
  {
    if d.Some? then seq(|d.value|, i requires 0 <= i < |d.value| => Visible(d.value[i])) else []
  }

  function Trues(bs: seq<bool>): (n: nat)
    ensures n <= |bs|
  {
    CountWhere(bs, b => b)
  }

  /** `match_cnt`: keypoints visible both in the reference and in this pose,
      over the positions `zip` pairs up. */
  function MatchCount(ref: seq<bool>, lm: seq<Landmark>): (n: nat)
    ensures n <= |ref| && n <= |lm|
  {
    var m := if |ref| <= |lm| then |ref| else |lm|;
    Trues(seq(m, i requires 0 <= i < m => ref[i] && Visible(lm[i])))
  }

  /** A later frame matches when it has a pose, the reference has some
      visible keypoint, and at least 90% of those are visible again. */
  predicate Matches(ref: seq<bool>, d: Detection) {
    d.Some? && Trues(ref) > 0 && MatchCount(ref, d.value) as real / Trues(ref) as real >= MatchShare
  }

  /** The 90% rule without division: a pose matches exactly when ten
      times its shared keypoints reach nine times the reference's. */
  lemma MatchesCrossMultiplied(ref: seq<bool>, lm: seq<Landmark>)
    ensures Matches(ref, Some(lm)) <==> Trues(ref) > 0 && 10 * MatchCount(ref, lm) >= 9 * Trues(ref)
  {
    if Trues(ref) > 0 {
      ShareAtLeast(MatchCount(ref, lm) as real, Trues(ref) as real);
    }
  }

  lemma ShareAtLeast(m: real, t: real)
    requires t > 0.0
    ensures m / t >= MatchShare <==> 10.0 * m >= 9.0 * t
  {
    assert m == (m / t) * t;
  }

  /** The number of frames in `ds` that match the reference. */
  function CountMatches(ref: seq<bool>, ds: seq<Detection>): (n: nat)
    ensures n <= |ds|
    decreases |ds|
  {
    if |ds| == 0 then 0
    else CountMatches(ref, ds[..|ds| - 1]) + (if Matches(ref, ds[|ds| - 1]) then 1 else 0)
  }

  /** The coverage of a recording: the share of frames after the first
      that match the first frame's keypoints; 0 for a single frame. A
      recording without frames reports nothing. */
  method KeypointCoverage(ds: seq<Detection>) returns (r: Option<real>)
    ensures r.None? <==> |ds| == 0
    ensures r.Some? && |ds| == 1 ==> r.value == 0.0
    ensures r.Some? && |ds| > 1 ==> r.value == CountMatches(RefVisible(ds[0]), ds[1..]) as real / (|ds| - 1) as real
    ensures r.Some? ==> 0.0 <= r.value <= 1.0
  {
    var frameCount := 0;
    var validMatch := 0;
    var ref: seq<bool> := [];
    while frameCount < |ds|
      invariant frameCount <= |ds|
      invariant ref == if frameCount == 0 then [] else RefVisible(ds[0])
      invariant validMatch == if frameCount == 0 then 0 else CountMatches(ref, ds[1..frameCount])
    {
      var res := ds[frameCount];
      if res.Some? {
        if frameCount == 0 {
          ref := RefVisible(res);
        } else {
          if Matches(ref, res) {
            validMatch := validMatch + 1;
          }
        }
      }
      assert frameCount > 0 ==> ds[1..frameCount + 1][..frameCount - 1] == ds[1..frameCount];
      frameCount := frameCount + 1;
    }
    if frameCount == 0 {
      return None;
    }
    assert ds[1..frameCount] == ds[1..];
    var coverage := if frameCount > 1 then validMatch as real / (frameCount - 1) as real else 0.0;
    if frameCount > 1 {
      ShareBounds(validMatch, frameCount - 1);
    }
    return Some(coverage);
  }

  /** Without a pose in the first frame the reference stays empty and no
      later frame can match. */
  lemma {:induction false} NoReferenceNoMatches(ds: seq<Detection>)
    ensures CountMatches([], ds) == 0
    decreases |ds|
  {
    if |ds| > 0 {
      NoReferenceNoMatches(ds[..|ds| - 1]);
      assert Trues([]) == 0;
    }
  }

  /** A pose that sees every reference keypoint matches, whatever the
      reference, as long as the reference sees something. */
  lemma SeeingEverythingMatches(ref: seq<bool>, lm: seq<Landmark>)
    requires Trues(ref) > 0 && |ref| <= |lm|
    requires forall i :: 0 <= i < |ref| && ref[i] ==> Visible(lm[i])
    ensures Matches(ref, Some(lm))
  {
    var both := seq(|ref|, i requires 0 <= i < |ref| => ref[i] && Visible(lm[i]));
    CountWhereSame(both, b => b, ref, b => b);
    assert MatchCount(ref, lm) == Trues(ref);
  }
}

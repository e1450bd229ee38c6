/** The per-clip measurements of fps_check_lib.py: `redundancy_stats`,
    `analyse_clip` and `analyse_set`.

    A clip is the sequence of frames that can be read from it, of an
    abstract frame type `F`. The similarity scorer (SSIM, with its grey
    conversion and resizing), the pose detector (MediaPipe) and the two
    per-joint numerics (mean step length and mean standard deviation of a
    trajectory) are passed in as functions. NaN is `None`. */
module ClipMetrics {
  import opened Common
  import opened FpsName

  // ---------------------------------------------------------------------
  // Consecutive-frame similarity.

  /** The similarity score of every consecutive pair, in order. */
  function PairScores<F>(frames: seq<F>, score: (F, F) -> real): (s: seq<real>)
    ensures |s| == if |frames| == 0 then 0 else |frames| - 1
    ensures forall k {:trigger s[k]} :: 0 <= k < |s| ==> s[k] == score(frames[k], frames[k + 1])
  {
    if |frames| == 0 then []
    else seq(|frames| - 1, k requires 0 <= k < |frames| - 1 => score(frames[k], frames[k + 1]))
  }

  /** A pair is redundant when its score is strictly above the threshold. */
  predicate Above(threshold: real, x: real) {
    x > threshold
  }

  function CountAbove(scores: seq<real>, threshold: real): nat {
    CountWhere(scores, x => Above(threshold, x))
  }

  /** Raising the threshold never adds redundant pairs. */
  lemma CountAboveAntitone(scores: seq<real>, low: real, high: real)
    requires low <= high
    ensures CountAbove(scores, high) <= CountAbove(scores, low)
  {
    CountWhereMono(scores, x => Above(high, x), x => Above(low, x));
  }

  /** A count of at most `m` out of `m > 0` is a share in [0, 1]. */
  lemma ShareBounds(c: nat, m: nat)
    requires 0 < m && c <= m
    ensures 0.0 <= c as real / m as real <= 1.0
  {
    ScaleKeepsOrder(c as real / m as real, 1.0, m as real);
  }

  datatype RedundancyReport = RedundancyReport(meanSsim: real, redundantRatio: real, totalFrames: nat)

  /** `redundancy_stats`: the first frame must be readable; every later
      frame is scored against its predecessor; the ratio and the mean are
      over the pairs, with the divisor at least 1, and the frame count
      includes the first frame. */
  method RedundancyStats<F>(frames: seq<F>, score: (F, F) -> real, threshold: real)
    returns (r: Result<RedundancyReport>)
    ensures r.Err? <==> |frames| == 0
    ensures r.Err? ==> r.error == ClipUnreadable
    ensures r.Ok? ==> r.value.totalFrames == |frames|
    ensures r.Ok? ==>
              r.value.redundantRatio == CountAbove(PairScores(frames, score), threshold) as real / Max2(|frames| - 1, 1) as real
    ensures r.Ok? ==> 0.0 <= r.value.redundantRatio <= 1.0
    ensures r.Ok? ==> r.value.meanSsim == Sum(PairScores(frames, score)) / Max2(|frames| - 1, 1) as real
  {
    if |frames| == 0 {
      return Err(ClipUnreadable);
    }
    ghost var scores := PairScores(frames, score);
    var total, redundant, ssimSum := 0, 0, 0.0;
    var prev := frames[0];
    var i := 1;
    while i < |frames|
      invariant 1 <= i <= |frames|
      invariant total == i - 1 && prev == frames[i - 1]
      invariant redundant == CountAbove(scores[..total], threshold)
      invariant ssimSum == Sum(scores[..total])
    {
      var frame := frames[i];
      var s := score(prev, frame);
      assert scores[..total + 1][..total] == scores[..total];
      ssimSum := ssimSum + s;
      if s > threshold {
        redundant := redundant + 1;
      }
      total := total + 1;
      prev := frame;
      i := i + 1;
    }
    assert scores[..total] == scores;
    ShareBounds(redundant, Max2(total, 1));
    return Ok(RedundancyReport(ssimSum / Max2(total, 1) as real,
                               redundant as real / Max2(total, 1) as real, total + 1));
  }

  /** When every pair scores within [lo, hi], so does the mean score. */
  lemma MeanSsimBounds<F>(frames: seq<F>, score: (F, F) -> real, lo: real, hi: real)
    requires |frames| > 1
    requires forall k :: 0 <= k < |frames| - 1 ==> lo <= score(frames[k], frames[k + 1]) <= hi
    ensures lo <= Sum(PairScores(frames, score)) / Max2(|frames| - 1, 1) as real <= hi
  {
    MeanBounds(PairScores(frames, score), lo, hi);
  }

  // ---------------------------------------------------------------------
  // Pose landmarks.

  datatype Landmark = Landmark(x: real, y: real, visibility: real)
  datatype Point = Point(x: real, y: real)

  /** What the detector returns for one frame: no pose, or its landmarks. */
  type Detection = Option<seq<Landmark>>

  const VisibilityThreshold: real := 0.5
  const SsimThreshold: real := 0.95

  /** MediaPipe's indices of the tracked joints, in `JOINTS_IDX` order. */
  const LeftShoulder: nat := 11
  const LeftHip: nat := 23
  const LeftWrist: nat := 15
  const Joints: seq<nat> := [LeftShoulder, LeftHip, LeftWrist]
  /** The largest tracked index: a landmark list must be longer than this. */
  const MaxJoint: nat := 23

  lemma JointsBelowMax()
    ensures |Joints| == 3
    ensures forall k :: 0 <= k < |Joints| ==> Joints[k] <= MaxJoint
    ensures forall j :: j in Joints ==> j <= MaxJoint
  {
  }

  predicate Visible(l: Landmark) {
    l.visibility > VisibilityThreshold
  }

  /** A frame counts as full when a pose is found and every landmark is
      visible. */
  predicate IsFull(d: Detection) {
    d.Some? && forall k :: 0 <= k < |d.value| ==> Visible(d.value[k])
  }

  predicate Detected(d: Detection) {
    d.Some?
  }

  /** `visible_cnt == len(lm)`: the count of visible landmarks is the whole
      list exactly when every landmark is visible. */
  lemma FullIffAllCounted(lm: seq<Landmark>)
    ensures CountWhere(lm, Visible) == |lm| <==> IsFull(Some(lm))
  {
    CountWhereExtremes(lm, Visible);
  }

  /** Every detected pose has all tracked joints. */
  predicate Indexable(ds: seq<Detection>) {
    forall k :: 0 <= k < |ds| && ds[k].Some? ==> |ds[k].value| > MaxJoint
  }

  function Detections<F>(frames: seq<F>, detect: F -> Detection): (ds: seq<Detection>)
    ensures |ds| == |frames|
    ensures forall k :: 0 <= k < |frames| ==> ds[k] == detect(frames[k])
  {
    seq(|frames|, k requires 0 <= k < |frames| => detect(frames[k]))
  }

  /** The entry a frame adds to a joint's trajectory: the joint's position,
      or the NaN marker when no pose was found. */
  function Mark(d: Detection, joint: nat): (m: Option<Point>)
    requires d.Some? ==> joint < |d.value|
    ensures m.Some? <==> d.Some?
  {
    if d.Some? then Some(Point(d.value[joint].x, d.value[joint].y)) else None
  }

  function Marks(ds: seq<Detection>, joint: nat): (t: seq<Option<Point>>)
    requires Indexable(ds) && joint <= MaxJoint
    ensures |t| == |ds|
    ensures forall k :: 0 <= k < |ds| ==> t[k] == Mark(ds[k], joint)
  {
    seq(|ds|, k requires 0 <= k < |ds| => Mark(ds[k], joint))
  }

  /** A joint's trajectory over a clip: the first frame contributes only
      when a pose was found in it; every later frame contributes one entry,
      the NaN marker when nothing was found. */
  function Trajectory(ds: seq<Detection>, joint: nat): (t: seq<Option<Point>>)
    requires |ds| > 0 && Indexable(ds) && joint <= MaxJoint
    ensures |t| == if ds[0].Some? then |ds| else |ds| - 1
    ensures forall k :: 1 <= k < |ds| ==> t[|t| - |ds| + k] == Mark(ds[k], joint)
    ensures ds[0].Some? ==> t[0] == Mark(ds[0], joint)
  {
    if ds[0].Some? then Marks(ds, joint) else Marks(ds[1..], joint)
  }

  /** A trajectory is empty exactly for a clip of one frame without a pose. */
  lemma TrajectoryEmptyIff(ds: seq<Detection>, joint: nat)
    requires |ds| > 0 && Indexable(ds) && joint <= MaxJoint
    ensures |Trajectory(ds, joint)| == 0 <==> |ds| == 1 && ds[0].None?
  {
  }

  /** Each new frame appends exactly one entry to the trajectory. */
  lemma TrajectoryExtend(ds: seq<Detection>, d: Detection, joint: nat)
    requires |ds| > 0 && Indexable(ds) && (d.Some? ==> |d.value| > MaxJoint) && joint <= MaxJoint
    ensures Indexable(ds + [d])
    ensures Trajectory(ds + [d], joint) == Trajectory(ds, joint) + [Mark(d, joint)]
  {
    var ext := ds + [d];
    assert forall k :: 0 <= k < |ds| ==> ds[k] == ext[k];
    assert ext[0] == ds[0];
    if ds[0].Some? {
      MarksAppend(ds, d, joint);
    } else {
      assert ext[1..] == ds[1..] + [d];
      MarksAppend(ds[1..], d, joint);
    }
  }

  lemma MarksAppend(ds: seq<Detection>, d: Detection, joint: nat)
    requires Indexable(ds) && (d.Some? ==> |d.value| > MaxJoint) && joint <= MaxJoint
    ensures Indexable(ds + [d])
    ensures Marks(ds + [d], joint) == Marks(ds, joint) + [Mark(d, joint)]
  {
    var ext := ds + [d];
    assert forall k :: 0 <= k < |ds| ==> ds[k] == ext[k];
    assert ext[|ds|] == d;
  }

  /** The trajectory of a one-frame clip. */
  lemma TrajectoryFirst(d: Detection, joint: nat)
    requires (d.Some? ==> |d.value| > MaxJoint) && joint <= MaxJoint
    ensures Indexable([d])
    ensures Trajectory([d], joint) == if d.Some? then [Mark(d, joint)] else []
  {
  }

  /** The points of a trajectory that are not NaN, in order. */
  function ValidPoints(t: seq<Option<Point>>): (v: seq<Point>)
    ensures |v| == CountWhere(t, (m: Option<Point>) => m.Some?)
    ensures forall p :: p in v <==> Some(p) in t
    decreases |t|
  {
    if |t| == 0 then []
    else
      var init := t[..|t| - 1];
      assert t == init + [t[|t| - 1]];
      ValidPoints(init) + (if t[|t| - 1].Some? then [t[|t| - 1].value] else [])
  }

  /** Taking the valid points of two pieces of a trajectory and joining
      them gives the valid points of the whole: order is kept. */
  lemma {:induction false} ValidPointsAppend(a: seq<Option<Point>>, b: seq<Option<Point>>)
    ensures ValidPoints(a + b) == ValidPoints(a) + ValidPoints(b)
    decreases |b|
  {
    if |b| > 0 {
      var n := |b| - 1;
      var ab := a + b;
      assert ab[..|ab| - 1] == a + b[..n];
      assert ab[|ab| - 1] == b[n];
      var last := if b[n].Some? then [b[n].value] else [];
      calc {
        ValidPoints(ab);
        ValidPoints(a + b[..n]) + last;
        { ValidPointsAppend(a, b[..n]); }
        ValidPoints(a) + ValidPoints(b[..n]) + last;
        { assert b[..|b| - 1] == b[..n]; }
        ValidPoints(a) + ValidPoints(b);
      }
    } else {
      assert a + b == a;
    }
  }

  /** A single entry contributes its point, or nothing when it is NaN. */
  lemma ValidPointsSingle(m: Option<Point>)
    ensures ValidPoints([m]) == if m.Some? then [m.value] else []
  {
    assert [m][..0] == [];
  }

  /** A trajectory's valid points are as many as the frames with a pose. */
  lemma ValidPointCount(ds: seq<Detection>, joint: nat)
    requires |ds| > 0 && Indexable(ds) && joint <= MaxJoint
    ensures |ValidPoints(Trajectory(ds, joint))| == CountWhere(ds, Detected)
  {
    var t := Trajectory(ds, joint);
    if ds[0].Some? {
      MarksCount(ds, joint);
    } else {
      MarksCount(ds[1..], joint);
      CountWhereFirst(ds, Detected);
    }
  }

  lemma {:induction false} MarksCount(ds: seq<Detection>, joint: nat)
    requires Indexable(ds) && joint <= MaxJoint
    ensures CountWhere(Marks(ds, joint), (m: Option<Point>) => m.Some?) == CountWhere(ds, Detected)
    decreases |ds|
  {
    if |ds| > 0 {
      var init := ds[..|ds| - 1];
      assert forall k :: 0 <= k < |init| ==> init[k] == ds[k];
      MarksCount(init, joint);
      assert Marks(ds, joint)[..|ds| - 1] == Marks(init, joint);
    }
  }

  /** A joint's value: the measure of its valid points when there are at
      least two of them, NaN otherwise. */
  function JointSummary(t: seq<Option<Point>>, measure: seq<Point> -> real): (v: Option<real>)
    ensures v.Some? <==> |ValidPoints(t)| > 1
  {
    var valid := ValidPoints(t);
    if |valid| > 1 then Some(measure(valid)) else None
  }

  /** The values that are not NaN. */
  function Present(vals: seq<Option<real>>): (xs: seq<real>)
    ensures |xs| <= |vals|
    ensures |xs| == 0 <==> forall k :: 0 <= k < |vals| ==> vals[k].None?
    ensures forall x :: x in xs <==> Some(x) in vals
    decreases |vals|
  {
    if |vals| == 0 then []
    else
      var init := vals[..|vals| - 1];
      assert vals == init + [vals[|vals| - 1]];
      Present(init) + (if vals[|vals| - 1].Some? then [vals[|vals| - 1].value] else [])
  }

  /** The values present in two pieces, joined, are those of the whole. */
  lemma {:induction false} PresentAppend(a: seq<Option<real>>, b: seq<Option<real>>)
    ensures Present(a + b) == Present(a) + Present(b)
    decreases |b|
  {
    if |b| > 0 {
      var n := |b| - 1;
      var ab := a + b;
      assert ab[..|ab| - 1] == a + b[..n];
      assert ab[|ab| - 1] == b[n];
      var last := if b[n].Some? then [b[n].value] else [];
      calc {
        Present(ab);
        Present(a + b[..n]) + last;
        { PresentAppend(a, b[..n]); }
        Present(a) + Present(b[..n]) + last;
        { assert b[..|b| - 1] == b[..n]; }
        Present(a) + Present(b);
      }
    } else {
      assert a + b == a;
    }
  }

  /** A list without NaN is present in full. */
  lemma {:induction false} PresentAll(vals: seq<Option<real>>)
    requires forall k :: 0 <= k < |vals| ==> vals[k].Some?
    ensures Present(vals) == Values(vals)
    decreases |vals|
  {
    if |vals| > 0 {
      var n := |vals| - 1;
      calc {
        Present(vals);
        Present(vals[..n]) + [vals[n].value];
        { PresentAll(vals[..n]); }
        Values(vals[..n]) + [vals[n].value];
        { ValuesSnoc(vals); }
        Values(vals);
      }
    }
  }

  lemma ValuesSnoc(vals: seq<Option<real>>)
    requires |vals| > 0 && forall k :: 0 <= k < |vals| ==> vals[k].Some?
    ensures Values(vals[..|vals| - 1]) + [vals[|vals| - 1].value] == Values(vals)
  {
    var n := |vals| - 1;
    var xs := Values(vals[..n]) + [vals[n].value];
    forall k | 0 <= k < |vals|
      ensures xs[k] == Values(vals)[k]
    {
      if k < n {
        assert xs[k] == Values(vals[..n])[k];
      }
    }
  }

  /** The numbers of a list that holds no NaN. */
  function Values(vals: seq<Option<real>>): (xs: seq<real>)
    requires forall k :: 0 <= k < |vals| ==> vals[k].Some?
    ensures |xs| == |vals| && forall k :: 0 <= k < |vals| ==> Some(xs[k]) == vals[k]
  {
    seq(|vals|, k requires 0 <= k < |vals| => vals[k].value)
  }

  /** `np.nanmean`: the mean of the values that are not NaN, NaN if none is. */
  function NanMean(vals: seq<Option<real>>): (m: Option<real>)
    ensures m.None? <==> forall k :: 0 <= k < |vals| ==> vals[k].None?
  {
    var xs := Present(vals);
    if |xs| == 0 then None else Some(Sum(xs) / |xs| as real)
  }

  /** The NaN-mean lies within any bounds of the values it averages. */
  lemma NanMeanBounds(vals: seq<Option<real>>, lo: real, hi: real)
    requires forall k :: 0 <= k < |vals| && vals[k].Some? ==> lo <= vals[k].value <= hi
    ensures NanMean(vals).Some? ==> lo <= NanMean(vals).value <= hi
  {
    var xs := Present(vals);
    if |xs| > 0 {
      forall k | 0 <= k < |xs|
        ensures lo <= xs[k] <= hi
      {
        assert xs[k] in xs;
        var j :| 0 <= j < |vals| && vals[j] == Some(xs[k]);
      }
      MeanBounds(xs, lo, hi);
    }
  }

  /** `np.nanmean` skips a NaN wherever it stands. */
  lemma NanMeanSkipsNaN(a: seq<Option<real>>, b: seq<Option<real>>)
    ensures NanMean(a + [None] + b) == NanMean(a + b)
  {
    PresentSkipsNaN(a, b);
  }

  lemma PresentSkipsNaN(a: seq<Option<real>>, b: seq<Option<real>>)
    ensures Present(a + [None] + b) == Present(a + b)
  {
    var nan: seq<Option<real>> := [None];
    calc {
      Present(a + nan + b);
      { PresentAppend(a + nan, b); }
      Present(a + nan) + Present(b);
      { PresentAppend(a, nan); PresentOfNaN(); }
      Present(a) + Present(b);
      { PresentAppend(a, b); }
      Present(a + b);
    }
  }

  lemma PresentOfNaN()
    ensures Present([None]) == []
  {
    var nan: seq<Option<real>> := [None];
    assert nan[..0] == [];
  }

  /** Without NaN, `np.nanmean` is the plain mean: the sum over the count. */
  lemma NanMeanIsMean(vals: seq<Option<real>>)
    requires |vals| > 0 && forall k :: 0 <= k < |vals| ==> vals[k].Some?
    ensures NanMean(vals) == Some(Sum(Values(vals)) / |vals| as real)
  {
    PresentAll(vals);
  }

  /** The per-joint values of one measure, in `JOINTS_IDX` order. */
  function JointValues(ds: seq<Detection>, measure: seq<Point> -> real): (vals: seq<Option<real>>)
    requires |ds| > 0 && Indexable(ds)
    ensures |vals| == |Joints|
    ensures forall k :: 0 <= k < |Joints| ==> vals[k] == JointSummary(Trajectory(ds, Joints[k]), measure)
  {
    seq(|Joints|, k requires 0 <= k < |Joints| => JointSummary(Trajectory(ds, Joints[k]), measure))
  }

  datatype ClipMetrics = ClipMetrics(frames: nat, dupPct: real, coverage: real,
                                     jitter: Option<real>, stability: Option<real>)

  /** The metrics `analyse_clip` reports, stated directly: the share of
      redundant pairs among all pairs, the share of full frames among all
      frames, and the NaN-means of the per-joint values. A clip of one
      frame without a pose leaves every trajectory empty, which the summary
      step cannot index. */
  function ClipMetricsOf<F>(frames: seq<F>, score: (F, F) -> real, detect: F -> Detection,
                            jitterOf: seq<Point> -> real, spreadOf: seq<Point> -> real): (r: Result<ClipMetrics>)
    ensures r.Err? <==> || |frames| == 0 || !Indexable(Detections(frames, detect))
                        || (|frames| == 1 && detect(frames[0]).None?)
    ensures |frames| == 0 ==> r == Err(ClipUnreadable)
    ensures |frames| > 0 && !Indexable(Detections(frames, detect)) ==> r == Err(LandmarkIndexOutOfRange)
    ensures |frames| == 1 && detect(frames[0]).None? ==> r == Err(EmptyTrajectory)
  {
    if |frames| == 0 then Err(ClipUnreadable)
    else
      var ds := Detections(frames, detect);
      if !Indexable(ds) then Err(LandmarkIndexOutOfRange)
      else if |frames| == 1 && ds[0].None? then Err(EmptyTrajectory)
      else
        var n := |frames|;
        var dup := CountAbove(PairScores(frames, score), SsimThreshold);
        Ok(ClipMetrics(n,
                       if n > 1 then dup as real / (n - 1) as real else 0.0,
                       CountWhere(ds, IsFull) as real / n as real,
                       NanMean(JointValues(ds, jitterOf)),
                       NanMean(JointValues(ds, spreadOf))))
  }

  /** The counters and trajectories after reading a clip: frames read,
      redundant pairs, full frames, and one trajectory per tracked joint. */
  datatype Scan = Scan(total: nat, dup: nat, full: nat, traj: map<nat, seq<Option<Point>>>)

  /** The state of the frame loop after the first `i` frames: the counters
      and trajectories are those of that prefix. */
  ghost predicate Scanned(scores: seq<real>, ds: seq<Detection>, i: nat, s: Scan)
    requires 1 <= i <= |ds| && |scores| == |ds| - 1
  {
    && s.total == i
    && s.dup == CountAbove(scores[..i - 1], SsimThreshold)
    && s.full == CountWhere(ds[..i], IsFull)
    && TrajsOf(ds[..i], s.traj)
  }

  /** `traj` holds, for exactly the tracked joints, their trajectories over
      the frames `ds`. */
  ghost predicate TrajsOf(ds: seq<Detection>, traj: map<nat, seq<Option<Point>>>)
    requires |ds| > 0
  {
    && Indexable(ds)
    && (forall j :: j in traj <==> j in Joints)
    && (forall j :: j in Joints ==> traj[j] == Trajectory(ds, j))
  }

  /** The pose part of one loop iteration: a detected pose must have every
      tracked joint, counts as full when all its landmarks are visible, and
      appends each tracked joint's position; no pose appends the NaN
      marker, except on the first frame, which then appends nothing. */
  method Observe(res: Detection, first: bool, full: nat, traj: map<nat, seq<Option<Point>>>)
    returns (r: Result<(nat, map<nat, seq<Option<Point>>>)>)
    requires forall j :: j in traj <==> j in Joints
    ensures r.Err? <==> res.Some? && |res.value| <= MaxJoint
    ensures r.Err? ==> r.error == LandmarkIndexOutOfRange
    ensures r.Ok? ==> r.value.0 == full + (if IsFull(res) then 1 else 0)
    ensures r.Ok? ==> forall j :: j in r.value.1 <==> j in Joints
    ensures r.Ok? && (res.Some? || !first) ==> forall j :: j in Joints ==> r.value.1[j] == traj[j] + [Mark(res, j)]
    ensures r.Ok? && res.None? && first ==> r.value.1 == traj
  {
    JointsBelowMax();
    if res.Some? {
      var lm := res.value;
      if |lm| <= MaxJoint {
        return Err(LandmarkIndexOutOfRange);
      }
      var visibleCount := CountWhere(lm, Visible);
      FullIffAllCounted(lm);
      var newFull := if visibleCount == |lm| then full + 1 else full;
      return Ok((newFull, map j | j in traj :: traj[j] + [Mark(res, j)]));
    } else if first {
      return Ok((full, traj));
    } else {
      return Ok((full, map j | j in traj :: traj[j] + [None]));
    }
  }

  /** One iteration of the frame loop, for frame `i >= 1`: compare it with
      frame `i-1`, then record its pose. */
  method ScanFrame(scores: seq<real>, ds: seq<Detection>, i: nat, s: Scan) returns (r: Result<Scan>)
    requires 1 <= i < |ds| && |scores| == |ds| - 1 && Scanned(scores, ds, i, s)
    ensures r.Err? ==> !Indexable(ds) && r.error == LandmarkIndexOutOfRange
    ensures r.Ok? ==> Scanned(scores, ds, i + 1, r.value)
  {
    var dup := s.dup;
    if scores[i - 1] > SsimThreshold {
      dup := dup + 1;
    }
    var observed := Observe(ds[i], false, s.full, s.traj);
    if observed.Err? {
      assert ds[i].Some? && |ds[i].value| <= MaxJoint;
      return Err(observed.error);
    }
    var (full, traj) := observed.value;
    ScannedStep(scores, ds, i, s, dup, full, traj);
    return Ok(Scan(s.total + 1, dup, full, traj));
  }

  /** The counters and trajectories after frame `i` follow from those
      before it and what frame `i` adds. */
  lemma ScannedStep(scores: seq<real>, ds: seq<Detection>, i: nat, s: Scan,
                    dup: nat, full: nat, traj: map<nat, seq<Option<Point>>>)
    requires 1 <= i < |ds| && |scores| == |ds| - 1 && Scanned(scores, ds, i, s)
    requires ds[i].Some? ==> |ds[i].value| > MaxJoint
    requires dup == s.dup + (if scores[i - 1] > SsimThreshold then 1 else 0)
    requires full == s.full + (if IsFull(ds[i]) then 1 else 0)
    requires forall j :: j in traj <==> j in Joints
    requires forall j :: j in Joints ==> traj[j] == s.traj[j] + [Mark(ds[i], j)]
    ensures dup == CountAbove(scores[..i], SsimThreshold)
    ensures full == CountWhere(ds[..i + 1], IsFull)
    ensures TrajsOf(ds[..i + 1], traj)
  {
    CountWhereStep(scores, i - 1, x => Above(SsimThreshold, x));
    CountWhereStep(ds, i, IsFull);
    TrajectoriesStep(ds, i, s.traj, traj);
  }

  /** The first iteration of the frame loop: frame 0 has no predecessor to
      compare with, and a frame without a pose adds nothing to the
      trajectories yet. */
  method ScanFirst(scores: seq<real>, ds: seq<Detection>) returns (r: Result<Scan>)
    requires |ds| > 0 && |scores| == |ds| - 1
    ensures r.Err? ==> !Indexable(ds) && r.error == LandmarkIndexOutOfRange
    ensures r.Ok? ==> Scanned(scores, ds, 1, r.value)
  {
    JointsBelowMax();
    var observed := Observe(ds[0], true, 0, map j | j in Joints :: []);
    if observed.Err? {
      return Err(observed.error);
    }
    var (full, traj) := observed.value;
    assert ds[..1] == [ds[0]];
    forall j | j in Joints
      ensures traj[j] == Trajectory(ds[..1], j)
    {
      TrajectoryFirst(ds[0], j);
    }
    return Ok(Scan(1, 0, full, traj));
  }

  /** Having scanned every frame, the counters and trajectories are those of
      the whole clip. */
  lemma ScannedAll(scores: seq<real>, ds: seq<Detection>, s: Scan)
    requires |ds| > 0 && |scores| == |ds| - 1 && Scanned(scores, ds, |ds|, s)
    ensures Indexable(ds)
    ensures s.total == |ds|
    ensures s.dup == CountAbove(scores, SsimThreshold)
    ensures s.full == CountWhere(ds, IsFull)
    ensures forall j :: j in s.traj <==> j in Joints
    ensures forall j :: j in Joints ==> s.traj[j] == Trajectory(ds, j)
  {
    assert ds[..|ds|] == ds;
    assert scores[..|ds| - 1] == scores;
  }

  /** The frame loop of `analyse_clip`, over what the scorer and the
      detector report for the frames: `scores[i-1]` compares frame `i` with
      frame `i-1`, `ds[i]` is the pose found in frame `i`. A pose lacking a
      tracked joint stops the scan. */
  method ScanFrames(scores: seq<real>, ds: seq<Detection>) returns (r: Result<Scan>)
    requires |ds| > 0 && |scores| == |ds| - 1
    ensures r.Err? <==> !Indexable(ds)
    ensures r.Err? ==> r.error == LandmarkIndexOutOfRange
    ensures r.Ok? ==> r.value.total == |ds|
    ensures r.Ok? ==> r.value.dup == CountAbove(scores, SsimThreshold)
    ensures r.Ok? ==> r.value.full == CountWhere(ds, IsFull)
    ensures r.Ok? ==> forall j :: j in r.value.traj <==> j in Joints
    ensures r.Ok? ==> forall j :: j in Joints ==> r.value.traj[j] == Trajectory(ds, j)
  {
    var first := ScanFirst(scores, ds);
    if first.Err? {
      return first;
    }
    var scan := first.value;
    var i := 1;
    while i < |ds|
      invariant 1 <= i <= |ds| && Scanned(scores, ds, i, scan)
    {
      var next := ScanFrame(scores, ds, i, scan);
      if next.Err? {
        return next;
      }
      scan := next.value;
      i := i + 1;
    }
    ScannedAll(scores, ds, scan);
    return Ok(scan);
  }

  /** One more frame extends every tracked joint's trajectory by its mark. */
  lemma TrajectoriesStep(ds: seq<Detection>, i: nat, before: map<nat, seq<Option<Point>>>,
                         after: map<nat, seq<Option<Point>>>)
    requires 1 <= i < |ds| && TrajsOf(ds[..i], before) && (ds[i].Some? ==> |ds[i].value| > MaxJoint)
    requires forall j :: j in after <==> j in Joints
    requires forall j :: j in Joints ==> after[j] == before[j] + [Mark(ds[i], j)]
    ensures TrajsOf(ds[..i + 1], after)
  {
    assert ds[..i + 1] == ds[..i] + [ds[i]];
    forall j | j in Joints
      ensures after[j] == Trajectory(ds[..i + 1], j)
    {
      TrajectoryExtend(ds[..i], ds[i], j);
    }
  }

  /** `analyse_clip`, as the source computes it: the frame loop, then the
      summary values. It agrees with the direct statement `ClipMetricsOf`. */
  method AnalyseClip<F>(frames: seq<F>, score: (F, F) -> real, detect: F -> Detection,
                        jitterOf: seq<Point> -> real, spreadOf: seq<Point> -> real)
    returns (r: Result<ClipMetrics>)
    ensures r == ClipMetricsOf(frames, score, detect, jitterOf, spreadOf)
  {
    if |frames| == 0 {
      return Err(ClipUnreadable);
    }
    var ds := Detections(frames, detect);
    var scan := ScanFrames(PairScores(frames, score), ds);
    if scan.Err? {
      return Err(scan.error);
    }
    r := Summarise(ds, scan.value, jitterOf, spreadOf);
    if r.Ok? {
      ClipMetricsOfPoses(frames, score, detect, jitterOf, spreadOf);
    }
  }

  /** The summary step of `analyse_clip`, after the frame loop: the shares,
      and the NaN-means of each joint's value over its valid points. The
      first joint's trajectory is read first; an empty one is an error. */
  method Summarise(ds: seq<Detection>, s: Scan, jitterOf: seq<Point> -> real, spreadOf: seq<Point> -> real)
    returns (r: Result<ClipMetrics>)
    requires |ds| > 0 && Indexable(ds) && s.total == |ds|
    requires forall j :: j in s.traj <==> j in Joints
    requires forall j :: j in Joints ==> s.traj[j] == Trajectory(ds, j)
    ensures r.Err? <==> |ds| == 1 && ds[0].None?
    ensures r.Err? ==> r.error == EmptyTrajectory
    ensures r.Ok? ==> r.value == ClipMetrics(s.total,
                                             if s.total > 1 then s.dup as real / (s.total - 1) as real else 0.0,
                                             s.full as real / s.total as real,
                                             NanMean(JointValues(ds, jitterOf)), NanMean(JointValues(ds, spreadOf)))
  {
    var Scan(total, dup, full, traj) := s;
    JointsBelowMax();
    TrajectoryEmptyIff(ds, Joints[0]);
    if |traj[Joints[0]]| == 0 {
      return Err(EmptyTrajectory);
    }
    var coverage := full as real / total as real;
    var dupPct := if total > 1 then dup as real / (total - 1) as real else 0.0;
    var jitterVals := Summaries(traj, jitterOf);
    var stdVals := Summaries(traj, spreadOf);
    SummariesOfScan(ds, traj, jitterOf, jitterVals);
    SummariesOfScan(ds, traj, spreadOf, stdVals);
    return Ok(ClipMetrics(total, dupPct, coverage, NanMean(jitterVals), NanMean(stdVals)));
  }

  /** `for idx, pts in traj.items()`: one value per tracked joint, in
      `JOINTS_IDX` order. */
  function Summaries(traj: map<nat, seq<Option<Point>>>, measure: seq<Point> -> real): (vals: seq<Option<real>>)
    requires forall j :: j in Joints ==> j in traj
    ensures |vals| == |Joints|
    ensures forall k :: 0 <= k < |Joints| ==> vals[k] == JointSummary(traj[Joints[k]], measure)
  {
    seq(|Joints|, k requires 0 <= k < |Joints| => JointSummary(traj[Joints[k]], measure))
  }

  /** The values the summary step computes from the scanned trajectories
      are the per-joint values of the clip. */
  lemma SummariesOfScan(ds: seq<Detection>, traj: map<nat, seq<Option<Point>>>, measure: seq<Point> -> real,
                        vals: seq<Option<real>>)
    requires |ds| > 0 && Indexable(ds)
    requires forall j :: j in traj <==> j in Joints
    requires forall j :: j in Joints ==> traj[j] == Trajectory(ds, j)
    requires |vals| == |Joints| && forall k :: 0 <= k < |Joints| ==> vals[k] == JointSummary(traj[Joints[k]], measure)
    ensures vals == JointValues(ds, measure)
  {
    var expected := JointValues(ds, measure);
    forall k | 0 <= k < |Joints|
      ensures vals[k] == expected[k]
    {
      assert Joints[k] in Joints;
    }
  }

  /** A pose without all tracked joints anywhere in the clip is an error. */
  lemma ClipMetricsOfBadPose<F>(frames: seq<F>, score: (F, F) -> real, detect: F -> Detection,
                                jitterOf: seq<Point> -> real, spreadOf: seq<Point> -> real, k: nat)
    requires k < |frames| && detect(frames[k]).Some? && |detect(frames[k]).value| <= MaxJoint
    ensures ClipMetricsOf(frames, score, detect, jitterOf, spreadOf) == Err(LandmarkIndexOutOfRange)
  {
    assert Detections(frames, detect)[k] == detect(frames[k]);
  }

  /** The metrics of a readable clip whose poses all have the tracked joints. */
  lemma ClipMetricsOfPoses<F>(frames: seq<F>, score: (F, F) -> real, detect: F -> Detection,
                              jitterOf: seq<Point> -> real, spreadOf: seq<Point> -> real)
    requires |frames| > 0 && Indexable(Detections(frames, detect))
    requires |frames| > 1 || detect(frames[0]).Some?
    ensures var ds := Detections(frames, detect);
            var n := |frames|;
            var dup := CountAbove(PairScores(frames, score), SsimThreshold);
            ClipMetricsOf(frames, score, detect, jitterOf, spreadOf)
            == Ok(ClipMetrics(n, if n > 1 then dup as real / (n - 1) as real else 0.0,
                              CountWhere(ds, IsFull) as real / n as real,
                              NanMean(JointValues(ds, jitterOf)), NanMean(JointValues(ds, spreadOf))))
  {
  }

  /** Coverage and the duplicate share are fractions in [0, 1], and the
      frame count includes the first frame. */
  lemma ClipMetricsBounds<F>(frames: seq<F>, score: (F, F) -> real, detect: F -> Detection,
                             jitterOf: seq<Point> -> real, spreadOf: seq<Point> -> real)
    requires ClipMetricsOf(frames, score, detect, jitterOf, spreadOf).Ok?
    ensures var m := ClipMetricsOf(frames, score, detect, jitterOf, spreadOf).value;
            m.frames == |frames| && 0.0 <= m.coverage <= 1.0 && 0.0 <= m.dupPct <= 1.0
  {
    var n := |frames|;
    var ds := Detections(frames, detect);
    ShareBounds(CountWhere(ds, IsFull), n);
    if n > 1 {
      ShareBounds(CountAbove(PairScores(frames, score), SsimThreshold), n - 1);
    }
  }

  /** Every joint has as many valid points as there are frames with a
      pose, so the NaN-mean over the joints is a number exactly when a pose
      was found in at least two frames. */
  lemma JointValuesPresent(ds: seq<Detection>, measure: seq<Point> -> real)
    requires |ds| > 0 && Indexable(ds)
    ensures NanMean(JointValues(ds, measure)).Some? <==> CountWhere(ds, Detected) >= 2
  {
    var vals := JointValues(ds, measure);
    if CountWhere(ds, Detected) >= 2 {
      JointValueIff(ds, measure, 0);
      assert vals[0].Some?;
    } else {
      forall k | 0 <= k < |vals|
        ensures vals[k].None?
      {
        JointValueIff(ds, measure, k);
      }
    }
  }

  /** One joint's value is a number exactly when a pose was found in at
      least two frames. */
  lemma JointValueIff(ds: seq<Detection>, measure: seq<Point> -> real, k: nat)
    requires |ds| > 0 && Indexable(ds) && k < |Joints|
    ensures JointValues(ds, measure)[k].Some? <==> CountWhere(ds, Detected) >= 2
  {
    JointsBelowMax();
    ValidPointCount(ds, Joints[k]);
  }

  /** Jitter and stability are reported exactly when a pose was found in at
      least two frames; otherwise every joint has at most one valid point
      and both are NaN. */
  lemma JitterNeedsTwoPoses<F>(frames: seq<F>, score: (F, F) -> real, detect: F -> Detection,
                               jitterOf: seq<Point> -> real, spreadOf: seq<Point> -> real)
    requires ClipMetricsOf(frames, score, detect, jitterOf, spreadOf).Ok?
    ensures var m := ClipMetricsOf(frames, score, detect, jitterOf, spreadOf).value;
            var poses := CountWhere(Detections(frames, detect), Detected);
            (m.jitter.Some? <==> poses >= 2) && (m.stability.Some? <==> poses >= 2)
  {
    var ds := Detections(frames, detect);
    JointValuesPresent(ds, jitterOf);
    JointValuesPresent(ds, spreadOf);
  }

  /** The changes of a clip's metrics against the baseline's: the columns
      `Δcoverage`, `Δjitter`, `Δstability` and `dup_diff`. */
  datatype Deltas = Deltas(coverage: real, jitter: Option<real>, stability: Option<real>, dupPct: real)

  /** One row of the table `analyse_set` returns: the clip's file name, its
      metrics, and its deltas (NaN, here `None`, on the baseline row). */
  datatype MetricRow = MetricRow(clip: string, metrics: ClipMetrics, deltas: Option<Deltas>)

  /** A difference of two values that may be NaN: NaN when either is. */
  function OptionDiff(a: Option<real>, b: Option<real>): (d: Option<real>)
    ensures d.Some? <==> a.Some? && b.Some?
    ensures d.Some? ==> b.value + d.value == a.value
  {
    if a.Some? && b.Some? then Some(a.value - b.value) else None
  }

  /** Each delta is the clip's value minus the baseline's: adding it back to
      the baseline gives the clip's value. */
  function DeltasOf(m: ClipMetrics, base: ClipMetrics): (d: Deltas)
    ensures base.coverage + d.coverage == m.coverage
    ensures base.dupPct + d.dupPct == m.dupPct
    ensures d.jitter.Some? <==> m.jitter.Some? && base.jitter.Some?
    ensures d.jitter.Some? ==> base.jitter.value + d.jitter.value == m.jitter.value
    ensures d.stability.Some? <==> m.stability.Some? && base.stability.Some?
    ensures d.stability.Some? ==> base.stability.value + d.stability.value == m.stability.value
  {
    Deltas(m.coverage - base.coverage, OptionDiff(m.jitter, base.jitter),
           OptionDiff(m.stability, base.stability), m.dupPct - base.dupPct)
  }

  /** The row `analyse_set` builds for a down-sampled clip. */
  function ComparedRow(path: string, m: ClipMetrics, base: ClipMetrics): MetricRow {
    MetricRow(FileName(path), m, Some(DeltasOf(m, base)))
  }

  /** The compared rows of the first `i` other clips, all of them analysed. */
  ghost predicate ComparedUpTo(others: seq<string>, analyse: string -> Result<ClipMetrics>, base: ClipMetrics,
                               i: nat, compared: seq<MetricRow>)
  {
    i <= |others| && |compared| == i &&
    forall k :: 0 <= k < i ==>
      analyse(others[k]).Ok? && compared[k] == ComparedRow(others[k], analyse(others[k]).value, base)
  }

  /** One step of `analyse_set`'s loop: analyse the next clip and append
      its row, or fail with its error. */
  method CompareNext(others: seq<string>, analyse: string -> Result<ClipMetrics>, base: ClipMetrics,
                     i: nat, compared: seq<MetricRow>)
    returns (r: Result<seq<MetricRow>>)
    requires i < |others| && ComparedUpTo(others, analyse, base, i, compared)
    ensures r.Err? <==> analyse(others[i]).Err?
    ensures r.Err? ==> r.error == analyse(others[i]).error
    ensures r.Ok? ==> ComparedUpTo(others, analyse, base, i + 1, r.value)
  {
    var m := analyse(others[i]);
    if m.Err? {
      return Err(m.error);
    }
    var next := compared + [ComparedRow(others[i], m.value, base)];
    assert forall k :: 0 <= k < i ==> next[k] == compared[k];
    return Ok(next);
  }

  /** `analyse_set`: analyse the baseline clip, then every other clip in
      order, adding each one's deltas against the baseline. The clip
      analysis is a parameter; the first clip whose analysis fails makes
      the whole call fail with that clip's error. */
  method AnalyseSet(baselinePath: string, others: seq<string>, analyse: string -> Result<ClipMetrics>)
    returns (r: Result<seq<MetricRow>>)
    ensures r.Err? <==> analyse(baselinePath).Err? || exists k :: 0 <= k < |others| && analyse(others[k]).Err?
    ensures r.Err? && analyse(baselinePath).Err? ==> r.error == analyse(baselinePath).error
    ensures r.Err? && analyse(baselinePath).Ok? ==>
      exists k :: 0 <= k < |others| && analyse(others[k]) == Err(r.error)
                  && forall j :: 0 <= j < k ==> analyse(others[j]).Ok?
    ensures r.Ok? ==> |r.value| == |others| + 1
    ensures r.Ok? ==> r.value[0] == MetricRow(FileName(baselinePath), analyse(baselinePath).value, None)
    ensures r.Ok? ==> forall k :: 0 <= k < |others| ==>
      r.value[k + 1] == ComparedRow(others[k], analyse(others[k]).value, analyse(baselinePath).value)
  {
    var baseResult := analyse(baselinePath);
    if baseResult.Err? {
      return Err(baseResult.error);
    }
    var base := baseResult.value;
    var compared: seq<MetricRow> := [];
    var i := 0;
    while i < |others|
      invariant i <= |others| && ComparedUpTo(others, analyse, base, i, compared)
    {
      var step := CompareNext(others, analyse, base, i, compared);
      if step.Err? {
        return Err(step.error);
      }
      compared := step.value;
      i := i + 1;
    }
    var baseRow := MetricRow(FileName(baselinePath), base, None);
    AllCompared(others, analyse, base, baseRow, compared);
    r := Ok([baseRow] + compared);
  }

  /** Once every other clip is compared, the baseline row followed by the
      compared rows holds each clip's row one place after its index. */
  lemma AllCompared(others: seq<string>, analyse: string -> Result<ClipMetrics>, base: ClipMetrics,
                    baseRow: MetricRow, compared: seq<MetricRow>)
    requires ComparedUpTo(others, analyse, base, |others|, compared)
    ensures |[baseRow] + compared| == |others| + 1 && ([baseRow] + compared)[0] == baseRow
    ensures forall k :: 0 <= k < |others| ==>
      ([baseRow] + compared)[k + 1] == ComparedRow(others[k], analyse(others[k]).value, base)
  {
    var rows := [baseRow] + compared;
    forall k | 0 <= k < |others|
      ensures rows[k + 1] == ComparedRow(others[k], analyse(others[k]).value, base)
    {
      assert rows[k + 1] == compared[k];
    }
  }
}

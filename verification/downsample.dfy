/** `downsample_video` (fps_check_lib.py): the list of target rates and the
    phase-accumulator decimator that decides which source frames each
    lower-rate copy receives, plus the names of the copies.

    Video decoding and encoding are left out: a source clip is its frame
    count and its nominal rate, and a copy is the list of source frame
    indices written to it. The accumulator is an exact real here, where
    the source uses a double. */
module Downsample {
  import opened Common
  import opened Text
  import opened FpsName

  // ---------------------------------------------------------------------
  // Target rates.

  /** `max(1, int(fps_orig // 6))`. */
  function DefaultStep(f0: real): (step: int)
    ensures step >= 1
    ensures f0 >= 6.0 ==> step as real <= f0 / 6.0 < step as real + 1.0
    ensures f0 < 12.0 ==> step == 1
  {
    Max2(1, (f0 / 6.0).Floor)
  }

  /** The i-th default candidate, `fps_orig - i*step`. */
  function Candidate(f0: real, step: int, i: int): real {
    f0 - (i * step) as real
  }

  /** A candidate is listed, truncated by `int()`, only when positive
      (truncation and floor agree there). */
  function KeepPositive(v: real): (ts: seq<int>)
    ensures v > 0.0 ==> ts == [v.Floor]
    ensures v <= 0.0 ==> ts == []
  {
    if v > 0.0 then [v.Floor] else []
  }

  /** The default target list: `int(F0 - i*step)` for i = 1..5, keeping
      the candidates that are positive. */
  function DefaultTargets(f0: real): (ts: seq<int>)
    ensures |ts| <= 5
    ensures forall k :: 0 <= k < |ts| ==> 0 <= ts[k] && (ts[k] as real) < f0
  {
    var step := DefaultStep(f0);
    KeepPositive(Candidate(f0, step, 1)) + KeepPositive(Candidate(f0, step, 2))
    + KeepPositive(Candidate(f0, step, 3)) + KeepPositive(Candidate(f0, step, 4))
    + KeepPositive(Candidate(f0, step, 5))
  }

  /** The candidates fall by `step` >= 1 each time, so the positive ones
      are exactly a prefix: the list holds the first `|ts|` candidates, in
      order, strictly decreasing, and the next candidate (if any) is not
      positive. */
  lemma DefaultTargetsShape(f0: real)
    ensures forall k :: 0 <= k < |DefaultTargets(f0)| ==>
              Candidate(f0, DefaultStep(f0), k + 1) > 0.0
              && DefaultTargets(f0)[k] == Candidate(f0, DefaultStep(f0), k + 1).Floor
    ensures |DefaultTargets(f0)| < 5 ==> Candidate(f0, DefaultStep(f0), |DefaultTargets(f0)| + 1) <= 0.0
    ensures forall j, k :: 0 <= j < k < |DefaultTargets(f0)| ==> DefaultTargets(f0)[j] > DefaultTargets(f0)[k]
  {
    var step := DefaultStep(f0);
    var ts := DefaultTargets(f0);
    var c1, c2, c3, c4, c5 := Candidate(f0, step, 1), Candidate(f0, step, 2), Candidate(f0, step, 3),
                              Candidate(f0, step, 4), Candidate(f0, step, 5);
    assert c2 + 1.0 <= c1 && c3 + 1.0 <= c2 && c4 + 1.0 <= c3 && c5 + 1.0 <= c4;
    var prefix: seq<int>;
    if c1 <= 0.0 {
      prefix := [];
    } else if c2 <= 0.0 {
      prefix := [c1.Floor];
    } else if c3 <= 0.0 {
      prefix := [c1.Floor, c2.Floor];
    } else if c4 <= 0.0 {
      prefix := [c1.Floor, c2.Floor, c3.Floor];
    } else if c5 <= 0.0 {
      prefix := [c1.Floor, c2.Floor, c3.Floor, c4.Floor];
    } else {
      prefix := [c1.Floor, c2.Floor, c3.Floor, c4.Floor, c5.Floor];
    }
    assert ts == prefix;
    forall k | 0 <= k < |ts|
      ensures Candidate(f0, step, k + 1) > 0.0 && ts[k] == Candidate(f0, step, k + 1).Floor
    {
      if k == 0 {
      } else if k == 1 {
      } else if k == 2 {
      } else if k == 3 {
      } else {
        assert k == 4;
      }
    }
    assert |ts| < 5 ==> Candidate(f0, step, |ts| + 1) <= 0.0 by {
      if |ts| == 0 {
      } else if |ts| == 1 {
      } else if |ts| == 2 {
      } else if |ts| == 3 {
      } else if |ts| == 4 {
      }
    }
  }

  /** A source at 30 fps gets the copies 25, 20, 15, 10 and 5. */
  lemma DefaultTargetsAt30()
    ensures DefaultTargets(30.0) == [25, 20, 15, 10, 5]
  {
    assert DefaultStep(30.0) == 5;
  }

  /** `[f for f in targets if f < fps_orig]`, order kept. */
  function BelowSource(targets: seq<int>, f0: real): (r: seq<int>)
    ensures |r| <= |targets|
    ensures forall x :: x in r <==> x in targets && (x as real) < f0
    ensures (forall k :: 0 <= k < |targets| ==> (targets[k] as real) < f0) ==> r == targets
    decreases |targets|
  {
    if |targets| == 0 then []
    else
      var rest := BelowSource(targets[1..], f0);
      assert forall x :: x in targets <==> x == targets[0] || x in targets[1..];
      if (targets[0] as real) < f0 then [targets[0]] + rest else rest
  }

  /** Filtering two lists of targets and joining the results is filtering
      their join: the order of the targets is kept. */
  lemma {:induction false} BelowSourceAppend(a: seq<int>, b: seq<int>, f0: real)
    ensures BelowSource(a + b, f0) == BelowSource(a, f0) + BelowSource(b, f0)
    decreases |a|
  {
    if |a| > 0 {
      assert (a + b)[0] == a[0];
      assert (a + b)[1..] == a[1..] + b;
      BelowSourceAppend(a[1..], b, f0);
    } else {
      assert a + b == b;
    }
  }

  /** One target is kept exactly when it is below the source's rate. */
  lemma BelowSourceSingle(x: int, f0: real)
    ensures BelowSource([x], f0) == if (x as real) < f0 then [x] else []
  {
    assert [x][1..] == [];
  }

  /** The targets `downsample_video` works with: the requested list, or the
      default one, with every rate not below the source's removed. A target
      of 0 survives that filter and makes `fps_orig / f` divide by zero. */
  function TargetPlan(f0: real, requested: Option<seq<int>>): (r: Result<seq<int>>)
    ensures r.Ok? ==> forall k :: 0 <= k < |r.value| ==> r.value[k] != 0 && (r.value[k] as real) < f0
    ensures r.Ok? ==> forall k :: 0 <= k < |r.value| ==>
              r.value[k] in (if requested.Some? then requested.value else DefaultTargets(f0))
    ensures r.Err? ==> r.error == ZeroTargetRate
    ensures r.Err? <==> 0 in (if requested.Some? then requested.value else DefaultTargets(f0)) && f0 > 0.0
  {
    var ts := BelowSource(if requested.Some? then requested.value else DefaultTargets(f0), f0);
    assert forall k :: 0 <= k < |ts| ==> ts[k] in ts;
    if 0 in ts then Err(ZeroTargetRate) else Ok(ts)
  }

  /** For a whole-number source rate the default plan never fails, and is
      the default list itself, every entry a true downsampling 0 < f < F0. */
  lemma DefaultPlanForWholeRate(f0: real)
    requires f0 == f0.Floor as real
    ensures TargetPlan(f0, None) == Ok(DefaultTargets(f0))
    ensures forall k :: 0 <= k < |DefaultTargets(f0)| ==> 0 < DefaultTargets(f0)[k] && (DefaultTargets(f0)[k] as real) < f0
  {
    var ts := DefaultTargets(f0);
    var step := DefaultStep(f0);
    DefaultTargetsShape(f0);
    forall k | 0 <= k < |ts|
      ensures ts[k] > 0
    {
      var c := Candidate(f0, step, k + 1);
      assert c == (f0.Floor - (k + 1) * step) as real;
      assert c.Floor == f0.Floor - (k + 1) * step;
    }
    assert 0 !in ts;
  }

  /** A fractional source rate can truncate its last default target to 0:
      at 5.5 fps the candidates are 4.5, 3.5, 2.5, 1.5 and 0.5, the last of
      which becomes the rate 0, and the ratio computation divides by zero. */
  lemma FractionalRateHitsZeroTarget()
    ensures DefaultTargets(5.5) == [4, 3, 2, 1, 0]
    ensures TargetPlan(5.5, None) == Err(ZeroTargetRate)
  {
    assert DefaultStep(5.5) == 1;
    var ts := DefaultTargets(5.5);
    assert |ts| == 5;
    assert ts[4] == 0;
  }

  // ---------------------------------------------------------------------
  // The phase-accumulator decimator.

  /** Source frame `i` (counting from 0) goes to the copy whose ratio is
      `ratio`: the number of output frames due after it, ⌊(i+1)/ratio⌋,
      exceeds the number due before it, ⌊i/ratio⌋. */
  predicate Emits(ratio: real, i: nat)
    requires ratio > 0.0
  {
    ((i + 1) as real / ratio).Floor > (i as real / ratio).Floor
  }

  /** The source frames among the first `n` that the copy receives. */
  function KeptFrames(ratio: real, n: nat): (r: seq<nat>)
    requires ratio > 0.0
    ensures forall k :: 0 <= k < |r| ==> r[k] < n
    ensures forall j, k :: 0 <= j < k < |r| ==> r[j] < r[k]
    decreases n
  {
    if n == 0 then []
    else KeptFrames(ratio, n - 1) + (if Emits(ratio, n - 1) then [n - 1] else [])
  }

  /** The copy receives exactly the frames that are due. */
  lemma {:induction false} KeptFramesAreDue(ratio: real, n: nat)
    requires ratio > 0.0
    ensures forall i :: 0 <= i < n ==> (i in KeptFrames(ratio, n) <==> Emits(ratio, i))
    decreases n
  {
    if n > 0 {
      KeptFramesAreDue(ratio, n - 1);
    }
  }

  /** `k` is ⌊x/ratio⌋ exactly when `k*ratio <= x < (k+1)*ratio`. */
  lemma FloorOfQuotient(x: real, ratio: real, k: int)
    requires ratio > 0.0
    ensures (x / ratio).Floor == k <==> k as real * ratio <= x < (k + 1) as real * ratio
  {
    var q := x / ratio;
    assert q * ratio == x;
    ScaleKeepsOrder(k as real, q, ratio);
    ScaleKeepsOrder(q, (k + 1) as real, ratio);
    assert k as real <= q <==> k as real * ratio <= x;
    assert q < (k + 1) as real <==> x < (k + 1) as real * ratio;
    assert q.Floor == k <==> k as real <= q < (k + 1) as real by {
      FloorIsUnique(q, k);
    }
  }

  /** The integer part of `q` is the one integer `k` with k <= q < k+1. */
  lemma FloorIsUnique(q: real, k: int)
    ensures q.Floor == k <==> k as real <= q < (k + 1) as real
  {
    var f := q.Floor;
    assert f as real <= q < (f + 1) as real;
  }

  /** One more source frame raises the quotient by 1/ratio <= 1, so its
      integer part grows by at most one. */
  lemma QuotientStep(ratio: real, n: nat)
    requires ratio >= 1.0 && n > 0
    ensures (n as real / ratio).Floor == ((n - 1) as real / ratio).Floor
         || (n as real / ratio).Floor == ((n - 1) as real / ratio).Floor + 1
  {
    var a := (n - 1) as real / ratio;
    var b := n as real / ratio;
    assert b == a + 1.0 / ratio;
    assert 0.0 < 1.0 / ratio <= 1.0 by {
      ScaleKeepsOrder(1.0 / ratio, 1.0, ratio);
    }
  }

  /** With a ratio of at least 1 the copy keeps ⌊n/ratio⌋ of `n` frames. */
  lemma {:induction false} KeptCount(ratio: real, n: nat)
    requires ratio >= 1.0
    ensures |KeptFrames(ratio, n)| == (n as real / ratio).Floor
    decreases n
  {
    if n > 0 {
      KeptCount(ratio, n - 1);
      QuotientStep(ratio, n);
    }
  }

  /** Dividing by the ratio F0/f is scaling by f/F0. */
  lemma DivideByRatio(n: real, f: real, f0: real)
    requires f > 0.0 && f0 > 0.0
    ensures n / (f0 / f) == n * f / f0
  {
  }

  /** `fps_orig / f`, the number of source frames per frame of the copy at
      `f`; at least 1 for a copy no faster than its source. */
  function Ratio(f0: real, f: int): (ratio: real)
    requires 0 < f && (f as real) <= f0
    ensures ratio >= 1.0 && ratio * f as real == f0
  {
    ScaleKeepsOrder(1.0, f0 / f as real, f as real);
    f0 / f as real
  }

  /** In terms of rates: a copy at `f` of `n` frames at `F0` has ⌊n·f/F0⌋ frames. */
  lemma KeptCountForRates(f0: real, f: int, n: nat)
    requires 0 < f && (f as real) <= f0
    ensures |KeptFrames(Ratio(f0, f), n)| == (n as real * f as real / f0).Floor
  {
    DivideByRatio(n as real, f as real, f0);
    KeptCountAt(Ratio(f0, f), n, n as real * f as real / f0);
  }

  /** `KeptCount` with the quotient named. */
  lemma KeptCountAt(ratio: real, n: nat, q: real)
    requires ratio >= 1.0 && q == n as real / ratio
    ensures |KeptFrames(ratio, n)| == q.Floor
  {
    KeptCount(ratio, n);
  }

  /** One frame through the accumulator of one copy: adding 1 reaches the
      ratio exactly when the frame is due, and the bound 0 <= acc < ratio
      is kept. */
  lemma AccumulatorStep(ratio: real, i: nat, written: nat, acc: real)
    requires ratio >= 1.0
    requires acc == i as real - written as real * ratio
    requires 0.0 <= acc < ratio
    ensures (acc + 1.0 >= ratio) == Emits(ratio, i)
    ensures acc + 1.0 >= ratio ==> 0.0 <= acc + 1.0 - ratio < ratio
    ensures acc + 1.0 < ratio ==> 0.0 <= acc + 1.0
  {
    assert (written + 1) as real * ratio == written as real * ratio + ratio;
    assert (written + 2) as real * ratio == (written + 1) as real * ratio + ratio;
    FloorOfQuotient(i as real, ratio, written);
    QuotientStep(ratio, i + 1);
    FloorOfQuotient((i + 1) as real, ratio, written + 1);
  }

  predicate Distinct(ts: seq<int>) {
    forall j, k :: 0 <= j < k < |ts| ==> ts[j] != ts[k]
  }

  /** `f` is a genuine downsampling of `f0`. */
  predicate Lowers(f0: real, f: int) {
    0 < f && (f as real) < f0
  }

  /** The state of one copy after `i` source frames: it holds exactly the
      frames due so far, and its accumulator is the unspent remainder
      `i - |kept|*ratio`, within [0, ratio). */
  predicate CopyState(ratio: real, i: nat, kept: seq<nat>, acc: real)
    requires ratio > 0.0
  {
    && kept == KeptFrames(ratio, i)
    && acc == i as real - |kept| as real * ratio
    && 0.0 <= acc < ratio
  }

  /** `CopyState` of the copy at rate `f`, read from the decimator's maps. */
  predicate InStep(f0: real, f: int, i: nat, written: map<int, seq<nat>>, acc: map<int, real>)
    requires Lowers(f0, f)
  {
    f in written && f in acc && CopyState(Ratio(f0, f), i, written[f], acc[f])
  }

  /** The accumulator of the copy at `f` after one more source frame `i`:
      a frame is written, and the ratio spent, once the phase reaches it. */
  predicate Ticked(f0: real, f: int, i: nat, w0: map<int, seq<nat>>, a0: map<int, real>,
                   written: map<int, seq<nat>>, acc: map<int, real>)
    requires f != 0 && f in w0 && f in a0
  {
    var ratio := f0 / f as real;
    var phase := a0[f] + 1.0;
    if phase >= ratio then written == w0[f := w0[f] + [i]] && acc == a0[f := phase - ratio]
    else written == w0 && acc == a0[f := phase]
  }

  /** The copy that took the frame moves from frame `i` to frame `i+1`. */
  lemma TickKeepsStep(f0: real, f: int, i: nat, w0: map<int, seq<nat>>, a0: map<int, real>,
                      written: map<int, seq<nat>>, acc: map<int, real>)
    requires Lowers(f0, f) && InStep(f0, f, i, w0, a0)
    requires Ticked(f0, f, i, w0, a0, written, acc)
    ensures InStep(f0, f, i + 1, written, acc)
  {
    var ratio := Ratio(f0, f);
    CopyStep(ratio, i, w0[f], a0[f], written[f], acc[f]);
  }

  /** One source frame through one copy: a frame is written, and the ratio
      spent, exactly when the accumulator reaches the ratio, and the copy's
      state moves from frame `i` to frame `i+1`. */
  lemma CopyStep(ratio: real, i: nat, kept: seq<nat>, acc: real, kept': seq<nat>, acc': real)
    requires ratio >= 1.0 && CopyState(ratio, i, kept, acc)
    requires if acc + 1.0 >= ratio then kept' == kept + [i] && acc' == acc + 1.0 - ratio
             else kept' == kept && acc' == acc + 1.0
    ensures CopyState(ratio, i + 1, kept', acc')
  {
    var w, w' := |kept|, |kept'|;
    AccumulatorStep(ratio, i, w, acc);
    RemainderStep(ratio, i, w, acc, w', acc');
  }

  /** The accumulator part of `CopyStep`, on the frame counts alone. */
  lemma RemainderStep(ratio: real, i: nat, w: nat, acc: real, w': nat, acc': real)
    requires ratio >= 1.0
    requires acc == i as real - w as real * ratio && 0.0 <= acc < ratio
    requires if acc + 1.0 >= ratio then w' == w + 1 && acc' == acc + 1.0 - ratio
             else w' == w && acc' == acc + 1.0
    ensures acc' == (i + 1) as real - w' as real * ratio && 0.0 <= acc' < ratio
  {
    if acc + 1.0 >= ratio {
      SpendStep(i, w, w', ratio, acc);
    } else {
      HoldStep(i, w, w', ratio, acc);
    }
  }

  /** Writing a frame spends one ratio from the accumulator. */
  lemma SpendStep(i: nat, w: nat, w': nat, ratio: real, acc: real)
    requires w' == w + 1 && acc == i as real - w as real * ratio
    ensures acc + 1.0 - ratio == (i + 1) as real - w' as real * ratio
  {
    assert w' as real * ratio == w as real * ratio + ratio;
  }

  /** A frame that is not due only raises the accumulator by 1. */
  lemma HoldStep(i: nat, w: nat, w': nat, ratio: real, acc: real)
    requires w' == w && acc == i as real - w as real * ratio
    ensures acc + 1.0 == (i + 1) as real - w' as real * ratio
  {
  }

  /** Every other copy is untouched by the update at `f`. */
  lemma TickKeepsOthers(f0: real, f: int, g: int, j: nat, w0: map<int, seq<nat>>, a0: map<int, real>,
                        written: map<int, seq<nat>>, acc: map<int, real>)
    requires f != 0 && f in w0 && f in a0 && Ticked(f0, f, j, w0, a0, written, acc)
    requires Lowers(f0, g) && g != f
    ensures forall n: nat :: InStep(f0, g, n, w0, a0) ==> InStep(f0, g, n, written, acc)
  {
  }

  /** The inner loop's invariant moves past target `t`: targets before it
      have seen frame `i`, the rest not yet. */
  lemma TargetStep(f0: real, targets: seq<int>, t: nat, i: nat, w0: map<int, seq<nat>>, a0: map<int, real>,
                   written: map<int, seq<nat>>, acc: map<int, real>)
    requires Distinct(targets) && t < |targets| && targets[t] != 0
    requires targets[t] in w0 && targets[t] in a0
    requires forall k :: 0 <= k < |targets| && Lowers(f0, targets[k]) ==>
               InStep(f0, targets[k], if k < t then i + 1 else i, w0, a0)
    requires Ticked(f0, targets[t], i, w0, a0, written, acc)
    ensures forall k :: 0 <= k < |targets| && Lowers(f0, targets[k]) ==>
              InStep(f0, targets[k], if k < t + 1 then i + 1 else i, written, acc)
  {
    var f := targets[t];
    forall k | 0 <= k < |targets| && Lowers(f0, targets[k])
      ensures InStep(f0, targets[k], if k < t + 1 then i + 1 else i, written, acc)
    {
      if k == t {
        TickKeepsStep(f0, f, i, w0, a0, written, acc);
      } else {
        TickKeepsOthers(f0, f, targets[k], i, w0, a0, written, acc);
      }
    }
  }

  /** One pass of the inner `for f in target_fps_list` loop: source frame
      `i` goes through the accumulator of every target, in order. */
  method FeedFrame(f0: real, targets: seq<int>, i: nat, w0: map<int, seq<nat>>, a0: map<int, real>)
    returns (written: map<int, seq<nat>>, acc: map<int, real>)
    requires forall k :: 0 <= k < |targets| ==> targets[k] != 0
    requires forall f :: f in targets ==> f in w0 && f in a0
    requires Distinct(targets) ==> forall k :: 0 <= k < |targets| && Lowers(f0, targets[k]) ==>
               InStep(f0, targets[k], i, w0, a0)
    ensures written.Keys == w0.Keys && acc.Keys == a0.Keys
    ensures Distinct(targets) ==> forall k :: 0 <= k < |targets| && Lowers(f0, targets[k]) ==>
              InStep(f0, targets[k], i + 1, written, acc)
  {
    written, acc := w0, a0;
    var t := 0;
    while t < |targets|
      invariant 0 <= t <= |targets|
      invariant written.Keys == w0.Keys && acc.Keys == a0.Keys
      invariant Distinct(targets) ==> forall k :: 0 <= k < |targets| && Lowers(f0, targets[k]) ==>
                  InStep(f0, targets[k], if k < t then i + 1 else i, written, acc)
    {
      var f := targets[t];
      var ratio := f0 / f as real;
      ghost var wBefore, aBefore := written, acc;
      acc := acc[f := acc[f] + 1.0];
      if acc[f] >= ratio {
        written := written[f := written[f] + [i]];
        acc := acc[f := acc[f] - ratio];
      }
      assert Ticked(f0, f, i, wBefore, aBefore, written, acc);
      if Distinct(targets) {
        TargetStep(f0, targets, t, i, wBefore, aBefore, written, acc);
      }
      t := t + 1;
    }
  }

  /** The read loop of `downsample_video`: every source frame, in order,
      passes through the accumulator of every target, in order; a copy
      receives the frame when its accumulator reaches its ratio. For
      distinct targets each copy then holds exactly the frames `Emits`
      selects, at most one per source frame. (A repeated target shares one
      accumulator, as the source's dictionary does, and is not described.) */
  method Decimate(f0: real, targets: seq<int>, frameCount: nat)
    returns (written: map<int, seq<nat>>, acc: map<int, real>)
    requires forall k :: 0 <= k < |targets| ==> targets[k] != 0
    ensures forall f :: f in written <==> f in targets
    ensures forall f :: f in acc <==> f in targets
    ensures Distinct(targets) ==> forall k :: 0 <= k < |targets| && Lowers(f0, targets[k]) ==>
              written[targets[k]] == KeptFrames(Ratio(f0, targets[k]), frameCount)
    ensures Distinct(targets) ==> forall k :: 0 <= k < |targets| && Lowers(f0, targets[k]) ==>
              0.0 <= acc[targets[k]] < Ratio(f0, targets[k])
  {
    acc := map f | f in targets :: 0.0;
    written := map f | f in targets :: [];
    forall k | 0 <= k < |targets| && Lowers(f0, targets[k])
      ensures InStep(f0, targets[k], 0, written, acc)
    {
      assert Ratio(f0, targets[k]) > 0.0;
    }
    var i := 0;
    while i < frameCount
      invariant 0 <= i <= frameCount
      invariant forall f :: f in written <==> f in targets
      invariant forall f :: f in acc <==> f in targets
      invariant Distinct(targets) ==> forall k :: 0 <= k < |targets| && Lowers(f0, targets[k]) ==>
                  InStep(f0, targets[k], i, written, acc)
    {
      written, acc := FeedFrame(f0, targets, i, written, acc);
      i := i + 1;
    }
  }

  // ---------------------------------------------------------------------
  // The copies.

  /** `Path(out_dir) / f"{Path(video_path).stem}_{f}fps.mp4"`. */
  function OutputPath(outDir: string, stem: string, f: int): string {
    outDir + "/" + stem + "_" + IntToString(f) + "fps.mp4"
  }

  datatype DerivedClip = DerivedClip(path: string, fps: int, frames: seq<nat>)

  /** Steps 2-4 of `downsample_video` for a plan of nonzero targets: one
      copy per target, in plan order, named after the source's stem and its
      rate, holding the frames the decimator gave it. */
  method WriteCopies(f0: real, targets: seq<int>, frameCount: nat, stem: string, outDir: string)
    returns (clips: seq<DerivedClip>)
    requires forall k :: 0 <= k < |targets| ==> targets[k] != 0
    ensures |clips| == |targets|
    ensures forall k :: 0 <= k < |clips| ==>
              clips[k].fps == targets[k] && clips[k].path == OutputPath(outDir, stem, targets[k])
    ensures Distinct(targets) ==> forall k :: 0 <= k < |clips| && Lowers(f0, clips[k].fps) ==>
              clips[k].frames == KeptFrames(Ratio(f0, clips[k].fps), frameCount)
  {
    var written, _ := Decimate(f0, targets, frameCount);
    assert forall j :: 0 <= j < |targets| ==> targets[j] in targets;
    clips := seq(|targets|, j requires 0 <= j < |targets| =>
               DerivedClip(OutputPath(outDir, stem, targets[j]), targets[j], written[targets[j]]));
  }

  /** `downsample_video` on a source that opens (`isOpen`) with nominal rate
      `f0` and `frameCount` readable frames: the source must open, the plan
      must not hold a zero rate, and then there is one copy per planned
      target, in plan order, each named after the source's stem. */
  method DownsampleVideo(videoPath: string, isOpen: bool, f0: real, frameCount: nat,
                         requested: Option<seq<int>>, outDir: string)
    returns (r: Result<seq<DerivedClip>>)
    ensures !isOpen ==> r == Err(SourceUnavailable)
    ensures isOpen ==> (r.Err? <==> TargetPlan(f0, requested).Err?)
    ensures r.Err? && isOpen ==> r.error == ZeroTargetRate
    ensures r.Ok? ==> |r.value| == |TargetPlan(f0, requested).value|
    ensures r.Ok? ==> forall k :: 0 <= k < |r.value| ==>
              r.value[k].fps == TargetPlan(f0, requested).value[k]
              && r.value[k].path == OutputPath(outDir, Stem(FileName(videoPath)), r.value[k].fps)
    ensures r.Ok? && Distinct(TargetPlan(f0, requested).value) ==>
              forall k :: 0 <= k < |r.value| && Lowers(f0, r.value[k].fps) ==>
                r.value[k].frames == KeptFrames(Ratio(f0, r.value[k].fps), frameCount)
  {
    if !isOpen {
      return Err(SourceUnavailable);
    }
    var plan := TargetPlan(f0, requested);
    if plan.Err? {
      return Err(plan.error);
    }
    var clips := WriteCopies(f0, plan.value, frameCount, Stem(FileName(videoPath)), outDir);
    return Ok(clips);
  }

  // ---------------------------------------------------------------------
  // Reading the rate back from a copy's name.

  /** A numeral never holds a path separator. */
  lemma NumeralHasNoSlash(f: int)
    ensures '/' !in IntToString(f)
  {
    var d := NatToString(if f < 0 then -f else f);
    assert forall k :: 0 <= k < |d| ==> IsDigit(d[k]);
    if f < 0 {
      assert IntToString(f) == "-" + d;
    }
  }

  /** The file name of a copy is the source's stem followed by its tag. */
  lemma CopyFileName(outDir: string, stem: string, f: int)
    requires '/' !in stem
    ensures FileName(OutputPath(outDir, stem, f)) == stem + ("_" + IntToString(f) + "fps.mp4")
  {
    var tail := "_" + IntToString(f) + "fps.mp4";
    assert '/' !in tail by {
      NumeralHasNoSlash(f);
      assert '/' !in "fps.mp4";
    }
    Regroup(outDir + "/", stem, "_", IntToString(f), "fps.mp4");
    FileNameOfJoin(outDir, stem + tail);
  }

  lemma Regroup<T>(p: seq<T>, a: seq<T>, b: seq<T>, c: seq<T>, d: seq<T>)
    ensures p + a + b + c + d == p + (a + (b + c + d))
  {
  }

  /** In a copy's tag `_<f>fps.mp4`, the numeral starts a token. */
  lemma TagToken(stem: string, f: nat)
    ensures TokenAt(stem + ("_" + NatToString(f) + "fps.mp4"), |stem| + 1)
    ensures RunValue(stem + ("_" + NatToString(f) + "fps.mp4"), |stem| + 1) == f
  {
    var digits := NatToString(f);
    var name := stem + ("_" + digits + "fps.mp4");
    var p := |stem| + 1;
    var e := p + |digits|;
    assert forall k :: p <= k < e ==> name[k] == digits[k - p];
    assert name[e] == 'f' && name[e + 1] == 'p' && name[e + 2] == 's';
    assert RunEnd(name, p) == e;
    assert SpaceEnd(name, e) == e;
    assert name[p..e] == digits;
  }

  /** When the source's stem carries no `<digits>fps` token, `_extract_fps`
      reads a copy's own rate back from its name. */
  lemma CopyNameReadsBack(outDir: string, stem: string, f: nat)
    requires '/' !in stem
    requires forall i :: 0 <= i < |stem| ==> !TokenAt(stem, i)
    ensures ExtractFps(FileName(OutputPath(outDir, stem, f))) == Ok(f)
  {
    var tail := "_" + NatToString(f) + "fps.mp4";
    var name := stem + tail;
    CopyFileName(outDir, stem, f);
    TagToken(stem, f);
    forall k | 0 <= k < |stem|
      ensures !TokenAt(name, k)
    {
      TokenAtOfConcat(stem, tail, k);
    }
    assert !IsDigit(name[|stem|]);
    ExtractFpsAt(name, |stem| + 1);
  }

  /** When the stem does carry such a token, every copy reads as the stem's
      rate instead: the copies of 'baseline_30fps.mp4' are named
      'baseline_30fps_25fps.mp4' and so on, and all read as 30. */
  lemma CopyNameReadsStemToken(outDir: string, stem: string, f: int, i: nat)
    requires '/' !in stem
    requires i < |stem| && TokenAt(stem, i) && forall k :: 0 <= k < i ==> !TokenAt(stem, k)
    ensures ExtractFps(FileName(OutputPath(outDir, stem, f))) == Ok(RunValue(stem, i))
  {
    var tail := "_" + IntToString(f) + "fps.mp4";
    CopyFileName(outDir, stem, f);
    ExtractFpsOfConcat(stem, tail, i);
  }

  /** A name followed by `_...` reads as its own leftmost token. */
  lemma ExtractFpsOfConcat(a: string, b: string, i: nat)
    requires |b| > 0 && b[0] == '_'
    requires i < |a| && TokenAt(a, i) && forall k :: 0 <= k < i ==> !TokenAt(a, k)
    ensures ExtractFps(a + b) == Ok(RunValue(a, i))
  {
    forall k | 0 <= k <= i
      ensures TokenAt(a + b, k) <==> TokenAt(a, k)
    {
      TokenAtOfConcat(a, b, k);
    }
    RunValueOfConcat(a, b, i);
    ExtractFpsAt(a + b, i);
  }

  /** A digit run inside `a` is unchanged by appending text that does not
      start with a digit. */
  lemma RunValueOfConcat(a: string, b: string, i: nat)
    requires i <= |a| && |b| > 0 && !IsDigit(b[0])
    ensures RunValue(a + b, i) == RunValue(a, i)
  {
    RunEndOfConcat(a, b, i);
    var j := RunEnd(a, i);
    assert (a + b)[i..j] == a[i..j];
  }
}

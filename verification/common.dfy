/** Shared vocabulary of the frame-rate evaluation model: optional values,
    the error conditions the Python code raises, and a few folds over
    sequences that several components use. */
module Common {

  /** A value that may be missing; `None` stands for pandas/numpy NaN. */
  datatype Option<+T> = None | Some(value: T)

  /** The exceptions the pipeline raises, one constructor per cause. */
  datatype Error =
    | FpsTokenMissing          // no digit run in a clip name (ValueError / NaN cast)
    | NotAnInteger             // int() of a non-numeric file-name segment
    | ClipUnreadable           // the first frame of a clip cannot be read
    | ZeroTargetRate           // a target rate of 0 reaches `fps_orig / f`
    | LandmarkIndexOutOfRange  // a detected landmark list too short for a tracked joint
    | BaselineNotFound         // no clip name contains the baseline rate
    | EmptySummary             // no comparison row, so `df_sum.fps` does not exist
    | EmptyFrameList           // `frames[0]` on an empty list
    | SourceUnavailable        // the source video cannot be opened (IOError)
    | EmptyTrajectory          // `np.isnan(pts).any(axis=1)` on a trajectory with no entry (AxisError)
    | ColumnMissing            // a column read from a table that lacks it (KeyError)
    | DuplicateRate            // `pivot` on a long table where two rows share a rate (ValueError)

  datatype Result<+T> = Ok(value: T) | Err(error: Error)

  /** Collecting per-element results, as an element-wise `apply` that
      raises: every value when all succeed, otherwise the error of the first
      element that failed. */
  function AllOk<T>(rs: seq<Result<T>>): (r: Result<seq<T>>)
    ensures r.Err? <==> exists k :: 0 <= k < |rs| && rs[k].Err?
    ensures r.Err? ==> exists k :: 0 <= k < |rs| && rs[k] == Err(r.error)
                          && forall j :: 0 <= j < k ==> rs[j].Ok?
    ensures r.Ok? ==> |r.value| == |rs| && forall k :: 0 <= k < |rs| ==> rs[k] == Ok(r.value[k])
    decreases |rs|
  {
    if |rs| == 0 then Ok([])
    else
      var init := AllOk(rs[..|rs| - 1]);
      var last := rs[|rs| - 1];
      assert forall k :: 0 <= k < |rs| - 1 ==> rs[..|rs| - 1][k] == rs[k];
      if init.Err? then init
      else if last.Err? then Err(last.error)
      else Ok(init.value + [last.value])
  }

  /** Number of positions of `xs` that satisfy `p`. */
  function CountWhere<T>(xs: seq<T>, p: T -> bool): (n: nat)
    ensures n <= |xs|
    decreases |xs|
  {
    if |xs| == 0 then 0
    else CountWhere(xs[..|xs| - 1], p) + (if p(xs[|xs| - 1]) then 1 else 0)
  }

  /** Counting is monotone under pointwise implication of the predicates. */
  lemma {:induction false} CountWhereMono<T>(xs: seq<T>, p: T -> bool, q: T -> bool)
    requires forall i :: 0 <= i < |xs| ==> p(xs[i]) ==> q(xs[i])
    ensures CountWhere(xs, p) <= CountWhere(xs, q)
    decreases |xs|
  {
    if |xs| > 0 {
      CountWhereMono(xs[..|xs| - 1], p, q);
    }
  }

  /** A predicate that no element satisfies counts zero, and one that every
      element satisfies counts every element. */
  lemma {:induction false} CountWhereExtremes<T>(xs: seq<T>, p: T -> bool)
    ensures (forall i :: 0 <= i < |xs| ==> !p(xs[i])) <==> CountWhere(xs, p) == 0
    ensures (forall i :: 0 <= i < |xs| ==> p(xs[i])) <==> CountWhere(xs, p) == |xs|
    decreases |xs|
  {
    if |xs| > 0 {
      CountWhereExtremes(xs[..|xs| - 1], p);
      assert forall i :: 0 <= i < |xs| - 1 ==> xs[..|xs| - 1][i] == xs[i];
    }
  }

  /** Counting over two sequences of the same length, where the first
      predicate holds only where the second does, gives no more. */
  lemma {:induction false} CountWhereLe<T, U>(xs: seq<T>, p: T -> bool, ys: seq<U>, q: U -> bool)
    requires |xs| == |ys|
    requires forall i :: 0 <= i < |xs| ==> p(xs[i]) ==> q(ys[i])
    ensures CountWhere(xs, p) <= CountWhere(ys, q)
    decreases |xs|
  {
    if |xs| > 0 {
      var n := |xs| - 1;
      assert forall i :: 0 <= i < n ==> xs[..n][i] == xs[i] && ys[..n][i] == ys[i];
      CountWhereLe(xs[..n], p, ys[..n], q);
    }
  }

  /** Pointwise equivalent predicates count alike. */
  lemma CountWhereSame<T, U>(xs: seq<T>, p: T -> bool, ys: seq<U>, q: U -> bool)
    requires |xs| == |ys|
    requires forall i :: 0 <= i < |xs| ==> (p(xs[i]) <==> q(ys[i]))
    ensures CountWhere(xs, p) == CountWhere(ys, q)
  {
    CountWhereLe(xs, p, ys, q);
    CountWhereLe(ys, q, xs, p);
  }

  /** Every position satisfies either `p` or its negation. */
  lemma {:induction false} CountWhereComplement<T>(xs: seq<T>, p: T -> bool, notP: T -> bool)
    requires forall i :: 0 <= i < |xs| ==> (notP(xs[i]) <==> !p(xs[i]))
    ensures CountWhere(xs, p) + CountWhere(xs, notP) == |xs|
    decreases |xs|
  {
    if |xs| > 0 {
      var n := |xs| - 1;
      assert forall i :: 0 <= i < n ==> xs[..n][i] == xs[i];
      CountWhereComplement(xs[..n], p, notP);
    }
  }

  /** Counting one more position adds that position's contribution. */
  lemma CountWhereStep<T>(xs: seq<T>, i: nat, p: T -> bool)
    requires i < |xs|
    ensures CountWhere(xs[..i + 1], p) == CountWhere(xs[..i], p) + (if p(xs[i]) then 1 else 0)
  {
    assert xs[..i + 1][..i] == xs[..i];
  }

  /** Counting from the front gives the same number as counting from the back. */
  lemma {:induction false} CountWhereFirst<T>(xs: seq<T>, p: T -> bool)
    requires |xs| > 0
    ensures CountWhere(xs, p) == (if p(xs[0]) then 1 else 0) + CountWhere(xs[1..], p)
    decreases |xs|
  {
    if |xs| > 1 {
      CountWhereFirst(xs[..|xs| - 1], p);
      assert xs[..|xs| - 1][1..] == xs[1..][..|xs[1..]| - 1];
    }
  }

  function Sum(xs: seq<real>): real
    decreases |xs|
  {
    if |xs| == 0 then 0.0 else Sum(xs[..|xs| - 1]) + xs[|xs| - 1]
  }

  /** A sum of values in [lo, hi] lies between |xs|*lo and |xs|*hi. */
  lemma {:induction false} SumBounds(xs: seq<real>, lo: real, hi: real)
    requires forall k :: 0 <= k < |xs| ==> lo <= xs[k] <= hi
    ensures |xs| as real * lo <= Sum(xs) <= |xs| as real * hi
    decreases |xs|
  {
    if |xs| > 0 {
      var init := xs[..|xs| - 1];
      assert forall k :: 0 <= k < |init| ==> init[k] == xs[k];
      SumBounds(init, lo, hi);
      assert |xs| as real * lo == |init| as real * lo + lo;
      assert |xs| as real * hi == |init| as real * hi + hi;
    }
  }

  /** Multiplying by a positive number keeps order. */
  lemma ScaleKeepsOrder(a: real, b: real, c: real)
    requires c > 0.0
    ensures a <= b <==> a * c <= b * c
    ensures a < b <==> a * c < b * c
  {
  }

  /** The mean of values in [lo, hi] lies in [lo, hi]. */
  lemma MeanBounds(xs: seq<real>, lo: real, hi: real)
    requires |xs| > 0
    requires forall k :: 0 <= k < |xs| ==> lo <= xs[k] <= hi
    ensures lo <= Sum(xs) / |xs| as real <= hi
  {
    var n := |xs| as real;
    SumBounds(xs, lo, hi);
    assert (Sum(xs) / n) * n == Sum(xs);
    ScaleKeepsOrder(lo, Sum(xs) / n, n);
    ScaleKeepsOrder(Sum(xs) / n, hi, n);
  }

  /** The larger of two integers, as Python's `max(a, b)`. */
  function Max2(a: int, b: int): (m: int)
    ensures m >= a && m >= b && (m == a || m == b)
  {
    if a >= b then a else b
  }

  /** Largest element of a non-empty sequence. */
  function MaxOf(xs: seq<int>): (m: int)
    requires |xs| > 0
    ensures m in xs
    ensures forall i :: 0 <= i < |xs| ==> xs[i] <= m
    decreases |xs|
  {
    if |xs| == 1 then xs[0]
    else
      var rest := MaxOf(xs[1..]);
      assert forall i :: 1 <= i < |xs| ==> xs[i] == xs[1..][i - 1];
      if xs[0] >= rest then xs[0] else rest
  }
}

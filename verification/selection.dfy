/** Choosing the recommended frame rate from the metrics table.

    Two selectors exist in the source. `choose_fps` (fps_result.py) judges
    every non-baseline row on every metric, against a directional tolerance
    and a p-value, and keeps the rates whose rows all pass. `run_pipeline`
    (fps_check.py) filters the rows on fixed limits of the deltas that
    `analyse_set` attached. Both return the largest accepted rate, or the
    baseline rate when none is accepted. The statistical tests that produce
    the p-values are parameters. */
module Selection {
  import opened Common
  import opened Text
  import opened FpsName
  import opened ClipMetrics

  /** The metric columns of the table (`METRICS`). */
  datatype Metric = Coverage | Jitter | Stability | DupPct

  const AllMetrics: seq<Metric> := [Coverage, Jitter, Stability, DupPct]

  /** `ALPHA`: a p-value above it means "no significant difference". */
  const Alpha: real := 0.05

  /** `THRESH`: how far each metric may move against the baseline. The
      coverage entry is negative: coverage may drop by at most 0.02. */
  function DefaultThresh(metric: Metric): real {
    match metric
    case Coverage => -0.02
    case Jitter => 0.0005
    case Stability => 0.0003
    case DupPct => 0.05
  }

  /** `SUBJECT_ID`: every long-format row belongs to the one subject. */
  const SubjectId: string := "S0"

  /** The value of one metric column in a row; jitter and stability may be NaN. */
  function Value(m: ClipMetrics, metric: Metric): (v: Option<real>)
    ensures metric == Coverage ==> v == Some(m.coverage)
    ensures metric == DupPct ==> v == Some(m.dupPct)
    ensures metric == Jitter ==> v == m.jitter
    ensures metric == Stability ==> v == m.stability
  {
    match metric
    case Coverage => Some(m.coverage)
    case Jitter => m.jitter
    case Stability => m.stability
    case DupPct => Some(m.dupPct)
  }

  // ---------------------------------------------------------------------
  // Rates read from the clip names

  predicate AllParse(rows: seq<MetricRow>) {
    forall k :: 0 <= k < |rows| ==> ExtractFps(rows[k].clip).Ok?
  }

  /** The rate `_extract_fps` reads from each row's clip name. */
  function Rates(rows: seq<MetricRow>): (rates: seq<nat>)
    requires AllParse(rows)
    ensures |rates| == |rows|
    ensures forall k :: 0 <= k < |rows| ==> rates[k] == ExtractFps(rows[k].clip).value
  {
    seq(|rows|, k requires 0 <= k < |rows| => ExtractFps(rows[k].clip).value)
  }

  /** `df["clip"].apply(_extract_fps)`: the rates, or the error of the first
      name without digits. */
  function ClipRates(rows: seq<MetricRow>): (r: Result<seq<nat>>)
    ensures r.Err? <==> !AllParse(rows)
    ensures r.Err? ==> r.error == FpsTokenMissing
    ensures r.Ok? ==> r.value == Rates(rows)
  {
    var parsed := seq(|rows|, k requires 0 <= k < |rows| => ExtractFps(rows[k].clip));
    var r := AllOk(parsed);
    assert forall k :: 0 <= k < |rows| ==> parsed[k] == ExtractFps(rows[k].clip);
    if r.Ok? then
      assert forall k :: 0 <= k < |rows| ==> r.value[k] == parsed[k].value;
      r
    else r
  }

  // ---------------------------------------------------------------------
  // reshape_long

  /** One row of the long format: subject, rate and metric value. */
  datatype LongRow = LongRow(subject: string, fps: nat, value: Option<real>)

  predicate SortedByFps(xs: seq<LongRow>) {
    forall i, j :: 0 <= i < j < |xs| ==> xs[i].fps <= xs[j].fps
  }

  /** The long-format rows in table order, before sorting. */
  function LongRows(rows: seq<MetricRow>, metric: Metric): (r: Result<seq<LongRow>>)
    ensures r.Err? <==> !AllParse(rows)
    ensures r.Err? ==> r.error == FpsTokenMissing
    ensures r.Ok? ==> |r.value| == |rows|
    ensures r.Ok? ==> forall k :: 0 <= k < |rows| ==>
      r.value[k] == LongRow(SubjectId, Rates(rows)[k], Value(rows[k].metrics, metric))
  {
    var rates := ClipRates(rows);
    if rates.Err? then Err(rates.error)
    else Ok(seq(|rows|, k requires 0 <= k < |rows| =>
                  LongRow(SubjectId, rates.value[k], Value(rows[k].metrics, metric))))
  }

  /** Insert a row before the first row with a larger rate. */
  function Insert(x: LongRow, xs: seq<LongRow>): (r: seq<LongRow>)
    requires SortedByFps(xs)
    ensures SortedByFps(r)
    ensures multiset(r) == multiset(xs) + multiset{x}
    decreases |xs|
  {
    if |xs| == 0 then [x]
    else if x.fps < xs[0].fps then
      SortedCons(x, xs);
      [x] + xs
    else
      var rest := Insert(x, xs[1..]);
      assert xs == [xs[0]] + xs[1..];
      BoundedByMembers(xs[0].fps, rest, xs[1..], x);
      SortedCons(xs[0], rest);
      [xs[0]] + rest
  }

  /** A row no later than the first of a sorted list keeps it sorted. */
  lemma SortedCons(a: LongRow, xs: seq<LongRow>)
    requires SortedByFps(xs)
    requires forall k :: 0 <= k < |xs| ==> a.fps <= xs[k].fps
    ensures SortedByFps([a] + xs)
  {
    var r := [a] + xs;
    assert forall k :: 1 <= k < |r| ==> r[k] == xs[k - 1];
  }

  /** A bound on a list's rows and on one more row bounds every permutation
      of them. */
  lemma BoundedByMembers(lo: nat, rest: seq<LongRow>, xs: seq<LongRow>, x: LongRow)
    requires multiset(rest) == multiset(xs) + multiset{x}
    requires lo <= x.fps && forall k :: 0 <= k < |xs| ==> lo <= xs[k].fps
    ensures forall k :: 0 <= k < |rest| ==> lo <= rest[k].fps
  {
    forall k | 0 <= k < |rest|
      ensures lo <= rest[k].fps
    {
      assert rest[k] in multiset(xs) + multiset{x};
    }
  }

  /** Sort by rate, keeping the rows and nothing else. */
  function SortByFps(xs: seq<LongRow>): (r: seq<LongRow>)
    ensures SortedByFps(r)
    ensures multiset(r) == multiset(xs)
    decreases |xs|
  {
    if |xs| == 0 then []
    else
      assert xs == xs[..|xs| - 1] + [xs[|xs| - 1]];
      Insert(xs[|xs| - 1], SortByFps(xs[..|xs| - 1]))
  }

  /** `reshape_long`: one long row per table row, all for the one subject,
      ordered by rate. Rows with equal rates may come in any order in the
      source; the model keeps them in table order. An empty table gives a
      frame without columns, which has no `fps` column to sort by. */
  function ReshapeLong(rows: seq<MetricRow>, metric: Metric): (r: Result<seq<LongRow>>)
    ensures r.Err? <==> !AllParse(rows) || |rows| == 0
    ensures !AllParse(rows) ==> r == Err(FpsTokenMissing)
    ensures |rows| == 0 ==> r == Err(ColumnMissing)
    ensures r.Ok? ==> SortedByFps(r.value)
    ensures r.Ok? ==> multiset(r.value) == multiset(LongRows(rows, metric).value)
  {
    var long := LongRows(rows, metric);
    if long.Err? then long
    else if |rows| == 0 then Err(ColumnMissing)
    else Ok(SortByFps(long.value))
  }

  /** The reshaped table has one row per table row, for the one subject,
      with the rate and value of some table row. */
  lemma ReshapeLongRows(rows: seq<MetricRow>, metric: Metric)
    requires AllParse(rows) && |rows| > 0
    ensures |ReshapeLong(rows, metric).value| == |rows|
    ensures forall x :: x in ReshapeLong(rows, metric).value ==>
      x.subject == SubjectId
      && exists k :: 0 <= k < |rows| && x.fps == Rates(rows)[k] && x.value == Value(rows[k].metrics, metric)
  {
    var long := LongRows(rows, metric).value;
    var out := ReshapeLong(rows, metric).value;
    assert |multiset(out)| == |multiset(long)|;
    forall x | x in out
      ensures x.subject == SubjectId
      ensures exists k :: 0 <= k < |rows| && x.fps == Rates(rows)[k] && x.value == Value(rows[k].metrics, metric)
    {
      assert x in multiset(long);
      var k :| 0 <= k < |long| && long[k] == x;
    }
  }

  // ---------------------------------------------------------------------
  // choose_fps

  /** The first row whose clip name contains `needle` (`str.contains`
      followed by `iloc[0]`). */
  function FirstContaining(rows: seq<MetricRow>, needle: string): (r: Option<nat>)
    ensures r.Some? ==> r.value < |rows| && Contains(rows[r.value].clip, needle)
    ensures r.Some? ==> forall k :: 0 <= k < r.value ==> !Contains(rows[k].clip, needle)
    ensures r.None? ==> forall k :: 0 <= k < |rows| ==> !Contains(rows[k].clip, needle)
    decreases |rows|
  {
    if |rows| == 0 then None
    else if Contains(rows[0].clip, needle) then Some(0)
    else
      match FirstContaining(rows[1..], needle)
      case Some(k) => Some(k + 1)
      case None => None
  }

  /** The verdict on one metric of one non-baseline row: the `summary_rows`
      entry. */
  datatype Verdict = Verdict(fps: nat, metric: Metric, value: Option<real>, delta: Option<real>,
                             p: real, okDelta: bool, okP: bool)

  /** The p-value of a rate against the baseline; a rate the tests did not
      report counts as 1. */
  function PValue(pvals: map<nat, real>, fps: nat): real {
    if fps in pvals then pvals[fps] else 1.0
  }

  /** What it takes for one metric of a row to pass, stated on the values:
      both values are numbers, the change is within the tolerance in the
      metric's good direction (up for coverage, down for the others), and
      the difference is not significant. */
  predicate Acceptable(metric: Metric, value: Option<real>, baseValue: Option<real>,
                       p: real, alpha: real, threshold: real)
  {
    && value.Some? && baseValue.Some?
    && (if metric == Coverage then value.value >= baseValue.value + threshold
        else value.value <= baseValue.value + threshold)
    && p > alpha
  }

  /** The judgement of one metric of one row, as `choose_fps` computes it:
      a NaN delta fails either comparison. */
  function Judge(fps: nat, metric: Metric, value: Option<real>, baseValue: Option<real>,
                 pvals: map<nat, real>, alpha: real, threshold: real): (v: Verdict)
    ensures v.fps == fps && v.metric == metric && v.value == value
    ensures v.delta.Some? <==> value.Some? && baseValue.Some?
    ensures v.delta.Some? ==> baseValue.value + v.delta.value == value.value
    ensures v.okDelta && v.okP <==> Acceptable(metric, value, baseValue, PValue(pvals, fps), alpha, threshold)
  {
    var delta := OptionDiff(value, baseValue);
    var okDelta := delta.Some? && (if metric == Coverage then delta.value >= threshold else delta.value <= threshold);
    var p := PValue(pvals, fps);
    Verdict(fps, metric, value, delta, p, okDelta, p > alpha)
  }

  /** The verdicts on one metric, one per non-baseline row, in table order. */
  function MetricVerdicts(rows: seq<MetricRow>, rates: seq<nat>, baseline: nat, baseValue: Option<real>,
                          metric: Metric, pvals: map<nat, real>, alpha: real, threshold: real)
    : (vs: seq<Verdict>)
    requires |rates| == |rows|
    ensures forall v :: v in vs <==>
      exists k :: 0 <= k < |rows| && rates[k] != baseline
                  && v == Judge(rates[k], metric, Value(rows[k].metrics, metric), baseValue, pvals, alpha, threshold)
    decreases |rows|
  {
    if |rows| == 0 then []
    else
      var n := |rows| - 1;
      var init := MetricVerdicts(rows[..n], rates[..n], baseline, baseValue, metric, pvals, alpha, threshold);
      assert forall k :: 0 <= k < n ==> rows[..n][k] == rows[k] && rates[..n][k] == rates[k];
      if rates[n] == baseline then init
      else init + [Judge(rates[n], metric, Value(rows[n].metrics, metric), baseValue, pvals, alpha, threshold)]
  }

  /** All verdicts: metric by metric, row by row (`summary_rows`). */
  function Verdicts(rows: seq<MetricRow>, rates: seq<nat>, baseline: nat, baseRow: MetricRow,
                    metrics: seq<Metric>, pvals: Metric -> map<nat, real>, alpha: real,
                    thresh: Metric -> real): (vs: seq<Verdict>)
    requires |rates| == |rows|
    ensures forall v :: v in vs <==>
      exists i, k :: 0 <= i < |metrics| && 0 <= k < |rows| && rates[k] != baseline
                     && v == Judge(rates[k], metrics[i], Value(rows[k].metrics, metrics[i]),
                                   Value(baseRow.metrics, metrics[i]), pvals(metrics[i]), alpha, thresh(metrics[i]))
    decreases |metrics|
  {
    if |metrics| == 0 then []
    else
      var n := |metrics| - 1;
      var m := metrics[n];
      assert forall i :: 0 <= i < n ==> metrics[..n][i] == metrics[i];
      Verdicts(rows, rates, baseline, baseRow, metrics[..n], pvals, alpha, thresh)
      + MetricVerdicts(rows, rates, baseline, Value(baseRow.metrics, m), m, pvals(m), alpha, thresh(m))
  }

  /** A rate passes when every verdict on it is favourable on both counts. */
  predicate Passes(vs: seq<Verdict>, fps: nat) {
    forall v :: v in vs && v.fps == fps ==> v.okDelta && v.okP
  }

  /** No two rows share a rate. The p-values come from `pvals_vs_base`,
      whose Wilcoxon branch is the one taken, since every row has the same
      subject; it pivots the long table on subject and rate, and `pivot`
      raises ValueError when two rows share both. */
  predicate RatesDistinct(rates: seq<nat>) {
    forall i, j :: 0 <= i < j < |rates| ==> rates[i] != rates[j]
  }

  /** The rates of the verdicts that pass (with repetitions). */
  function PassingRates(vs: seq<Verdict>, all: seq<Verdict>): (ps: seq<nat>)
    ensures forall f :: f in ps <==> (exists v :: v in vs && v.fps == f) && Passes(all, f)
    decreases |vs|
  {
    if |vs| == 0 then []
    else
      var rest := PassingRates(vs[1..], all);
      assert forall v :: v in vs <==> v == vs[0] || v in vs[1..];
      if Passes(all, vs[0].fps) then [vs[0].fps] + rest else rest
  }

  /** `choose_fps` with the p-values of each metric given: the baseline is
      the largest rate read from the names, its value comes from the first
      row whose name contains that number, two clips sharing a rate fail
      the pivot of the first metric, and the result is the largest rate
      whose verdicts all pass, or the baseline. Writing the summary
      file and drawing the plots are left out. */
  function ChooseFps(rows: seq<MetricRow>, metrics: seq<Metric>, pvals: Metric -> map<nat, real>,
                         alpha: real, thresh: Metric -> real): (r: Result<nat>)
    ensures r.Err? ==> r.error in {FpsTokenMissing, BaselineNotFound, DuplicateRate, EmptySummary}
    ensures r.Ok? ==> AllParse(rows) && r.value in Rates(rows) && RatesDistinct(Rates(rows))
  {
    var rates := ClipRates(rows);
    if rates.Err? then Err(rates.error)
    else if |rows| == 0 then Err(BaselineNotFound)
    else
      var baseline := MaxOf(rates.value);
      match FirstContaining(rows, NatToString(baseline))
      case None => Err(BaselineNotFound)
      case Some(b) =>
        if |metrics| > 0 && !RatesDistinct(rates.value) then Err(DuplicateRate)
        else
          var vs := Verdicts(rows, rates.value, baseline, rows[b], metrics, pvals, alpha, thresh);
          if |vs| == 0 then Err(EmptySummary)
          else
            var ps := PassingRates(vs, vs);
            PassingAreRates(rows, rates.value, baseline, rows[b], metrics, pvals, alpha, thresh);
            Ok(if |ps| == 0 then baseline else MaxOf(ps))
  }

  /** Every passing rate is the rate of some row. */
  lemma PassingAreRates(rows: seq<MetricRow>, rates: seq<nat>, baseline: nat, baseRow: MetricRow,
                        metrics: seq<Metric>, pvals: Metric -> map<nat, real>, alpha: real,
                        thresh: Metric -> real)
    requires |rates| == |rows|
    ensures var vs := Verdicts(rows, rates, baseline, baseRow, metrics, pvals, alpha, thresh);
            forall f :: f in PassingRates(vs, vs) ==> f in rates
  {
    var vs := Verdicts(rows, rates, baseline, baseRow, metrics, pvals, alpha, thresh);
    forall f | f in PassingRates(vs, vs)
      ensures f in rates
    {
      var v :| v in vs && v.fps == f;
      VerdictRate(rows, rates, baseline, baseRow, metrics, pvals, alpha, thresh, v);
    }
  }

  /** Every verdict is about the rate of some row. */
  lemma VerdictRate(rows: seq<MetricRow>, rates: seq<nat>, baseline: nat, baseRow: MetricRow,
                    metrics: seq<Metric>, pvals: Metric -> map<nat, real>, alpha: real,
                    thresh: Metric -> real, v: Verdict)
    requires |rates| == |rows| && v in Verdicts(rows, rates, baseline, baseRow, metrics, pvals, alpha, thresh)
    ensures v.fps in rates
  {
    var i, k :| 0 <= i < |metrics| && 0 <= k < |rows| && rates[k] != baseline
                && v == Judge(rates[k], metrics[i], Value(rows[k].metrics, metrics[i]),
                              Value(baseRow.metrics, metrics[i]), pvals(metrics[i]), alpha, thresh(metrics[i]));
  }

  // The reference statement of the selection, on the table itself.

  /** The baseline rate: the largest rate read from the names. */
  function Baseline(rows: seq<MetricRow>): nat
    requires |rows| > 0 && AllParse(rows)
  {
    MaxOf(Rates(rows))
  }

  /** The index of the row holding the baseline's values. */
  function BaseIndex(rows: seq<MetricRow>): (b: nat)
    requires |rows| > 0 && AllParse(rows)
    ensures b < |rows| && Contains(rows[b].clip, NatToString(Baseline(rows)))
    ensures forall k :: 0 <= k < b ==> !Contains(rows[k].clip, NatToString(Baseline(rows)))
  {
    BaselineRowExists(rows);
    FirstContaining(rows, NatToString(Baseline(rows))).value
  }

  /** Some row's name contains the baseline rate: the one it was read from. */
  lemma BaselineRowExists(rows: seq<MetricRow>)
    requires |rows| > 0 && AllParse(rows)
    ensures FirstContaining(rows, NatToString(Baseline(rows))).Some?
  {
    var rates := Rates(rows);
    var k :| 0 <= k < |rows| && rates[k] == Baseline(rows);
    ExtractFpsIsContained(rows[k].clip);
  }

  /** A rate is accepted when it is the rate of a row other than the
      baseline, there is some metric, and for every metric every row with
      that rate is acceptable against the baseline row. */
  predicate Accepted(rows: seq<MetricRow>, metrics: seq<Metric>, pvals: Metric -> map<nat, real>,
                     alpha: real, thresh: Metric -> real, f: nat)
    requires |rows| > 0 && AllParse(rows)
  {
    AcceptedAt(rows, Rates(rows), Baseline(rows), rows[BaseIndex(rows)], metrics, pvals, alpha, thresh, f)
  }

  /** `Accepted` for given rates, baseline rate and baseline row. */
  predicate AcceptedAt(rows: seq<MetricRow>, rates: seq<nat>, baseline: nat, baseRow: MetricRow,
                       metrics: seq<Metric>, pvals: Metric -> map<nat, real>,
                       alpha: real, thresh: Metric -> real, f: nat)
    requires |rates| == |rows|
  {
    && f != baseline && f in rates && |metrics| > 0
    && forall i, k :: 0 <= i < |metrics| && 0 <= k < |rows| && rates[k] == f ==>
         Acceptable(metrics[i], Value(rows[k].metrics, metrics[i]), Value(baseRow.metrics, metrics[i]),
                    PValue(pvals(metrics[i]), f), alpha, thresh(metrics[i]))
  }

  /** `choose_fps` fails when a name has no digits, when the table is
      empty (there is no baseline row), when two clips share a rate and
      there is a metric to pivot on, and when there is no metric or only
      one clip (there is no summary). */
  lemma ChooseFpsErrors(rows: seq<MetricRow>, metrics: seq<Metric>, pvals: Metric -> map<nat, real>,
                        alpha: real, thresh: Metric -> real)
    ensures var r := ChooseFps(rows, metrics, pvals, alpha, thresh);
      && (r == Err(FpsTokenMissing) <==> !AllParse(rows))
      && (r == Err(BaselineNotFound) <==> AllParse(rows) && |rows| == 0)
      && (r == Err(DuplicateRate) <==> AllParse(rows) && |metrics| > 0 && !RatesDistinct(Rates(rows)))
      && (r == Err(EmptySummary) <==>
            AllParse(rows) && ((|rows| > 0 && |metrics| == 0) || |rows| == 1))
  {
    if AllParse(rows) && |rows| > 0 {
      var rates := Rates(rows);
      VerdictsEmpty(rows, rates, Baseline(rows), rows[BaseIndex(rows)], metrics, pvals, alpha, thresh);
      if |rows| == 1 {
        assert Baseline(rows) in rates;
      } else if RatesDistinct(rates) {
        assert rates[0] != rates[1];
      }
    }
  }

  /** Two clips with the same rate make `choose_fps` fail as soon as there
      is a metric, whatever the p-values. */
  lemma SharedRateFails(rows: seq<MetricRow>, metrics: seq<Metric>, pvals: Metric -> map<nat, real>,
                        alpha: real, thresh: Metric -> real, i: nat, j: nat)
    requires AllParse(rows) && i < j < |rows| && |metrics| > 0
    requires ExtractFps(rows[i].clip) == ExtractFps(rows[j].clip)
    ensures ChooseFps(rows, metrics, pvals, alpha, thresh) == Err(DuplicateRate)
  {
    ChooseFpsErrors(rows, metrics, pvals, alpha, thresh);
    assert Rates(rows)[i] == Rates(rows)[j];
  }

  /** There is no verdict exactly when there is no metric or no row whose
      rate differs from the baseline. */
  lemma VerdictsEmpty(rows: seq<MetricRow>, rates: seq<nat>, baseline: nat, baseRow: MetricRow,
                      metrics: seq<Metric>, pvals: Metric -> map<nat, real>, alpha: real,
                      thresh: Metric -> real)
    requires |rates| == |rows|
    ensures |Verdicts(rows, rates, baseline, baseRow, metrics, pvals, alpha, thresh)| == 0 <==>
      |metrics| == 0 || forall k :: 0 <= k < |rows| ==> rates[k] == baseline
  {
    var vs := Verdicts(rows, rates, baseline, baseRow, metrics, pvals, alpha, thresh);
    if |metrics| > 0 && exists k :: 0 <= k < |rows| && rates[k] != baseline {
      var k :| 0 <= k < |rows| && rates[k] != baseline;
      var m := metrics[0];
      assert Judge(rates[k], m, Value(rows[k].metrics, m), Value(baseRow.metrics, m),
                   pvals(m), alpha, thresh(m)) in vs;
    } else {
      HeadIsMember(vs);
    }
  }

  lemma HeadIsMember<T>(xs: seq<T>)
    ensures |xs| > 0 ==> xs[0] in xs
  {
  }

  /** The rates whose verdicts all pass are exactly the accepted ones. */
  lemma PassingAreAccepted(rows: seq<MetricRow>, metrics: seq<Metric>, pvals: Metric -> map<nat, real>,
                           alpha: real, thresh: Metric -> real)
    requires |rows| > 0 && AllParse(rows)
    ensures var vs := Verdicts(rows, Rates(rows), Baseline(rows), rows[BaseIndex(rows)], metrics, pvals, alpha, thresh);
      forall f :: f in PassingRates(vs, vs) <==> f in Rates(rows) && Accepted(rows, metrics, pvals, alpha, thresh, f)
  {
    var vs := Verdicts(rows, Rates(rows), Baseline(rows), rows[BaseIndex(rows)], metrics, pvals, alpha, thresh);
    forall f
      ensures f in PassingRates(vs, vs) <==> f in Rates(rows) && Accepted(rows, metrics, pvals, alpha, thresh, f)
    {
      AcceptedIffPasses(rows, metrics, pvals, alpha, thresh, f);
    }
  }

  /** `choose_fps` returns an accepted rate that no accepted rate exceeds,
      or the baseline when no rate is accepted; either way the result is at
      most the baseline. */
  lemma ChooseFpsSelects(rows: seq<MetricRow>, metrics: seq<Metric>, pvals: Metric -> map<nat, real>,
                         alpha: real, thresh: Metric -> real)
    requires ChooseFps(rows, metrics, pvals, alpha, thresh).Ok?
    ensures |rows| > 0 && AllParse(rows)
    ensures var best := ChooseFps(rows, metrics, pvals, alpha, thresh).value;
      && best <= Baseline(rows)
      && (forall k :: 0 <= k < |rows| && Accepted(rows, metrics, pvals, alpha, thresh, Rates(rows)[k]) ==> Rates(rows)[k] <= best)
      && (Accepted(rows, metrics, pvals, alpha, thresh, best)
          || (best == Baseline(rows) && forall k :: 0 <= k < |rows| ==> !Accepted(rows, metrics, pvals, alpha, thresh, Rates(rows)[k])))
  {
    ChooseFpsErrors(rows, metrics, pvals, alpha, thresh);
    var rates := Rates(rows);
    var vs := Verdicts(rows, rates, Baseline(rows), rows[BaseIndex(rows)], metrics, pvals, alpha, thresh);
    var ps := PassingRates(vs, vs);
    PassingAreAccepted(rows, metrics, pvals, alpha, thresh);
    assert ChooseFps(rows, metrics, pvals, alpha, thresh).value == if |ps| == 0 then Baseline(rows) else MaxOf(ps);
    if |ps| > 0 {
      assert MaxOf(ps) in ps;
    }
  }

  /** A rate has a verdict exactly when it is the rate of a non-baseline
      row and there is a metric; its verdicts all pass exactly when it is
      accepted. */
  lemma AcceptedIffPasses(rows: seq<MetricRow>, metrics: seq<Metric>, pvals: Metric -> map<nat, real>,
                          alpha: real, thresh: Metric -> real, f: nat)
    requires |rows| > 0 && AllParse(rows)
    ensures var vs := Verdicts(rows, Rates(rows), Baseline(rows), rows[BaseIndex(rows)], metrics, pvals, alpha, thresh);
      Accepted(rows, metrics, pvals, alpha, thresh, f) <==> (exists v :: v in vs && v.fps == f) && Passes(vs, f)
  {
    var vs := Verdicts(rows, Rates(rows), Baseline(rows), rows[BaseIndex(rows)], metrics, pvals, alpha, thresh);
    if Accepted(rows, metrics, pvals, alpha, thresh, f) {
      AcceptedPasses(rows, metrics, pvals, alpha, thresh, f);
    }
    if (exists v :: v in vs && v.fps == f) && Passes(vs, f) {
      PassesAccepted(rows, metrics, pvals, alpha, thresh, f);
    }
  }

  lemma AcceptedPasses(rows: seq<MetricRow>, metrics: seq<Metric>, pvals: Metric -> map<nat, real>,
                       alpha: real, thresh: Metric -> real, f: nat)
    requires |rows| > 0 && AllParse(rows) && Accepted(rows, metrics, pvals, alpha, thresh, f)
    ensures var vs := Verdicts(rows, Rates(rows), Baseline(rows), rows[BaseIndex(rows)], metrics, pvals, alpha, thresh);
      (exists v :: v in vs && v.fps == f) && Passes(vs, f)
  {
    AcceptedAtPasses(rows, Rates(rows), Baseline(rows), rows[BaseIndex(rows)], metrics, pvals, alpha, thresh, f);
  }

  lemma PassesAccepted(rows: seq<MetricRow>, metrics: seq<Metric>, pvals: Metric -> map<nat, real>,
                       alpha: real, thresh: Metric -> real, f: nat)
    requires |rows| > 0 && AllParse(rows)
    requires var vs := Verdicts(rows, Rates(rows), Baseline(rows), rows[BaseIndex(rows)], metrics, pvals, alpha, thresh);
      (exists v :: v in vs && v.fps == f) && Passes(vs, f)
    ensures Accepted(rows, metrics, pvals, alpha, thresh, f)
  {
    PassesAcceptedAt(rows, Rates(rows), Baseline(rows), rows[BaseIndex(rows)], metrics, pvals, alpha, thresh, f);
  }

  lemma AcceptedAtPasses(rows: seq<MetricRow>, rates: seq<nat>, baseline: nat, base: MetricRow,
                         metrics: seq<Metric>, pvals: Metric -> map<nat, real>,
                         alpha: real, thresh: Metric -> real, f: nat)
    requires |rates| == |rows| && AcceptedAt(rows, rates, baseline, base, metrics, pvals, alpha, thresh, f)
    ensures var vs := Verdicts(rows, rates, baseline, base, metrics, pvals, alpha, thresh);
      (exists v :: v in vs && v.fps == f) && Passes(vs, f)
  {
    var vs := Verdicts(rows, rates, baseline, base, metrics, pvals, alpha, thresh);
    var k0 :| 0 <= k0 < |rows| && rates[k0] == f;
    var w := Judge(f, metrics[0], Value(rows[k0].metrics, metrics[0]), Value(base.metrics, metrics[0]),
                   pvals(metrics[0]), alpha, thresh(metrics[0]));
    assert w in vs;
    forall v | v in vs && v.fps == f
      ensures v.okDelta && v.okP
    {
      var i, k :| 0 <= i < |metrics| && 0 <= k < |rows| && rates[k] != baseline
                  && v == Judge(rates[k], metrics[i], Value(rows[k].metrics, metrics[i]),
                                Value(base.metrics, metrics[i]), pvals(metrics[i]), alpha, thresh(metrics[i]));
      assert rates[k] == f;
    }
  }

  lemma PassesAcceptedAt(rows: seq<MetricRow>, rates: seq<nat>, baseline: nat, base: MetricRow,
                         metrics: seq<Metric>, pvals: Metric -> map<nat, real>,
                         alpha: real, thresh: Metric -> real, f: nat)
    requires |rates| == |rows|
    requires var vs := Verdicts(rows, rates, baseline, base, metrics, pvals, alpha, thresh);
      (exists v :: v in vs && v.fps == f) && Passes(vs, f)
    ensures AcceptedAt(rows, rates, baseline, base, metrics, pvals, alpha, thresh, f)
  {
    var vs := Verdicts(rows, rates, baseline, base, metrics, pvals, alpha, thresh);
    var v :| v in vs && v.fps == f;
    var i0, k0 :| 0 <= i0 < |metrics| && 0 <= k0 < |rows| && rates[k0] != baseline
                  && v == Judge(rates[k0], metrics[i0], Value(rows[k0].metrics, metrics[i0]),
                                Value(base.metrics, metrics[i0]), pvals(metrics[i0]), alpha, thresh(metrics[i0]));
    assert rates[k0] == f;
    forall i, k | 0 <= i < |metrics| && 0 <= k < |rows| && rates[k] == f
      ensures Acceptable(metrics[i], Value(rows[k].metrics, metrics[i]), Value(base.metrics, metrics[i]),
                         PValue(pvals(metrics[i]), f), alpha, thresh(metrics[i]))
    {
      var w := Judge(f, metrics[i], Value(rows[k].metrics, metrics[i]), Value(base.metrics, metrics[i]),
                     pvals(metrics[i]), alpha, thresh(metrics[i]));
      assert w in vs;
    }
  }

  // ---------------------------------------------------------------------
  // run_pipeline's selection (fps_check.py)

  /** The limits `run_pipeline` applies. */
  const CoverageDrop: real := -0.02
  const JitterRise: real := 0.001
  const StabilityRise: real := 0.001
  const DupLimit: real := 0.95

  /** A row qualifies when its rate differs from the base rate, its deltas
      exist and are numbers within the limits, and its duplicate share is
      within the limit. The baseline row has NaN deltas and never
      qualifies. */
  predicate Qualifies(row: MetricRow, fps: nat, base: int) {
    && fps != base
    && row.deltas.Some?
    && row.deltas.value.coverage >= CoverageDrop
    && row.deltas.value.jitter.Some? && row.deltas.value.jitter.value <= JitterRise
    && row.deltas.value.stability.Some? && row.deltas.value.stability.value <= StabilityRise
    && row.metrics.dupPct <= DupLimit
  }
  /** The filter is monotone: a row that qualifies still qualifies when its
      coverage change rises, its jitter and stability changes fall, or its
      duplicate share falls. A NaN change never qualifies, since pandas
      compares NaN as false. */
  lemma QualifiesMono(row: MetricRow, better: MetricRow, fps: nat, base: int)
    requires Qualifies(row, fps, base) && better.deltas.Some?
    requires better.deltas.value.coverage >= row.deltas.value.coverage
    requires better.deltas.value.jitter.Some? && better.deltas.value.jitter.value <= row.deltas.value.jitter.value
    requires better.deltas.value.stability.Some? && better.deltas.value.stability.value <= row.deltas.value.stability.value
    requires better.metrics.dupPct <= row.metrics.dupPct
    ensures Qualifies(better, fps, base)
  {
  }

  /** A row whose jitter or stability change is NaN never qualifies. */
  lemma NaNDeltaFails(row: MetricRow, fps: nat, base: int)
    requires row.deltas.Some? && (row.deltas.value.jitter.None? || row.deltas.value.stability.None?)
    ensures !Qualifies(row, fps, base)
  {
  }


  /** The rate of each row as `run_pipeline` reads it: the first digit run
      of the clip name. */
  function FirstRuns(rows: seq<MetricRow>): (r: Result<seq<nat>>)
    ensures r.Err? <==> exists k :: 0 <= k < |rows| && FirstRunValue(rows[k].clip).Err?
    ensures r.Err? ==> r.error == FpsTokenMissing
    ensures r.Ok? ==> |r.value| == |rows|
    ensures r.Ok? ==> forall k :: 0 <= k < |rows| ==> r.value[k] == FirstRunValue(rows[k].clip).value
  {
    var parsed := seq(|rows|, k requires 0 <= k < |rows| => FirstRunValue(rows[k].clip));
    assert forall k :: 0 <= k < |rows| ==> parsed[k] == FirstRunValue(rows[k].clip);
    AllOk(parsed)
  }

  /** The rates of the qualifying rows, in any order. */
  function QualifyingRates(rows: seq<MetricRow>, rates: seq<nat>, base: int): (qs: seq<nat>)
    requires |rates| == |rows|
    ensures forall f :: f in qs <==> exists k :: 0 <= k < |rows| && rates[k] == f && Qualifies(rows[k], f, base)
    decreases |rows|
  {
    if |rows| == 0 then []
    else
      var n := |rows| - 1;
      var init := QualifyingRates(rows[..n], rates[..n], base);
      assert forall k :: 0 <= k < n ==> rows[..n][k] == rows[k] && rates[..n][k] == rates[k];
      if Qualifies(rows[n], rates[n], base) then init + [rates[n]] else init
  }

  /** The rate `run_pipeline` recommends, given the base rate and the
      rows' rates: the largest rate of a qualifying row, or the base rate
      when no row qualifies. */
  function SelectBest(base: int, rows: seq<MetricRow>, rates: seq<nat>): (best: int)
    requires |rates| == |rows|
    ensures || (best == base && forall k :: 0 <= k < |rows| ==> !Qualifies(rows[k], rates[k], base))
            || (best != base && exists k :: 0 <= k < |rows| && rates[k] == best && Qualifies(rows[k], rates[k], base))
    ensures forall k :: 0 <= k < |rows| && Qualifies(rows[k], rates[k], base) ==> rates[k] <= best
  {
    var qs := QualifyingRates(rows, rates, base);
    assert forall k :: 0 <= k < |rows| && Qualifies(rows[k], rates[k], base) ==> rates[k] in qs;
    if |qs| == 0 then base
    else
      var best := MaxOf(qs);
      assert best in qs;
      best
  }

  /** The selection at the end of `run_pipeline`: the base rate parsed from
      the recording's name and each row's rate from its clip name, then
      `SelectBest`. A recording name whose last segment is not a number, or
      a clip name without digits, is an error. The delta columns exist only
      when some row carries deltas (`analyse_set` adds them to the
      down-sampled clips' rows alone), so a table without such a row, the
      empty table included, has no `Δcoverage` column to filter on. */
  function PipelineBestFps(videoPath: string, rows: seq<MetricRow>): (r: Result<int>)
    ensures r.Err? <==> BaseFps(videoPath).Err? || SomeClipUnparsed(rows) || !HasDeltaColumns(rows)
    ensures BaseFps(videoPath).Err? ==> r == Err(NotAnInteger)
    ensures BaseFps(videoPath).Ok? && SomeClipUnparsed(rows) ==> r == Err(FpsTokenMissing)
    ensures r.Err? ==> r.error in {NotAnInteger, FpsTokenMissing, ColumnMissing}
    ensures r.Ok? ==> FirstRuns(rows).Ok? && r.value == SelectBest(BaseFps(videoPath).value, rows, FirstRuns(rows).value)
  {
    var base := BaseFps(videoPath);
    if base.Err? then Err(base.error)
    else
      var rates := FirstRuns(rows);
      if rates.Err? then Err(rates.error)
      else if !HasDeltaColumns(rows) then Err(ColumnMissing)
      else Ok(SelectBest(base.value, rows, rates.value))
  }

  /** Some row's clip name has no run of digits to read a rate from. */
  predicate SomeClipUnparsed(rows: seq<MetricRow>)
  {
    exists k :: 0 <= k < |rows| && FirstRunValue(rows[k].clip).Err?
  }

  /** Whether the table built from `rows` has the delta columns: some row
      carries deltas. */
  function HasDeltaColumns(rows: seq<MetricRow>): (b: bool)
    ensures b <==> exists k :: 0 <= k < |rows| && rows[k].deltas.Some?
    decreases |rows|
  {
    if |rows| == 0 then false
    else rows[0].deltas.Some? || HasDeltaColumns(rows[1..])
  }
}

/** Significance testing of every condition against the first (baseline) condition and
    the star labels put above the bars. */
module Stats {
  import opened Frame

  /** The p-value of a two-sample t-test. The test yields NaN when it is degenerate, for
      instance for two samples that are constant and equal. */
  datatype PValue = P(p: real) | NaN

  /** The two-sample t-test (`scipy.stats.ttest_ind`), seen only through its p-value. */
  type TTest = (seq<Cell>, seq<Cell>) -> PValue

  /** One annotation on the axes: `text` drawn at data coordinates (x, y). */
  datatype Mark = Mark(text: string, x: int, y: real)

  /** The marker as the match statement computes it: a NaN p-value fails every `>` test and
      falls through to the last case. */
  function MarkerAsWritten(pv: PValue): (m: string)
    ensures pv.NaN? ==> m == "***"
    ensures pv.P? ==> (m == "ns" <==> pv.p > 0.05)
    ensures pv.P? ==> (m == "*" <==> 0.01 < pv.p <= 0.05)
    ensures pv.P? ==> (m == "**" <==> 0.001 < pv.p <= 0.01)
    ensures pv.P? ==> (m == "***" <==> pv.p <= 0.001)
  {
    match pv
    case NaN => "***"
    case P(p) =>
      if p > 0.05 then "ns"
      else if p > 0.01 then "*"
      else if p > 0.001 then "**"
      else "***"
  }

  /** The significance marker of a p-value: four bands with strict lower bounds, and "ns"
      for a test that produced no p-value. */
  function SignificanceMarker(pv: PValue): (m: string)
    ensures pv.NaN? ==> m == "ns"
    ensures pv.P? ==> (m == "ns" <==> pv.p > 0.05)
    ensures pv.P? ==> (m == "*" <==> 0.01 < pv.p <= 0.05)
    ensures pv.P? ==> (m == "**" <==> 0.001 < pv.p <= 0.01)
    ensures pv.P? ==> (m == "***" <==> pv.p <= 0.001)
  {
    match pv
    case NaN => "ns"
    case P(_) => MarkerAsWritten(pv)
  }

  /** The number of stars in a marker. */
  function Stars(m: string): nat {
    if m == "ns" then 0 else |m|
  }

  /** A smaller p-value never gets fewer stars. */
  lemma {:induction false} MarkerMonotone(p: real, q: real)
    requires p <= q
    ensures Stars(SignificanceMarker(P(p))) >= Stars(SignificanceMarker(P(q)))
  {
  }

  /** The thresholds themselves fall into the more significant band. */
  lemma {:induction false} MarkerBoundaries()
    ensures SignificanceMarker(P(0.05)) == "*"
    ensures SignificanceMarker(P(0.01)) == "**"
    ensures SignificanceMarker(P(0.001)) == "***"
  {
  }

  /** The marker as written labels a degenerate test with three stars, where the corrected
      marker says "ns"; on every number the two agree. */
  lemma {:induction false} NaNMarkedHighlySignificant(p: real)
    ensures MarkerAsWritten(NaN) == "***" && SignificanceMarker(NaN) == "ns"
    ensures MarkerAsWritten(P(p)) == SignificanceMarker(P(p))
  {
  }

  /** The values of `column` in the rows whose `condition` field is `c`, in row order. The
      filter reads the field named `condition` whatever the caller's condition column is. */
  function ConditionValues(t: Table, c: string, column: string): seq<Cell> {
    Column(Where(t, ["condition"], [Text(c)]), column)
  }

  /** `calculate_pvalues`: the p-value of the baseline `conditions[0]` against each later
      condition. `df.condition` raises when the table has no `condition` column, and the
      value column is looked up only when there is a condition to collect. */
  function CalculatePValues(t: Table, conditions: seq<string>, column: string, ttest: TTest): (r: Result<seq<PValue>>)
    ensures r.Failure? <==> !HasColumns(t, ["condition"]) || (conditions != [] && !HasColumns(t, [column]))
    ensures !HasColumns(t, ["condition"]) ==> r == Failure(AttributeError("condition"))
    ensures r.Success? ==> |r.value| == (if conditions == [] then 0 else |conditions| - 1)
    ensures r.Success? ==> forall k :: 0 <= k < |r.value| ==>
              r.value[k] == ttest(ConditionValues(t, conditions[0], column), ConditionValues(t, conditions[k + 1], column))
  {
    if !HasColumns(t, ["condition"]) then Failure(AttributeError("condition"))
    else if conditions != [] && !HasColumns(t, [column]) then Failure(KeyError(column))
    else
      var df2 := IsIn(t, "condition", Texts(conditions));
      var countList := seq(|conditions|, i requires 0 <= i < |conditions| => ConditionValues(df2, conditions[i], column));
      if conditions == [] then Success([])
      else
        PreFilterKeepsValues(t, conditions, column);
        Success(seq(|conditions| - 1, k requires 0 <= k < |conditions| - 1 => ttest(countList[0], countList[k + 1])))
  }

  lemma {:induction false} PreFilterKeepsValues(t: Table, conditions: seq<string>, column: string)
    ensures forall i :: 0 <= i < |conditions| ==>
              ConditionValues(IsIn(t, "condition", Texts(conditions)), conditions[i], column) == ConditionValues(t, conditions[i], column)
  {
    forall i | 0 <= i < |conditions|
      ensures ConditionValues(IsIn(t, "condition", Texts(conditions)), conditions[i], column) == ConditionValues(t, conditions[i], column)
    {
      assert Texts(conditions)[i] == Text(conditions[i]);
      WhereAfterIsIn(t, "condition", Texts(conditions), Text(conditions[i]));
    }
  }

  /** The annotations `set_significance_marks` draws: for each later condition i, the
      marker of its p-value against the baseline at x = i, y = yMax. */
  function SignificanceMarks(t: Table, conditions: seq<string>, yCol: string, yMax: real, ttest: TTest): (r: Result<seq<Mark>>)
    ensures r.Success? <==> CalculatePValues(t, conditions, yCol, ttest).Success?
    ensures r.Failure? ==> r.error == CalculatePValues(t, conditions, yCol, ttest).error
    ensures r.Success? ==> |r.value| == (if conditions == [] then 0 else |conditions| - 1)
    ensures r.Success? ==> forall i :: 1 <= i < |conditions| ==>
              r.value[i - 1] == Mark(SignificanceMarker(ttest(ConditionValues(t, conditions[0], yCol), ConditionValues(t, conditions[i], yCol))), i, yMax)
  {
    match CalculatePValues(t, conditions, yCol, ttest)
    case Failure(e) => Failure(e)
    case Success(pvalues) =>
      Success(seq(|pvalues|, k requires 0 <= k < |pvalues| => Mark(SignificanceMarker(pvalues[k]), k + 1, yMax)))
  }

  /** `set_significance_marks`: the loop over `conditions[1:]` that annotates the axes,
      producing the annotations in drawing order. */
  method SetSignificanceMarks(t: Table, conditions: seq<string>, yCol: string, yMax: real, ttest: TTest)
    returns (r: Result<seq<Mark>>)
    ensures r == SignificanceMarks(t, conditions, yCol, yMax, ttest)
  {
    var pv := CalculatePValues(t, conditions, yCol, ttest);
    if pv.Failure? {
      return Failure(pv.error);
    }
    var pvalues := pv.value;
    var later := if conditions == [] then [] else conditions[1..];
    assert |later| == |pvalues|;
    var marks: seq<Mark> := [];
    var i := 1;
    while i <= |later|
      invariant 1 <= i <= |later| + 1
      invariant |marks| == i - 1
      invariant forall k :: 0 <= k < i - 1 ==> marks[k] == Mark(SignificanceMarker(pvalues[k]), k + 1, yMax)
    {
      var pValue := pvalues[i - 1];
      var significance := SignificanceMarker(pValue);
      marks := marks + [Mark(significance, i, yMax)];
      i := i + 1;
    }
    assert marks == seq(|pvalues|, k requires 0 <= k < |pvalues| => Mark(SignificanceMarker(pvalues[k]), k + 1, yMax));
    return Success(marks);
  }
}

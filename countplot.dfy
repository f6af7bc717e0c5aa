/** The cell-count quantification: rows per well, averaged over the wells of each plate and
    condition, set against a control condition; and what the count figure shows. */
module CountPlot {
  import opened Frame
  import opened Stats
  import opened Titles

  /** Whether the figure shows the control-normalised counts or the counts themselves. */
  datatype PlotType = Normalised | Absolute

  /** The column the bars are drawn from: the normalised counts for a normalised plot and
      the counts for any other. */
  function CountColumn(plotType: PlotType): (c: string)
    ensures c == "normalized_count" <==> plotType == Normalised
    ensures c == "count" <==> plotType != Normalised
  {
    if plotType == Normalised then "normalized_count" else "count"
  }

  /** A well: plate, condition and well. */
  function WellColumns(condition: string): seq<string> {
    PlateColumns(condition) + ["well"]
  }

  /** A plate-condition group. */
  function PlateColumns(condition: string): seq<string> {
    ["plate_id", condition]
  }

  /** A condition column that does not clash with the columns the counting reads or makes. */
  predicate ValidCondition(condition: string) {
    condition !in ["plate_id", "well", "experiment", "well_count", "count", "normalized_count"]
  }

  lemma {:induction false} WellColumnsDistinct(condition: string)
    requires ValidCondition(condition)
    ensures Distinct(PlateColumns(condition)) && Distinct(WellColumns(condition))
    ensures "well_count" !in WellColumns(condition) && "count" !in PlateColumns(condition)
  {
    var a: seq<string> := ["plate_id"];
    assert Distinct(a) by { assert a[..0] == []; }
    assert PlateColumns(condition)[..1] == a;
    assert WellColumns(condition)[..2] == PlateColumns(condition);
  }

  /** `groupby(["plate_id", condition, "well"])["experiment"].count()`: per well, the number
      of its rows with an `experiment` value, in column `well_count`. */
  function WellCounts(t: Table, condition: string): (out: Table)
    ensures |out| == |Keys(t, WellColumns(condition))|
    ensures ValidCondition(condition) ==> forall i :: 0 <= i < |out| ==>
              && KeyOf(out[i], WellColumns(condition)) == Keys(t, WellColumns(condition))[i]
              && At(out[i], "well_count")
                 == Number(Present(Column(Where(t, WellColumns(condition), Keys(t, WellColumns(condition))[i]), "experiment")) as real)
  {
    var wc := WellColumns(condition);
    if ValidCondition(condition) then
      WellColumnsDistinct(condition);
      GroupAggRows(t, wc, Keys(t, wc), "experiment", Count, "well_count");
      GroupAgg(t, wc, Keys(t, wc), "experiment", Count, "well_count")
    else GroupAgg(t, wc, Keys(t, wc), "experiment", Count, "well_count")
  }

  /** `groupby(["plate_id", condition])["well_count"].mean()`: per plate and condition, the
      mean well count, in column `count`. */
  function MeanCounts(t: Table, condition: string): (out: Table)
    ensures |out| == |Keys(WellCounts(t, condition), PlateColumns(condition))|
    ensures ValidCondition(condition) ==> forall i :: 0 <= i < |out| ==>
              && KeyOf(out[i], PlateColumns(condition)) == Keys(WellCounts(t, condition), PlateColumns(condition))[i]
              && At(out[i], "count")
                 == Mean(Column(Where(WellCounts(t, condition), PlateColumns(condition),
                                      Keys(WellCounts(t, condition), PlateColumns(condition))[i]), "well_count"))
  {
    var w := WellCounts(t, condition);
    var pc := PlateColumns(condition);
    if ValidCondition(condition) then
      WellColumnsDistinct(condition);
      GroupAggRows(w, pc, Keys(w, pc), "well_count", Mean, "count");
      GroupAgg(w, pc, Keys(w, pc), "well_count", Mean, "count")
    else GroupAgg(w, pc, Keys(w, pc), "well_count", Mean, "count")
  }

  /** The pivot table's cell at plate `p` and condition `c`: the mean count, or missing when
      the plate has no wells of that condition. */
  function CountAt(g: Table, condition: string, p: Cell, c: Cell): Cell {
    var w := Where(g, PlateColumns(condition), [p, c]);
    if w == [] then Missing else At(w[0], "count")
  }

  /** `pivot_df.div(pivot_df[norm_control], axis=0)` at one cell; a missing operand or a zero
      control gives a missing value. */
  function Ratio(a: Cell, b: Cell): (r: Cell)
    ensures r.Number? <==> a.Number? && b.Number? && b.x != 0.0
    ensures r.Number? ==> r.x * b.x == a.x
  {
    if a.Number? && b.Number? && b.x != 0.0 then Number(a.x / b.x) else Missing
  }

  /** The merged row of plate `p` and condition `c`: the count and the normalised count. */
  function NormRow(g: Table, condition: string, control: string, p: Cell, c: Cell): Row {
    map["plate_id" := p, condition := c, "count" := CountAt(g, condition, p, c),
        "normalized_count" := Ratio(CountAt(g, condition, p, c), CountAt(g, condition, p, Text(control)))]
  }

  lemma {:induction false} NormRowFields(g: Table, condition: string, control: string, p: Cell, c: Cell)
    requires ValidCondition(condition)
    ensures At(NormRow(g, condition, control, p, c), "plate_id") == p
    ensures At(NormRow(g, condition, control, p, c), condition) == c
    ensures At(NormRow(g, condition, control, p, c), "count") == CountAt(g, condition, p, c)
    ensures At(NormRow(g, condition, control, p, c), "normalized_count")
         == Ratio(CountAt(g, condition, p, c), CountAt(g, condition, p, Text(control)))
  {
    assert condition != "count" && condition != "normalized_count" by {
      assert "count" in ["plate_id", "well", "experiment", "well_count", "count", "normalized_count"];
      assert "normalized_count" in ["plate_id", "well", "experiment", "well_count", "count", "normalized_count"];
    }
  }

  /** The rows `melt` produces for one condition column: one per plate, in plate order. */
  function PlateRows(g: Table, condition: string, control: string, ps: seq<Cell>, c: Cell): (out: Table)
    ensures |out| == |ps|
  {
    seq(|ps|, j requires 0 <= j < |ps| => NormRow(g, condition, control, ps[j], c))
  }

  /** `melt` followed by the merge on plate and condition: the condition columns one after
      another, each with a row for every plate. */
  function Melt(g: Table, condition: string, control: string, ps: seq<Cell>, cs: seq<Cell>): (out: Table)
    ensures |out| == |cs| * |ps|
  {
    if cs == [] then []
    else
      var n := |cs| - 1;
      var init := Melt(g, condition, control, ps, cs[..n]);
      MulSuccNat(n, |ps|, |init|);
      init + PlateRows(g, condition, control, ps, cs[n])
  }

  /** `norm_count`: the count and normalised count of every plate and condition of the pivot
      table; a missing column or a control that is not a condition raises `KeyError`. */
  function NormCount(t: Table, control: string, condition: string): (r: Result<Table>)
    requires ValidCondition(condition)
    ensures r.Success? <==> HasColumns(t, WellColumns(condition) + ["experiment"]) && Text(control) in Unique(MeanCounts(t, condition), condition)
    ensures !HasColumns(t, WellColumns(condition) + ["experiment"]) ==> r.Failure? && r.error.KeyError?
    ensures HasColumns(t, WellColumns(condition) + ["experiment"]) && Text(control) !in Unique(MeanCounts(t, condition), condition) ==>
              r == Failure(KeyError(control))
    ensures r.Success? ==>
              r.value == Melt(MeanCounts(t, condition), condition, control,
                              Unique(MeanCounts(t, condition), "plate_id"), Unique(MeanCounts(t, condition), condition))
  {
    var missing := FirstMissing(t, WellColumns(condition) + ["experiment"]);
    if missing.Some? then Failure(KeyError(missing.value))
    else
      var g := MeanCounts(t, condition);
      if Text(control) !in Unique(g, condition) then Failure(KeyError(control))
      else Success(Melt(g, condition, control, Unique(g, "plate_id"), Unique(g, condition)))
  }

  /** Every row of `melt` is the row of a plate and a condition of the pivot table. */
  lemma {:induction false} MeltOnly(g: Table, condition: string, control: string, ps: seq<Cell>, cs: seq<Cell>, r: Row)
    requires r in Melt(g, condition, control, ps, cs)
    ensures exists j, i :: 0 <= j < |ps| && 0 <= i < |cs| && r == NormRow(g, condition, control, ps[j], cs[i])
  {
    var init := cs[..|cs| - 1];
    var rows := PlateRows(g, condition, control, ps, cs[|cs| - 1]);
    if r in rows {
      var j :| 0 <= j < |ps| && rows[j] == r;
      assert r == NormRow(g, condition, control, ps[j], cs[|cs| - 1]);
    } else {
      MeltOnly(g, condition, control, ps, init, r);
      var j, i :| 0 <= j < |ps| && 0 <= i < |init| && r == NormRow(g, condition, control, ps[j], init[i]);
      assert init[i] == cs[i];
    }
  }

  /** Every plate and condition of the pivot table has its row in `melt`. */
  lemma {:induction false} MeltHas(g: Table, condition: string, control: string, ps: seq<Cell>, cs: seq<Cell>, j: nat, i: nat)
    requires j < |ps| && i < |cs|
    ensures NormRow(g, condition, control, ps[j], cs[i]) in Melt(g, condition, control, ps, cs)
  {
    var init := cs[..|cs| - 1];
    var rows := PlateRows(g, condition, control, ps, cs[|cs| - 1]);
    assert Melt(g, condition, control, ps, cs) == Melt(g, condition, control, ps, init) + rows;
    if i < |init| {
      MeltHas(g, condition, control, ps, init, j, i);
      assert init[i] == cs[i];
    } else {
      assert rows[j] == NormRow(g, condition, control, ps[j], cs[i]);
    }
  }

  lemma {:induction false} MulSuccNat(n: nat, m: nat, a: nat)
    requires a == n * m
    ensures a + m == (n + 1) * m
  {
  }

  /** In `melt`, the control's own normalised count is 1 wherever its count is a non-zero number. */
  lemma {:induction false} MeltControlOne(g: Table, condition: string, control: string, ps: seq<Cell>, cs: seq<Cell>)
    requires ValidCondition(condition)
    ensures forall r :: r in Melt(g, condition, control, ps, cs) && At(r, condition) == Text(control) && At(r, "count").Number? && At(r, "count").x != 0.0 ==>
              At(r, "normalized_count") == Number(1.0)
  {
    forall r | r in Melt(g, condition, control, ps, cs) && At(r, condition) == Text(control) && At(r, "count").Number? && At(r, "count").x != 0.0
      ensures At(r, "normalized_count") == Number(1.0)
    {
      MeltOnly(g, condition, control, ps, cs, r);
      var j, i :| 0 <= j < |ps| && 0 <= i < |cs| && r == NormRow(g, condition, control, ps[j], cs[i]);
      NormRowFields(g, condition, control, ps[j], cs[i]);
      var x := CountAt(g, condition, ps[j], Text(control));
      assert cs[i] == Text(control);
      assert x.Number? && x.x != 0.0;
      DivSelf(x.x);
    }
  }

  lemma {:induction false} DivSelf(a: real)
    requires a != 0.0
    ensures a / a == 1.0
  {
  }

  /** The control's own normalised count is 1 in every plate where its count is a non-zero number. */
  lemma {:induction false} ControlNormalisedToOne(t: Table, control: string, condition: string, out: Table)
    requires ValidCondition(condition)
    requires NormCount(t, control, condition) == Success(out)
    ensures forall r :: r in out && At(r, condition) == Text(control) && At(r, "count").Number? && At(r, "count").x != 0.0 ==>
              At(r, "normalized_count") == Number(1.0)
  {
    var g := MeanCounts(t, condition);
    MeltControlOne(g, condition, control, Unique(g, "plate_id"), Unique(g, condition));
  }

  /** The output of `norm_count` has one row per plate and condition of the pivot table. */
  lemma {:induction false} NormCountShape(t: Table, control: string, condition: string, out: Table)
    requires ValidCondition(condition)
    requires NormCount(t, control, condition) == Success(out)
    ensures |out| == |Unique(MeanCounts(t, condition), condition)| * PlateCount(MeanCounts(t, condition))
    ensures forall j, i :: 0 <= j < PlateCount(MeanCounts(t, condition)) && 0 <= i < |Unique(MeanCounts(t, condition), condition)| ==>
              NormRow(MeanCounts(t, condition), condition, control, Unique(MeanCounts(t, condition), "plate_id")[j], Unique(MeanCounts(t, condition), condition)[i]) in out
  {
    var g := MeanCounts(t, condition);
    var ps, cs := Unique(g, "plate_id"), Unique(g, condition);
    forall j, i | 0 <= j < |ps| && 0 <= i < |cs| ensures NormRow(g, condition, control, ps[j], cs[i]) in out {
      MeltHas(g, condition, control, ps, cs, j, i);
    }
  }

  /** In a single plate where every condition has the control's (non-zero) mean count, each
      normalised count is 1, so they add up to the number of conditions. */
  lemma {:induction false} EqualCountsTotal(g: Table, condition: string, control: string, p: Cell, cs: seq<Cell>)
    requires ValidCondition(condition)
    requires CountAt(g, condition, p, Text(control)).Number? && CountAt(g, condition, p, Text(control)).x != 0.0
    requires forall c :: c in cs ==> CountAt(g, condition, p, c) == CountAt(g, condition, p, Text(control))
    ensures Total(Melt(g, condition, control, [p], cs), "normalized_count") == |cs| as real
  {
    if cs == [] {
      assert Column([], "normalized_count") == [];
    } else {
      var init, c := cs[..|cs| - 1], cs[|cs| - 1];
      assert c in cs;
      EqualCountsTotal(g, condition, control, p, init);
      var row := NormRow(g, condition, control, p, c);
      assert PlateRows(g, condition, control, [p], c) == [row];
      TotalSnoc(Melt(g, condition, control, [p], init), row, "normalized_count");
    }
  }

  /** A single plate with two conditions of equal mean count: the normalised counts sum to 2. */
  lemma {:induction false} TwoEqualConditionsSumToTwo(t: Table, control: string, condition: string, out: Table, p: Cell)
    requires ValidCondition(condition)
    requires NormCount(t, control, condition) == Success(out)
    requires Unique(MeanCounts(t, condition), "plate_id") == [p]
    requires |Unique(MeanCounts(t, condition), condition)| == 2
    requires CountAt(MeanCounts(t, condition), condition, p, Text(control)).Number?
    requires CountAt(MeanCounts(t, condition), condition, p, Text(control)).x != 0.0
    requires forall c :: c in Unique(MeanCounts(t, condition), condition) ==>
               CountAt(MeanCounts(t, condition), condition, p, c) == CountAt(MeanCounts(t, condition), condition, p, Text(control))
    ensures Total(out, "normalized_count") == 2.0
  {
    EqualCountsTotal(MeanCounts(t, condition), condition, control, p, Unique(MeanCounts(t, condition), condition));
  }

  /** The well counts of a plate-condition group add up to the number of its rows that have
      an `experiment` value; when every row has one, to the number of its rows. */
  lemma {:induction false} WellCountsTotal(t: Table, condition: string, k: Key)
    requires ValidCondition(condition) && |k| == 2
    ensures SumWhere(WellCounts(t, condition), PlateColumns(condition), k, "well_count")
         == CountKey(Dropna(t, "experiment"), PlateColumns(condition), k) as real
    ensures (forall i :: 0 <= i < |t| ==> At(t[i], "experiment") != Missing) ==>
              SumWhere(WellCounts(t, condition), PlateColumns(condition), k, "well_count") == CountKey(t, PlateColumns(condition), k) as real
  {
    var pc, wc := PlateColumns(condition), WellColumns(condition);
    WellColumnsDistinct(condition);
    assert WellCounts(t, condition) == GroupAgg(t, pc + ["well"], Keys(t, pc + ["well"]), "experiment", Count, "well_count");
    GroupCountsSum(t, pc, ["well"], "experiment", "well_count", k);
    if forall i :: 0 <= i < |t| ==> At(t[i], "experiment") != Missing {
      DropnaAll(t, "experiment");
    }
  }

  /** The pivot table's cell of a plate-condition group is the mean of its well counts, and
      missing for a group that has no well. */
  lemma {:induction false} CountAtMean(t: Table, condition: string, k: Key)
    requires ValidCondition(condition) && |k| == 2
    ensures k in Keys(WellCounts(t, condition), PlateColumns(condition)) ==>
              CountAt(MeanCounts(t, condition), condition, k[0], k[1]) == Mean(Column(Where(WellCounts(t, condition), PlateColumns(condition), k), "well_count"))
    ensures k !in Keys(WellCounts(t, condition), PlateColumns(condition)) ==>
              CountAt(MeanCounts(t, condition), condition, k[0], k[1]) == Missing
  {
    var w, pc := WellCounts(t, condition), PlateColumns(condition);
    assert MeanCounts(t, condition) == GroupAgg(w, pc, Keys(w, pc), "well_count", Mean, "count");
    CountAtGroup(w, condition, k);
  }

  /** `CountAtMean` for any table of well counts `w`. */
  lemma {:induction false} CountAtGroup(w: Table, condition: string, k: Key)
    requires ValidCondition(condition) && |k| == 2
    ensures k in Keys(w, PlateColumns(condition)) ==>
              CountAt(GroupAgg(w, PlateColumns(condition), Keys(w, PlateColumns(condition)), "well_count", Mean, "count"), condition, k[0], k[1])
              == Mean(Column(Where(w, PlateColumns(condition), k), "well_count"))
    ensures k !in Keys(w, PlateColumns(condition)) ==>
              CountAt(GroupAgg(w, PlateColumns(condition), Keys(w, PlateColumns(condition)), "well_count", Mean, "count"), condition, k[0], k[1])
              == Missing
  {
    var pc := PlateColumns(condition);
    WellColumnsDistinct(condition);
    assert [k[0], k[1]] == k;
    GroupAggWhere(w, pc, Keys(w, pc), "well_count", Mean, "count", k);
    GroupRowKey(pc, k, "count", Mean(Column(Where(w, pc, k), "well_count")));
  }

  /** Every well count is a number. */
  lemma {:induction false} WellCountsPresent(t: Table, condition: string, k: Key)
    requires ValidCondition(condition)
    ensures Present(Column(Where(WellCounts(t, condition), PlateColumns(condition), k), "well_count"))
         == CountKey(WellCounts(t, condition), PlateColumns(condition), k)
  {
    var w := WellCounts(t, condition);
    assert forall i :: 0 <= i < |w| ==> At(w[i], "well_count") != Missing;
    PresentInGroup(w, PlateColumns(condition), k, "well_count");
  }

  /** The count of a plate and condition that has wells is the number of its rows with an
      `experiment` value divided by its number of wells, a well without such a row counting
      as one; with an `experiment` value in every row, its number of rows per well. */
  lemma {:induction false} CountIsRowsPerWell(t: Table, condition: string, k: Key)
    requires ValidCondition(condition) && |k| == 2
    requires k in Keys(WellCounts(t, condition), PlateColumns(condition))
    ensures var wells := CountKey(WellCounts(t, condition), PlateColumns(condition), k);
            && wells > 0
            && CountAt(MeanCounts(t, condition), condition, k[0], k[1])
               == Number(CountKey(Dropna(t, "experiment"), PlateColumns(condition), k) as real / wells as real)
    ensures var wells := CountKey(WellCounts(t, condition), PlateColumns(condition), k);
            (forall i :: 0 <= i < |t| ==> At(t[i], "experiment") != Missing) ==>
              CountAt(MeanCounts(t, condition), condition, k[0], k[1]) == Number(CountKey(t, PlateColumns(condition), k) as real / wells as real)
  {
    var w, pc := WellCounts(t, condition), PlateColumns(condition);
    CountAtMean(t, condition, k);
    WellCountsTotal(t, condition, k);
    WellCountsPresent(t, condition, k);
    GroupNonEmpty(w, pc, k);
    assert |Column(Where(w, pc, k), "well_count")| == CountKey(w, pc, k);
  }

  /** A plate-condition group that has a well has a row of the input. */
  lemma {:induction false} WellGroupHasRows(t: Table, condition: string, k: Key)
    requires ValidCondition(condition)
    requires k in Keys(WellCounts(t, condition), PlateColumns(condition))
    ensures exists j :: 0 <= j < |t| && KeyOf(t[j], PlateColumns(condition)) == k
  {
    var w, pc, wc := WellCounts(t, condition), PlateColumns(condition), WellColumns(condition);
    var ks := Keys(t, wc);
    WellColumnsDistinct(condition);
    KeyOccurs(w, pc, k);
    var i :| 0 <= i < |w| && KeyOf(w[i], pc) == k;
    GroupRowKey(wc, ks[i], "well_count", Count(Column(Where(t, wc, ks[i]), "experiment")));
    KeyOfPrefix(w[i], pc, ["well"]);
    KeyOccurs(t, wc, ks[i]);
    var j :| 0 <= j < |t| && KeyOf(t[j], wc) == ks[i];
    KeyOfPrefix(t[j], pc, ["well"]);
  }

  /** A plate-condition group with a row of the input has a well. */
  lemma {:induction false} RowsGiveWellGroup(t: Table, condition: string, j: nat)
    requires ValidCondition(condition) && j < |t|
    ensures KeyOf(t[j], PlateColumns(condition)) in Keys(WellCounts(t, condition), PlateColumns(condition))
  {
    var w, pc, wc := WellCounts(t, condition), PlateColumns(condition), WellColumns(condition);
    var ks := Keys(t, wc);
    WellColumnsDistinct(condition);
    var i :| 0 <= i < |ks| && ks[i] == KeyOf(t[j], wc);
    GroupRowKey(wc, ks[i], "well_count", Count(Column(Where(t, wc, ks[i]), "experiment")));
    KeyOfPrefix(w[i], pc, ["well"]);
    KeyOfPrefix(t[j], pc, ["well"]);
  }

  /** The pivot table's cell of plate `p` and condition `c` is missing exactly when no row
      of the input has that plate and condition: absent combinations are not counted as 0. */
  lemma {:induction false} AbsentIsMissing(t: Table, condition: string, p: Cell, c: Cell)
    requires ValidCondition(condition)
    ensures CountAt(MeanCounts(t, condition), condition, p, c) == Missing <==>
              forall j :: 0 <= j < |t| ==> KeyOf(t[j], PlateColumns(condition)) != [p, c]
  {
    var w, pc := WellCounts(t, condition), PlateColumns(condition);
    var k := [p, c];
    CountAtMean(t, condition, k);
    if k in Keys(w, pc) {
      WellGroupHasRows(t, condition, k);
      GroupNonEmpty(w, pc, k);
      WellCountsPresent(t, condition, k);
    } else {
      forall j | 0 <= j < |t| ensures KeyOf(t[j], pc) != k {
        RowsGiveWellGroup(t, condition, j);
      }
    }
  }

  /** What the count figure shows and where it goes: the figure title when one is drawn,
      the bar data, the column of the bar heights, the bar order, the significance
      annotations and the file title when it is saved. */
  datatype CountFigure = CountFigure(title: Option<string>, bars: Table, yCol: string, order: seq<string>,
                                     marks: seq<Mark>, saved: Option<string>)

  /** `if not title: title = f"counts {selector_val}"`. */
  function CountTitle(title: Option<string>, selectorVal: Option<string>): string {
    TitleOrDefault(title, "counts " + Formatted(selectorVal))
  }

  const SixArguments := "set_significance_marks() takes 5 positional arguments but 6 were given"

  /** `count_plot` as written: the significance call passes six arguments to a function of
      five parameters, and `fig.suptitle` is reached with `fig` set to `None` when the caller
      passes the axes. */
  function CountPlotAsWritten(filtered: Option<Table>, control: string, conditions: seq<string>, conditionCol: string,
                              selectorVal: Option<string>, plotType: PlotType, title: Option<string>, save: bool,
                              path: Option<string>, axGiven: bool): (r: Result<CountFigure>)
    requires ValidCondition(conditionCol)
    ensures r.Success? <==>
              && filtered.Some? && NormCount(filtered.value, control, conditionCol).Success?
              && NUnique(filtered.value, "plate_id") < 3 && !axGiven
    ensures r.Success? ==> r.value.bars == NormCount(filtered.value, control, conditionCol).value && r.value.marks == []
  {
    if filtered.None? then Failure(AssertionError(""))
    else
      match NormCount(filtered.value, control, conditionCol)
      case Failure(e) => Failure(e)
      case Success(counts) =>
        if NUnique(filtered.value, "plate_id") >= 3 then Failure(TypeError(SixArguments))
        else if axGiven then Failure(AttributeError("suptitle"))
        else
          var name := CountTitle(title, selectorVal);
          Success(CountFigure(Some(name), counts, CountColumn(plotType), conditions, [],
                              if save && path.Some? then Some(SpacesToUnderscores(name)) else None))
  }

  /** As written, every table with three or more plates fails at the significance call. */
  lemma {:induction false} SixArgumentCallFails(df1: Table, control: string, conditions: seq<string>, conditionCol: string,
                                                selectorVal: Option<string>, plotType: PlotType, title: Option<string>, save: bool,
                                                path: Option<string>, axGiven: bool)
    requires ValidCondition(conditionCol)
    requires NormCount(df1, control, conditionCol).Success? && NUnique(df1, "plate_id") >= 3
    ensures CountPlotAsWritten(Some(df1), control, conditions, conditionCol, selectorVal, plotType, title, save, path, axGiven)
         == Failure(TypeError(SixArguments))
  {
  }

  /** As written, a call that passes the axes fails at the figure title once the counts exist
      (with three or more plates it has already failed at the significance call). */
  lemma {:induction false} AxesGivenFails(df1: Table, control: string, conditions: seq<string>, conditionCol: string,
                                          selectorVal: Option<string>, plotType: PlotType, title: Option<string>, save: bool,
                                          path: Option<string>)
    requires ValidCondition(conditionCol)
    requires NormCount(df1, control, conditionCol).Success? && NUnique(df1, "plate_id") < 3
    ensures CountPlotAsWritten(Some(df1), control, conditions, conditionCol, selectorVal, plotType, title, save, path, true)
         == Failure(AttributeError("suptitle"))
  {
  }

  /** `count_plot` as intended: the marks come from `set_significance_marks` with its five
      arguments, at the axes' top `yMax`, once there are three plates; the figure title and
      the file are only produced when the function made the figure itself. */
  function CountPlot(filtered: Option<Table>, control: string, conditions: seq<string>, conditionCol: string,
                     selectorVal: Option<string>, plotType: PlotType, title: Option<string>, save: bool,
                     path: Option<string>, axGiven: bool, yMax: real, ttest: TTest): (r: Result<CountFigure>)
    requires ValidCondition(conditionCol)
    ensures filtered.None? ==> r == Failure(AssertionError(""))
    ensures filtered.Some? && NormCount(filtered.value, control, conditionCol).Failure? ==>
              r == Failure(NormCount(filtered.value, control, conditionCol).error)
    ensures r.Failure? ==>
              || filtered.None?
              || NormCount(filtered.value, control, conditionCol).Failure?
              || (NUnique(filtered.value, "plate_id") >= 3 &&
                  SignificanceMarks(NormCount(filtered.value, control, conditionCol).value, conditions, CountColumn(plotType), yMax, ttest).Failure?)
    ensures r.Success? ==>
              && filtered.Some?
              && NormCount(filtered.value, control, conditionCol) == Success(r.value.bars)
              && r.value.yCol == CountColumn(plotType)
              && r.value.order == conditions
              && (if NUnique(filtered.value, "plate_id") >= 3
                  then SignificanceMarks(r.value.bars, conditions, r.value.yCol, yMax, ttest) == Success(r.value.marks)
                  else r.value.marks == [])
              && r.value.title == (if axGiven then None else Some(CountTitle(title, selectorVal)))
              && r.value.saved == (if !axGiven && save && path.Some? then Some(SpacesToUnderscores(CountTitle(title, selectorVal))) else None)
  {
    if filtered.None? then Failure(AssertionError(""))
    else
      match NormCount(filtered.value, control, conditionCol)
      case Failure(e) => Failure(e)
      case Success(counts) =>
        var yCol := CountColumn(plotType);
        var marks := if NUnique(filtered.value, "plate_id") >= 3 then SignificanceMarks(counts, conditions, yCol, yMax, ttest) else Success([]);
        match marks
        case Failure(e) => Failure(e)
        case Success(ms) =>
          var name := CountTitle(title, selectorVal);
          Success(CountFigure(if axGiven then None else Some(name), counts, yCol, conditions, ms,
                              if !axGiven && save && path.Some? then Some(SpacesToUnderscores(name)) else None))
  }

  /** Passing the axes no longer fails: with fewer than three plates the figure is drawn on
      the given axes, without a figure title and without saving. */
  lemma {:induction false} AxesGivenDrawn(df1: Table, control: string, conditions: seq<string>, conditionCol: string,
                                          selectorVal: Option<string>, plotType: PlotType, title: Option<string>, save: bool,
                                          path: Option<string>, yMax: real, ttest: TTest)
    requires ValidCondition(conditionCol)
    requires NormCount(df1, control, conditionCol).Success? && NUnique(df1, "plate_id") < 3
    ensures CountPlot(Some(df1), control, conditions, conditionCol, selectorVal, plotType, title, save, path, true, yMax, ttest)
         == Success(CountFigure(None, NormCount(df1, control, conditionCol).value, CountColumn(plotType), conditions, [], None))
  {
  }
}

/** The classification quantification: per well, the share of each class among the
    well's classified cells; their mean per plate, cell line, condition and class, and
    their spread. */
module Classification {
  import opened Frame
  import opened Titles

  /** A well of one cell line on one plate. */
  const WellIdColumns: seq<string> := ["plate_id", "cell_line", "well_id"]

  /** A class within a well, with the well's condition. */
  function ClassColumns(condition: string): seq<string> {
    WellIdColumns + [condition, "Class"]
  }

  /** A class within a plate, cell line and condition, across wells. */
  function MeanColumns(condition: string): seq<string> {
    ["plate_id", "cell_line", condition, "Class"]
  }

  /** A condition column that does not clash with the columns the quantification reads or makes. */
  predicate ValidCondition(condition: string) {
    condition !in ["plate_id", "cell_line", "well_id", "Class", "experiment", "class count", "percentage"]
  }

  lemma {:induction false} ColumnsDistinct(condition: string)
    requires ValidCondition(condition)
    ensures Distinct(ClassColumns(condition)) && Distinct(MeanColumns(condition))
    ensures "class count" !in ClassColumns(condition) && "percentage" !in ClassColumns(condition)
    ensures "percentage" !in MeanColumns(condition) && "percentage" !in WellIdColumns
  {
    var a: seq<string> := ["plate_id"];
    var b := a + ["cell_line"];
    var w := b + ["well_id"];
    var x := w + [condition];
    var m := b + [condition];
    assert Distinct(a) by { assert a[..0] == []; }
    assert Distinct(b) by { assert b[..1] == a; }
    assert Distinct(w) by { assert w[..2] == b; }
    assert Distinct(x) by { assert x[..3] == w; }
    assert Distinct(m) by { assert m[..2] == b; }
    assert ClassColumns(condition)[..4] == x;
    assert MeanColumns(condition)[..3] == m;
  }

  /** `groupby([plate, line, well_id, condition, "Class"])["experiment"].count()`: per class
      in a well, the number of its rows with an `experiment` value, in `class count`. */
  function ClassCounts(t: Table, condition: string): (out: Table)
    ensures |out| == |Keys(t, ClassColumns(condition))|
    ensures ValidCondition(condition) ==> forall i :: 0 <= i < |out| ==>
              && KeyOf(out[i], ClassColumns(condition)) == Keys(t, ClassColumns(condition))[i]
              && At(out[i], "class count")
                 == Number(Present(Column(Where(t, ClassColumns(condition), Keys(t, ClassColumns(condition))[i]), "experiment")) as real)
  {
    var cc := ClassColumns(condition);
    var out := GroupAgg(t, cc, Keys(t, cc), "experiment", Count, "class count");
    if ValidCondition(condition) then
      ColumnsDistinct(condition);
      GroupAggRows(t, cc, Keys(t, cc), "experiment", Count, "class count");
      out
    else out
  }

  /** The class count of row `r` as a percentage of the class counts of its well in `full`
      (the `transform("sum")` denominator); a well without counted cells gives 0/0, missing. */
  function Share(full: Table, r: Row): Cell {
    var total := SumWhere(full, WellIdColumns, KeyOf(r, WellIdColumns), "class count");
    if total == 0.0 then Missing else Number(Num(At(r, "class count")) / total * 100.0)
  }

  /** The rows with their `percentage` column set against the wells of `full`. */
  function WithShares(full: Table, rows: Table): (out: Table)
    ensures |out| == |rows|
  {
    seq(|rows|, i requires 0 <= i < |rows| => rows[i]["percentage" := Share(full, rows[i])])
  }

  /** Setting the percentages keeps every other column, and a row's percentage is missing
      exactly when its well has no counted cell in `full`. */
  lemma {:induction false} WithSharesRows(full: Table, rows: Table, cols: seq<string>)
    requires "percentage" !in cols
    ensures forall i :: 0 <= i < |rows| ==>
              && KeyOf(WithShares(full, rows)[i], cols) == KeyOf(rows[i], cols)
              && At(WithShares(full, rows)[i], "class count") == At(rows[i], "class count")
              && (At(WithShares(full, rows)[i], "percentage") == Missing
                  <==> SumWhere(full, WellIdColumns, KeyOf(rows[i], WellIdColumns), "class count") == 0.0)
  {
    forall i | 0 <= i < |rows| ensures KeyOf(WithShares(full, rows)[i], cols) == KeyOf(rows[i], cols) {
      KeyOfUpdate(rows[i], cols, "percentage", Share(full, rows[i]));
    }
  }

  /** `df_class` after its `percentage` column is assigned: the class counts row by row, each
      with its share of its well's counted cells. */
  function ClassPercentages(t: Table, condition: string): (out: Table)
    ensures |out| == |ClassCounts(t, condition)|
    ensures ValidCondition(condition) ==> forall i :: 0 <= i < |out| ==>
              && KeyOf(out[i], ClassColumns(condition)) == KeyOf(ClassCounts(t, condition)[i], ClassColumns(condition))
              && At(out[i], "class count") == At(ClassCounts(t, condition)[i], "class count")
              && (At(out[i], "percentage") == Missing
                  <==> SumWhere(ClassCounts(t, condition), WellIdColumns, KeyOf(ClassCounts(t, condition)[i], WellIdColumns), "class count") == 0.0)
  {
    var dc := ClassCounts(t, condition);
    if ValidCondition(condition) then
      ColumnsDistinct(condition);
      WithSharesRows(dc, dc, ClassColumns(condition));
      WithShares(dc, dc)
    else WithShares(dc, dc)
  }

  /** `df_class_mean`: per plate, cell line, condition and class, the mean percentage across wells. */
  function ClassMeans(t: Table, condition: string): (out: Table)
    ensures |out| == |Keys(ClassPercentages(t, condition), MeanColumns(condition))|
    ensures ValidCondition(condition) ==> forall i :: 0 <= i < |out| ==>
              && KeyOf(out[i], MeanColumns(condition)) == Keys(ClassPercentages(t, condition), MeanColumns(condition))[i]
              && At(out[i], "percentage")
                 == Mean(Column(Where(ClassPercentages(t, condition), MeanColumns(condition),
                                      Keys(ClassPercentages(t, condition), MeanColumns(condition))[i]), "percentage"))
  {
    var dp, mc := ClassPercentages(t, condition), MeanColumns(condition);
    if ValidCondition(condition) then
      ColumnsDistinct(condition);
      GroupAggRows(dp, mc, Keys(dp, mc), "percentage", Mean, "percentage");
      GroupAgg(dp, mc, Keys(dp, mc), "percentage", Mean, "percentage")
    else GroupAgg(dp, mc, Keys(dp, mc), "percentage", Mean, "percentage")
  }

  /** The standard deviation pandas computes, as a parameter. */
  type Spread = seq<Cell> -> Cell

  /** The mean frame with every percentage set to 0. */
  function Zeroed(m: Table): (out: Table)
    ensures |out| == |m|
  {
    seq(|m|, i requires 0 <= i < |m| => m[i]["percentage" := Number(0.0)])
  }

  /** Zeroing the percentages keeps every other column. */
  lemma {:induction false} ZeroedKeys(m: Table, cols: seq<string>)
    requires "percentage" !in cols
    ensures forall i :: 0 <= i < |m| ==> KeyOf(Zeroed(m)[i], cols) == KeyOf(m[i], cols)
  {
    forall i | 0 <= i < |m| ensures KeyOf(Zeroed(m)[i], cols) == KeyOf(m[i], cols) {
      KeyOfUpdate(m[i], cols, "percentage", Number(0.0));
    }
  }

  /** `df_class_std`: with more than one plate, the spread of the percentages per plate,
      cell line, condition and class; with a single plate, the mean frame with zeros. Either
      way it lines up row by row with the mean frame. */
  function ClassSpreads(t: Table, condition: string, std: Spread): (out: Table)
    ensures |out| == |ClassMeans(t, condition)|
    ensures ValidCondition(condition) ==> forall i :: 0 <= i < |out| ==>
              KeyOf(out[i], MeanColumns(condition)) == KeyOf(ClassMeans(t, condition)[i], MeanColumns(condition))
  {
    var dp, mc := ClassPercentages(t, condition), MeanColumns(condition);
    if |Unique(t, "plate_id")| > 1 then
      if ValidCondition(condition) then
        ColumnsDistinct(condition);
        GroupAggRows(dp, mc, Keys(dp, mc), "percentage", std, "percentage");
        GroupAgg(dp, mc, Keys(dp, mc), "percentage", std, "percentage")
      else GroupAgg(dp, mc, Keys(dp, mc), "percentage", std, "percentage")
    else
      if ValidCondition(condition) then
        ColumnsDistinct(condition);
        ZeroedKeys(ClassMeans(t, condition), mc);
        Zeroed(ClassMeans(t, condition))
      else Zeroed(ClassMeans(t, condition))
  }

  lemma {:induction false} WithSharesSnoc(full: Table, rows: Table, r: Row)
    ensures WithShares(full, rows + [r]) == WithShares(full, rows) + [r["percentage" := Share(full, r)]]
  {
  }

  /** Over the rows so far, the percentages of well `g` add up to those rows' class counts
      as a share of the well's total in `full`. */
  lemma {:induction false} SharesSum(full: Table, rows: Table, g: Key)
    requires SumWhere(full, WellIdColumns, g, "class count") > 0.0
    ensures SumWhere(WithShares(full, rows), WellIdColumns, g, "percentage")
         == SumWhere(rows, WellIdColumns, g, "class count") / SumWhere(full, WellIdColumns, g, "class count") * 100.0
  {
    var whole := SumWhere(full, WellIdColumns, g, "class count");
    if rows == [] {
      assert WithShares(full, rows) == [];
      assert Where([], WellIdColumns, g) == [];
      assert Column([], "percentage") == [] && Column([], "class count") == [];
    } else {
      var init, r := rows[..|rows| - 1], rows[|rows| - 1];
      assert rows == init + [r];
      SharesSum(full, init, g);
      var r' := r["percentage" := Share(full, r)];
      WithSharesSnoc(full, init, r);
      KeyOfUpdate(r, WellIdColumns, "percentage", Share(full, r));
      SumWhereSnoc(WithShares(full, init), r', WellIdColumns, g, "percentage");
      SumWhereSnoc(init, r, WellIdColumns, g, "class count");
      if KeyOf(r, WellIdColumns) == g {
        PercentStep(SumWhere(WithShares(full, init), WellIdColumns, g, "percentage"), Num(At(r', "percentage")),
                    SumWhere(init, WellIdColumns, g, "class count"), Num(At(r, "class count")),
                    SumWhere(rows, WellIdColumns, g, "class count"), whole);
      }
    }
  }

  lemma {:induction false} WholeShare(whole: real)
    requires whole > 0.0
    ensures whole / whole * 100.0 == 100.0
  {
  }

  /** Within each well that has counted cells, the class percentages add up to 100. */
  lemma {:induction false} WellPercentagesSumTo100(t: Table, condition: string, g: Key)
    requires SumWhere(ClassCounts(t, condition), WellIdColumns, g, "class count") > 0.0
    ensures SumWhere(ClassPercentages(t, condition), WellIdColumns, g, "percentage") == 100.0
  {
    var dc := ClassCounts(t, condition);
    SharesSum(dc, dc, g);
    WholeShare(SumWhere(dc, WellIdColumns, g, "class count"));
  }

  /** Every class count is a count: a number, never negative. */
  lemma {:induction false} CountsNonNegative(t: Table, condition: string)
    requires ValidCondition(condition)
    ensures forall i :: 0 <= i < |ClassCounts(t, condition)| ==> Num(At(ClassCounts(t, condition)[i], "class count")) >= 0.0
  {
    var cc := ClassColumns(condition);
    var ks := Keys(t, cc);
    ColumnsDistinct(condition);
    forall i | 0 <= i < |ks| ensures Num(At(ClassCounts(t, condition)[i], "class count")) >= 0.0 {
      GroupRowKey(cc, ks[i], "class count", Count(Column(Where(t, cc, ks[i]), "experiment")));
    }
  }

  lemma {:induction false} FractionBounded(part: real, whole: real)
    requires 0.0 <= part <= whole && whole != 0.0
    ensures 0.0 <= part / whole * 100.0 <= 100.0
  {
    assert part / whole <= 1.0;
  }

  /** A class's share of its well, within a frame of counts that are not negative, is a
      percentage, or missing when the well has no counted cells. */
  lemma {:induction false} ShareBounded(full: Table, j: nat)
    requires forall i :: 0 <= i < |full| ==> Num(At(full[i], "class count")) >= 0.0
    requires j < |full|
    ensures Share(full, full[j]) == Missing || (Share(full, full[j]).Number? && 0.0 <= Share(full, full[j]).x <= 100.0)
  {
    var g := KeyOf(full[j], WellIdColumns);
    SumWhereAtLeast(full, WellIdColumns, g, "class count", j);
    var total := SumWhere(full, WellIdColumns, g, "class count");
    if total != 0.0 {
      FractionBounded(Num(At(full[j], "class count")), total);
    }
  }

  /** Every percentage of the per-well frame lies between 0 and 100, or is missing. */
  lemma {:induction false} PercentagesBounded(t: Table, condition: string)
    requires ValidCondition(condition)
    ensures var dp := ClassPercentages(t, condition);
            forall i :: 0 <= i < |dp| ==> At(dp[i], "percentage") == Missing || (At(dp[i], "percentage").Number? && 0.0 <= At(dp[i], "percentage").x <= 100.0)
  {
    var dc := ClassCounts(t, condition);
    CountsNonNegative(t, condition);
    forall i | 0 <= i < |dc|
      ensures Share(dc, dc[i]) == Missing || (Share(dc, dc[i]).Number? && 0.0 <= Share(dc, dc[i]).x <= 100.0)
    {
      ShareBounded(dc, i);
    }
  }

  /** Every mean percentage lies between 0 and 100, or is missing. */
  lemma {:induction false} MeansBounded(t: Table, condition: string)
    requires ValidCondition(condition)
    ensures var m := ClassMeans(t, condition);
            forall i :: 0 <= i < |m| ==> At(m[i], "percentage") == Missing || (At(m[i], "percentage").Number? && 0.0 <= At(m[i], "percentage").x <= 100.0)
  {
    var dp, mc := ClassPercentages(t, condition), MeanColumns(condition);
    var ks := Keys(dp, mc);
    ColumnsDistinct(condition);
    PercentagesBounded(t, condition);
    forall i | 0 <= i < |ks|
      ensures var v := At(ClassMeans(t, condition)[i], "percentage");
              v == Missing || (v.Number? && 0.0 <= v.x <= 100.0)
    {
      var w := Where(dp, mc, ks[i]);
      var cs := Column(w, "percentage");
      forall m | 0 <= m < |cs| ensures cs[m] == Missing || (cs[m].Number? && 0.0 <= cs[m].x <= 100.0) {
        assert w[m] in w;
        WhereIn(dp, mc, ks[i], w[m]);
      }
      MeanBounded(cs);
      GroupRowKey(mc, ks[i], "percentage", Mean(cs));
    }
  }

  /** A well holding a row with an `experiment` value has a total class count of at least one. */
  lemma {:induction false} CountedWellHasTotal(t: Table, condition: string, j: nat)
    requires ValidCondition(condition)
    requires j < |t| && At(t[j], "experiment") != Missing
    ensures SumWhere(ClassCounts(t, condition), WellIdColumns, KeyOf(t[j], WellIdColumns), "class count") >= 1.0
  {
    var cc := ClassColumns(condition);
    var ks := Keys(t, cc);
    var dc := ClassCounts(t, condition);
    var k := KeyOf(t[j], cc);
    var i :| 0 <= i < |ks| && ks[i] == k;
    var w := Where(t, cc, k);
    var col := Column(w, "experiment");
    WhereContains(t, cc, j);
    var m :| 0 <= m < |w| && w[m] == t[j];
    assert col[m] == At(t[j], "experiment");
    PresentPositive(col, m);
    ColumnsDistinct(condition);
    GroupRowKey(cc, k, "class count", Count(col));
    assert dc[i] == GroupRow(cc, k, "class count", Count(col));
    KeyOfPrefix(dc[i], WellIdColumns, [condition, "Class"]);
    KeyOfPrefix(t[j], WellIdColumns, [condition, "Class"]);
    CountsNonNegative(t, condition);
    SumWhereAtLeast(dc, WellIdColumns, KeyOf(t[j], WellIdColumns), "class count", i);
  }

  /** The class percentages of the well of any row with an `experiment` value add up to 100. */
  lemma {:induction false} CountedWellSumsTo100(t: Table, condition: string, j: nat)
    requires ValidCondition(condition)
    requires j < |t| && At(t[j], "experiment") != Missing
    ensures SumWhere(ClassPercentages(t, condition), WellIdColumns, KeyOf(t[j], WellIdColumns), "percentage") == 100.0
  {
    CountedWellHasTotal(t, condition, j);
    WellPercentagesSumTo100(t, condition, KeyOf(t[j], WellIdColumns));
  }

  /** With a single plate, the spread frame has the mean frame's rows and keys, with every
      percentage 0. */
  lemma {:induction false} SinglePlateSpreadsZero(t: Table, condition: string, std: Spread)
    requires ValidCondition(condition)
    requires |Unique(t, "plate_id")| <= 1
    ensures |ClassSpreads(t, condition, std)| == |ClassMeans(t, condition)|
    ensures forall i :: 0 <= i < |ClassMeans(t, condition)| ==>
              && KeyOf(ClassSpreads(t, condition, std)[i], MeanColumns(condition)) == KeyOf(ClassMeans(t, condition)[i], MeanColumns(condition))
              && At(ClassSpreads(t, condition, std)[i], "percentage") == Number(0.0)
  {
    var m := ClassMeans(t, condition);
    ColumnsDistinct(condition);
    forall i | 0 <= i < |m|
      ensures KeyOf(ClassSpreads(t, condition, std)[i], MeanColumns(condition)) == KeyOf(m[i], MeanColumns(condition))
    {
      KeyOfUpdate(m[i], MeanColumns(condition), "percentage", Number(0.0));
    }
  }

  /** With several plates, the spread of a plate, cell line, condition and class is taken
      over the percentages of that group's wells, which all lie on the one plate: a spread
      across wells, not across plates. */
  lemma {:induction false} SpreadWithinPlate(t: Table, condition: string, std: Spread, k: Key)
    requires ValidCondition(condition)
    requires |Unique(t, "plate_id")| > 1
    requires k in Keys(ClassPercentages(t, condition), MeanColumns(condition))
    ensures Where(ClassSpreads(t, condition, std), MeanColumns(condition), k)
         == [GroupRow(MeanColumns(condition), k, "percentage",
                      std(Column(Where(ClassPercentages(t, condition), MeanColumns(condition), k), "percentage")))]
    ensures forall r :: r in Where(ClassPercentages(t, condition), MeanColumns(condition), k) ==> At(r, "plate_id") == k[0]
  {
    var dp, mc := ClassPercentages(t, condition), MeanColumns(condition);
    ColumnsDistinct(condition);
    GroupAggWhere(dp, mc, Keys(dp, mc), "percentage", std, "percentage", k);
    forall r | r in Where(dp, mc, k) ensures At(r, "plate_id") == k[0] {
      WhereIn(dp, mc, k, r);
      assert KeyOf(r, mc)[0] == At(r, "plate_id");
    }
  }

  /** The mean frame holds, for each plate, cell line, condition and class that occurs, the
      mean of the percentages of its wells, and nothing for any other. */
  lemma {:induction false} MeanOfWells(t: Table, condition: string, k: Key)
    requires ValidCondition(condition) && |k| == 4
    ensures var wells := Where(ClassPercentages(t, condition), MeanColumns(condition), k);
            k in Keys(ClassPercentages(t, condition), MeanColumns(condition)) ==>
              Where(ClassMeans(t, condition), MeanColumns(condition), k) == [GroupRow(MeanColumns(condition), k, "percentage", Mean(Column(wells, "percentage")))]
    ensures k !in Keys(ClassPercentages(t, condition), MeanColumns(condition)) ==>
              Where(ClassMeans(t, condition), MeanColumns(condition), k) == []
  {
    var dp, mc := ClassPercentages(t, condition), MeanColumns(condition);
    ColumnsDistinct(condition);
    GroupAggWhere(dp, mc, Keys(dp, mc), "percentage", Mean, "percentage", k);
  }

  /** What the classification figure shows and where it goes. */
  datatype ClassificationFigure = ClassificationFigure(title: string, means: Table, spreads: Table, saved: Option<string>)

  /** `plot_classification`, without the drawing: the filtered table must exist and be
      non-empty; the file is saved under the title itself, spaces included. */
  function PlotClassification(filtered: Option<Table>, condition: string, selectorVal: Option<string>,
                              title: Option<string>, save: bool, path: Option<string>, std: Spread): (r: Result<ClassificationFigure>)
    requires ValidCondition(condition)
    ensures r.Success? <==> filtered.Some? && filtered.value != [] && HasColumns(filtered.value, ClassColumns(condition) + ["experiment"])
    ensures filtered.None? ==> r == Failure(AssertionError("df1 is None"))
    ensures filtered == Some([]) ==> r == Failure(AssertionError("df1 is empty"))
    ensures filtered.Some? && filtered.value != [] && !HasColumns(filtered.value, ClassColumns(condition) + ["experiment"]) ==>
              r.Failure? && r.error.KeyError?
    ensures r.Success? ==>
              var name := TitleOrDefault(title, "Classification Analysis " + Formatted(selectorVal));
              && filtered.Some? && filtered.value != []
              && r.value.means == ClassMeans(filtered.value, condition)
              && r.value.spreads == ClassSpreads(filtered.value, condition, std)
              && r.value.title == name
              && r.value.saved == (if save && path.Some? then Some(name) else None)
  {
    if filtered.None? then Failure(AssertionError("df1 is None"))
    else if filtered.value == [] then Failure(AssertionError("df1 is empty"))
    else
      var missing := FirstMissing(filtered.value, ClassColumns(condition) + ["experiment"]);
      if missing.Some? then Failure(KeyError(missing.value))
      else
        var name := TitleOrDefault(title, "Classification Analysis " + Formatted(selectorVal));
        Success(ClassificationFigure(name, ClassMeans(filtered.value, condition), ClassSpreads(filtered.value, condition, std),
                                     if save && path.Some? then Some(name) else None))
  }
}

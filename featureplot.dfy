/** The feature plot: a feature's distribution per condition, with per-plate medians and
    significance marks once the screen has three plates, and a title chosen from the
    title string, the selector value and the feature. */
module FeaturePlot {
  import opened Frame
  import opened Titles
  import opened Stats

  /** The four-way choice of title: the title string wins over the feature name, and a
      selector value, when given, follows after a space. A title string with no selector
      value keeps its trailing space. */
  function FeatureTitle(titleStr: string, selectorVal: string, feature: string): (r: string)
    ensures selectorVal != "" ==> r == (if titleStr == "" then feature else titleStr) + " " + selectorVal
    ensures selectorVal == "" ==> r == (if titleStr == "" then feature else titleStr + " ")
  {
    match (titleStr, selectorVal)
    case ("", "") => feature
    case (_, "") => titleStr + " " + selectorVal
    case ("", _) => feature + " " + selectorVal
    case (_, _) => titleStr + " " + selectorVal
  }

  /** The title always begins with the title string, or with the feature when there is none. */
  lemma {:induction false} TitleStartsWithName(titleStr: string, selectorVal: string, feature: string)
    ensures var name := if titleStr == "" then feature else titleStr;
            |name| <= |FeatureTitle(titleStr, selectorVal, feature)| && FeatureTitle(titleStr, selectorVal, feature)[..|name|] == name
  {
    var name := if titleStr == "" then feature else titleStr;
    var r := FeatureTitle(titleStr, selectorVal, feature);
    if r != name {
      assert r == name + (r[|name|..]);
    }
  }

  /** A non-empty selector value is the title's suffix, after a space. */
  lemma {:induction false} TitleEndsWithSelector(titleStr: string, selectorVal: string, feature: string)
    requires selectorVal != ""
    ensures var r := FeatureTitle(titleStr, selectorVal, feature);
            |r| > |selectorVal| && r[|r| - |selectorVal| - 1..] == " " + selectorVal
  {
    var name := if titleStr == "" then feature else titleStr;
    var r := FeatureTitle(titleStr, selectorVal, feature);
    assert r == name + (" " + selectorVal);
  }

  /** A title string given without a selector value ends the title, and the file name, in
      a trailing space made underscore. */
  lemma {:induction false} TitleOnlyTrailingUnderscore(titleStr: string, feature: string)
    requires titleStr != ""
    ensures FeatureTitle(titleStr, "", feature) == titleStr + " "
    ensures var file := SpacesToUnderscores(FeatureTitle(titleStr, "", feature));
            file[|file| - 1] == '_'
  {
  }

  /** The median of a feature's values, as a parameter. */
  type Median = seq<Cell> -> Cell

  /** The grouping of the median frame. */
  function MedianColumns(conditionCol: string): seq<string> {
    ["plate_id", conditionCol]
  }

  /** `groupby(["plate_id", condition_col])[feature].median().reset_index()`: per plate and
      condition, the median of the feature, in a column named after the feature. */
  function Medians(f: Table, conditionCol: string, feature: string, median: Median): (out: Table)
    ensures |out| == |Keys(f, MedianColumns(conditionCol))|
    ensures conditionCol != "plate_id" && feature != "plate_id" && feature != conditionCol ==>
              forall i :: 0 <= i < |out| ==>
                && KeyOf(out[i], MedianColumns(conditionCol)) == Keys(f, MedianColumns(conditionCol))[i]
                && At(out[i], feature) == median(Column(Where(f, MedianColumns(conditionCol), Keys(f, MedianColumns(conditionCol))[i]), feature))
  {
    var mc := MedianColumns(conditionCol);
    if conditionCol != "plate_id" && feature != "plate_id" && feature != conditionCol then
      assert Distinct(mc) by { assert mc[..1] == ["plate_id"]; assert ["plate_id"][..0] == []; }
      GroupAggRows(f, mc, Keys(f, mc), feature, median, feature);
      GroupAgg(f, mc, Keys(f, mc), feature, median, feature)
    else GroupAgg(f, mc, Keys(f, mc), feature, median, feature)
  }

  /** What the feature plot shows besides the raw distribution, and where it goes. */
  datatype FeatureFigure = FeatureFigure(title: string, medians: Option<Table>, marks: seq<Mark>, saved: Option<string>)

  /** The swarm plot of each plate of the filtered table takes the next of three colours. */
  const PlateColours: nat := 3

  /** The median and significance block, drawn once the screen has three plates: the
      filtered table is grouped by plate and condition, and the medians are marked. */
  function MarkedFigure(f: Table, feature: string, conditions: seq<string>, conditionCol: string, name: string,
                        saved: Option<string>, yMax: real, median: Median, ttest: TTest): (r: Result<FeatureFigure>)
    ensures !HasColumns(f, MedianColumns(conditionCol) + [feature]) ==> r.Failure? && r.error.KeyError?
    ensures HasColumns(f, MedianColumns(conditionCol) + [feature]) ==>
              match SignificanceMarks(Medians(f, conditionCol, feature, median), conditions, feature, yMax, ttest)
              case Failure(e) => r == Failure(e)
              case Success(marks) => r == Success(FeatureFigure(name, Some(Medians(f, conditionCol, feature, median)), marks, saved))
  {
    var missing := FirstMissing(f, MedianColumns(conditionCol) + [feature]);
    if missing.Some? then Failure(KeyError(missing.value))
    else
      var medians := Medians(f, conditionCol, feature, median);
      match SignificanceMarks(medians, conditions, feature, yMax, ttest)
      case Failure(e) => Failure(e)
      case Success(marks) => Success(FeatureFigure(name, Some(medians), marks, saved))
  }

  /** The error the box plot raises for a column its data does not hold: `axis` is the axis
      the column was meant for. */
  function UninterpretableColumn(c: string, axis: string): (e: Error)
    ensures e.ValueError? && |e.message| > |c|
  {
    ValueError("Could not interpret value `" + c + "` for `" + axis + "`")
  }

  /** The box plot puts the column named `condition` on the x axis and the feature on the y
      axis, whatever the condition column: the first of them the data lacks is the error. */
  function BoxenPlot(f: Table, feature: string): (r: Option<Error>)
    ensures r.None? <==> HasColumns(f, ["condition", feature])
    ensures !HasColumns(f, ["condition"]) ==> r == Some(UninterpretableColumn("condition", "x"))
    ensures HasColumns(f, ["condition"]) && !HasColumns(f, [feature]) ==> r == Some(UninterpretableColumn(feature, "y"))
  {
    if !HasColumns(f, ["condition"]) then
      assert "condition" in ["condition", feature];
      Some(UninterpretableColumn("condition", "x"))
    else if !HasColumns(f, [feature]) then
      assert feature in ["condition", feature];
      Some(UninterpretableColumn(feature, "y"))
    else
      assert HasColumns(f, ["condition", feature]) by {
        forall i, c | 0 <= i < |f| && c in ["condition", feature] ensures c in f[i] {
          if c == "condition" { assert c in ["condition"]; } else { assert c in [feature]; }
        }
      }
      None
  }

  /** `feature_plot`, without the drawing. The filtered table must exist and hold the box
      plot's two columns; each of its plates needs a colour; the unfiltered table decides
      whether medians and marks are drawn. */
  function FeaturePlot(t: Table, filtered: Option<Table>, feature: string, conditions: seq<string>, conditionCol: string,
                       selectorVal: string, titleStr: string, save: bool, path: Option<string>,
                       yMax: real, median: Median, ttest: TTest): (r: Result<FeatureFigure>)
    ensures r.Success? <==>
              && filtered.Some? && HasColumns(filtered.value, ["condition", feature])
              && HasColumns(filtered.value, ["plate_id"]) && PlateCount(filtered.value) <= PlateColours
              && HasColumns(t, ["plate_id"])
              && (PlateCount(t) >= 3 ==>
                    && HasColumns(filtered.value, MedianColumns(conditionCol) + [feature])
                    && SignificanceMarks(Medians(filtered.value, conditionCol, feature, median), conditions, feature, yMax, ttest).Success?)
    ensures filtered.None? ==> r == Failure(AssertionError("No data found"))
    ensures filtered.Some? && !HasColumns(filtered.value, ["condition", feature]) ==> r.Failure? && r.error.ValueError?
    ensures filtered.Some? && HasColumns(filtered.value, ["condition", feature]) && !HasColumns(filtered.value, ["plate_id"]) ==>
              r == Failure(AttributeError("plate_id"))
    ensures filtered.Some? && HasColumns(filtered.value, ["condition", feature]) && HasColumns(filtered.value, ["plate_id"])
            && PlateCount(filtered.value) > PlateColours ==>
              r == Failure(IndexError("list index out of range"))
    ensures filtered.Some? && HasColumns(filtered.value, ["condition", feature]) && HasColumns(filtered.value, ["plate_id"])
            && PlateCount(filtered.value) <= PlateColours && !HasColumns(t, ["plate_id"]) ==>
              r == Failure(AttributeError("plate_id"))
    ensures r.Success? ==>
              var name := FeatureTitle(titleStr, selectorVal, feature);
              && filtered.Some? && PlateCount(filtered.value) <= PlateColours
              && HasColumns(t, ["plate_id"])
              && (r.value.medians.Some? <==> PlateCount(t) >= 3)
              && (PlateCount(t) < 3 ==> r.value.marks == [])
              && (PlateCount(t) >= 3 ==>
                    && r.value.medians == Some(Medians(filtered.value, conditionCol, feature, median))
                    && SignificanceMarks(r.value.medians.value, conditions, feature, yMax, ttest) == Success(r.value.marks))
              && r.value.title == name
              && r.value.saved == (if save && path.Some? then Some(SpacesToUnderscores(name)) else None)
  {
    if filtered.None? then Failure(AssertionError("No data found"))
    else if BoxenPlot(filtered.value, feature).Some? then Failure(BoxenPlot(filtered.value, feature).value)
    else if !HasColumns(filtered.value, ["plate_id"]) then Failure(AttributeError("plate_id"))
    else if PlateCount(filtered.value) > PlateColours then Failure(IndexError("list index out of range"))
    else if !HasColumns(t, ["plate_id"]) then Failure(AttributeError("plate_id"))
    else
      var name := FeatureTitle(titleStr, selectorVal, feature);
      var saved := if save && path.Some? then Some(SpacesToUnderscores(name)) else None;
      if PlateCount(t) < 3 then Success(FeatureFigure(name, None, [], saved))
      else MarkedFigure(filtered.value, feature, conditions, conditionCol, name, saved, yMax, median, ttest)
  }

  /** With fewer than three plates in the screen, a filtered table with its plates coloured
      always gives a figure, without medians or marks. */
  lemma {:induction false} FewPlatesNoMarks(t: Table, f: Table, feature: string, conditions: seq<string>, conditionCol: string,
                                           selectorVal: string, titleStr: string, save: bool, path: Option<string>,
                                           yMax: real, median: Median, ttest: TTest)
    requires HasColumns(f, ["condition", feature]) && HasColumns(f, ["plate_id"]) && PlateCount(f) <= PlateColours
    requires HasColumns(t, ["plate_id"]) && PlateCount(t) < 3
    ensures FeaturePlot(t, Some(f), feature, conditions, conditionCol, selectorVal, titleStr, save, path, yMax, median, ttest).Success?
  {
  }

  /** The median frame holds, per plate and condition that occurs, one row with the median of
      that group's feature values, and nothing for any other. */
  lemma {:induction false} MedianPerPlateCondition(f: Table, conditionCol: string, feature: string, median: Median, k: Key)
    requires conditionCol != "plate_id" && feature != "plate_id" && feature != conditionCol
    requires |k| == 2
    ensures k in Keys(f, MedianColumns(conditionCol)) ==>
              Where(Medians(f, conditionCol, feature, median), MedianColumns(conditionCol), k)
              == [GroupRow(MedianColumns(conditionCol), k, feature, median(Column(Where(f, MedianColumns(conditionCol), k), feature)))]
    ensures k !in Keys(f, MedianColumns(conditionCol)) ==> Where(Medians(f, conditionCol, feature, median), MedianColumns(conditionCol), k) == []
  {
    var mc := MedianColumns(conditionCol);
    assert Distinct(mc) by { assert mc[..1] == ["plate_id"]; assert ["plate_id"][..0] == []; }
    GroupAggWhere(f, mc, Keys(f, mc), feature, median, feature, k);
  }

  /** A median row holds the plate, the condition column and the feature, and nothing else. */
  lemma {:induction false} MedianRowColumns(f: Table, conditionCol: string, feature: string, median: Median)
    requires conditionCol != "plate_id" && feature != "plate_id" && feature != conditionCol
    ensures var m := Medians(f, conditionCol, feature, median);
            forall i, c :: 0 <= i < |m| ==> (c in m[i] <==> c == "plate_id" || c == conditionCol || c == feature)
  {
    var mc := MedianColumns(conditionCol);
    var ks := Keys(f, mc);
    assert Distinct(mc) by { assert mc[..1] == ["plate_id"]; assert ["plate_id"][..0] == []; }
    forall i | 0 <= i < |ks|
      ensures forall c :: c in Medians(f, conditionCol, feature, median)[i] <==> c == "plate_id" || c == conditionCol || c == feature
    {
      GroupRowKey(mc, ks[i], feature, median(Column(Where(f, mc, ks[i]), feature)));
    }
  }

  /** The first row of the median frame of a non-empty table holds only the plate, the
      condition column and the feature. */
  lemma {:induction false} FirstMedianRow(f: Table, conditionCol: string, feature: string, median: Median)
    requires conditionCol != "plate_id" && feature != "plate_id" && feature != conditionCol
    requires f != []
    ensures var m := GroupAgg(f, MedianColumns(conditionCol), Keys(f, MedianColumns(conditionCol)), feature, median, feature);
            m != [] && forall c :: c in m[0] ==> c == "plate_id" || c == conditionCol || c == feature
  {
    var mc := MedianColumns(conditionCol);
    var ks := Keys(f, mc);
    assert KeyOf(f[0], mc) in ks;
    var v := median(Column(Where(f, mc, ks[0]), feature));
    assert Distinct(mc) by { assert mc[..1] == ["plate_id"]; assert ["plate_id"][..0] == []; }
    GroupRowKey(mc, ks[0], feature, v);
  }

  /** A non-empty median frame without a `condition` column cannot be marked. */
  lemma {:induction false} MediansLackCondition(f: Table, conditionCol: string, feature: string, median: Median,
                                               conditions: seq<string>, yMax: real, ttest: TTest)
    requires conditionCol != "plate_id" && feature != "plate_id" && feature != conditionCol
    requires conditionCol != "condition" && feature != "condition"
    requires f != []
    ensures SignificanceMarks(Medians(f, conditionCol, feature, median), conditions, feature, yMax, ttest)
         == Failure(AttributeError("condition"))
  {
    var m := Medians(f, conditionCol, feature, median);
    var mc := MedianColumns(conditionCol);
    assert m == GroupAgg(f, mc, Keys(f, mc), feature, median, feature);
    FirstMedianRow(f, conditionCol, feature, median);
    LacksColumn(m, "condition");
    assert CalculatePValues(m, conditions, feature, ttest) == Failure(AttributeError("condition"));
  }

  /** The marks test `condition`, whatever the condition column: with three plates or more, a
      condition column of another name and a non-empty filtered table, the plot fails. */
  lemma {:induction false} CustomConditionColumnFails(t: Table, f: Table, feature: string, conditions: seq<string>, conditionCol: string,
                                                     selectorVal: string, titleStr: string, save: bool, path: Option<string>,
                                                     yMax: real, median: Median, ttest: TTest)
    requires conditionCol != "plate_id" && feature != "plate_id" && feature != conditionCol
    requires conditionCol != "condition" && feature != "condition"
    requires f != [] && HasColumns(f, ["plate_id", conditionCol, feature]) && PlateCount(f) <= PlateColours
    requires HasColumns(f, ["condition"])
    requires HasColumns(t, ["plate_id"]) && PlateCount(t) >= 3
    ensures FeaturePlot(t, Some(f), feature, conditions, conditionCol, selectorVal, titleStr, save, path, yMax, median, ttest)
         == Failure(AttributeError("condition"))
  {
    var all := ["plate_id", conditionCol, feature];
    HasFewerColumns(f, ["plate_id"], all);
    HasFewerColumns(f, [feature], all);
    assert BoxenPlot(f, feature).None?;
    HasFewerColumns(f, MedianColumns(conditionCol) + [feature], all);
    var name := FeatureTitle(titleStr, selectorVal, feature);
    var saved := if save && path.Some? then Some(SpacesToUnderscores(name)) else None;
    MediansLackCondition(f, conditionCol, feature, median, conditions, yMax, ttest);
    assert MarkedFigure(f, feature, conditions, conditionCol, name, saved, yMax, median, ttest) == Failure(AttributeError("condition"));
  }
}

/** The cell-cycle quantification: the share of cells in each cell-cycle phase per plate,
    cell line and condition, and the four phase panels of the cell-cycle figure. */
module CellCycle {
  import opened Frame
  import opened Stats
  import opened Titles

  /** The phases that get a panel, in panel order; Sub-G1 has none. */
  const Phases: seq<string> := ["G1", "S", "G2/M", "Polyploid"]

  /** The group of a cell: plate, cell line and condition. */
  function GroupColumns(condition: string): seq<string> {
    ["plate_id", "cell_line", condition]
  }

  /** The subgroup of a cell: its group and its phase. */
  function PhaseColumns(condition: string): seq<string> {
    GroupColumns(condition) + ["cell_cycle"]
  }

  /** A condition column that is not one of the other key columns nor the result column. */
  predicate ValidCondition(condition: string) {
    condition != "plate_id" && condition != "cell_line" && condition != "cell_cycle" && condition != "percent"
  }

  lemma {:induction false} PhaseColumnsDistinct(condition: string)
    requires ValidCondition(condition)
    ensures Distinct(PhaseColumns(condition)) && "percent" !in PhaseColumns(condition)
  {
    var a: seq<string> := ["plate_id"];
    var b := a + ["cell_line"];
    var c := b + [condition];
    assert Distinct(a) by { assert a[..0] == []; }
    assert b[..1] == a;
    assert c[..2] == b;
    assert PhaseColumns(condition)[..3] == c;
  }

  /** `t.groupby(cols)["experiment"].count()` for group `k`: the number of its cells whose
      `experiment` is not missing. */
  function Experiments(t: Table, cols: seq<string>, k: Key): nat {
    Present(Column(Where(t, cols, k), "experiment"))
  }

  /** The rows whose `experiment` is counted (`t.dropna(subset=["experiment"])`). */
  function Counted(t: Table): Table {
    Dropna(t, "experiment")
  }

  /** `part` counted cells of `whole` as a percentage; 0/0 is NaN, here missing. */
  function Share(part: nat, whole: nat): (p: Cell)
    requires part <= whole
    ensures p == Missing <==> whole == 0
    ensures p.Number? ==> 0.0 <= p.x <= 100.0
    ensures p.Number? ==> (p.x == 0.0 <==> part == 0) && (p.x == 100.0 <==> part == whole)
  {
    if whole == 0 then Missing
    else
      assert part as real / whole as real <= 1.0;
      assert part < whole ==> part as real / whole as real < 1.0;
      Number(part as real / whole as real * 100.0)
  }

  /** A phase subgroup has no more counted cells than its group. */
  lemma {:induction false} ExperimentsWithinGroup(t: Table, condition: string, k: Key)
    requires |k| == 4
    ensures Experiments(t, PhaseColumns(condition), k) <= Experiments(t, GroupColumns(condition), k[..3])
  {
    PresentIsCountKey(t, PhaseColumns(condition), k, "experiment");
    PresentIsCountKey(t, GroupColumns(condition), k[..3], "experiment");
    SubgroupSmaller(Counted(t), GroupColumns(condition), ["cell_cycle"], k);
  }

  /** The percentage of the counted cells of the group `k[..3]` that are in the phase
      subgroup `k`: missing when the group has no counted cell, and in [0, 100] otherwise. */
  function Percent(t: Table, condition: string, k: Key): (p: Cell)
    requires |k| == 4
    ensures p == Missing <==> Experiments(t, GroupColumns(condition), k[..3]) == 0
    ensures p.Number? ==> 0.0 <= p.x <= 100.0
  {
    ExperimentsWithinGroup(t, condition, k);
    Share(Experiments(t, PhaseColumns(condition), k), Experiments(t, GroupColumns(condition), k[..3]))
  }

  function PercentRow(t: Table, condition: string, k: Key): Row
    requires |k| == 4
  {
    GroupRow(PhaseColumns(condition), k, "percent", Percent(t, condition, k))
  }

  function PercentRows(t: Table, condition: string, ks: seq<Key>): (out: Table)
    requires forall k :: k in ks ==> |k| == 4
    ensures |out| == |ks|
  {
    seq(|ks|, i requires 0 <= i < |ks| => PercentRow(t, condition, ks[i]))
  }

  /** Appending a subgroup appends its row. */
  lemma {:induction false} PercentRowsSnoc(t: Table, condition: string, init: seq<Key>, k: Key)
    requires forall k' :: k' in init ==> |k'| == 4
    requires |k| == 4
    ensures PercentRows(t, condition, init + [k]) == PercentRows(t, condition, init) + [PercentRow(t, condition, k)]
  {
    var ks := init + [k];
    var out := PercentRows(t, condition, ks);
    var prev := PercentRows(t, condition, init);
    forall j | 0 <= j < |init| ensures out[j] == prev[j] {
      assert ks[j] == init[j];
    }
  }

  /** `cc_phase`: one row per phase subgroup that occurs, holding the subgroup's key and the
      percentage of its group's counted cells that it contains. */
  function CcPhase(t: Table, condition: string): (out: Table)
    ensures |out| == |Keys(t, PhaseColumns(condition))|
  {
    PercentRows(t, condition, Keys(t, PhaseColumns(condition)))
  }

  /** Each output row has exactly the five columns plate_id, cell_line, the condition,
      cell_cycle and percent; its key is a subgroup that occurs in the input; the keys are
      pairwise distinct and every subgroup of the input has a row; and its percent is the
      subgroup's count of experiments as a share of its group's. */
  lemma {:induction false} CcPhaseRows(t: Table, condition: string)
    requires ValidCondition(condition)
    ensures forall i :: 0 <= i < |CcPhase(t, condition)| ==>
              var r := CcPhase(t, condition)[i];
              var k := KeyOf(r, PhaseColumns(condition));
              && (forall c :: c in r <==> c in PhaseColumns(condition) || c == "percent")
              && k == Keys(t, PhaseColumns(condition))[i]
              && Experiments(t, PhaseColumns(condition), k) <= Experiments(t, GroupColumns(condition), k[..3])
              && At(r, "percent") == Share(Experiments(t, PhaseColumns(condition), k), Experiments(t, GroupColumns(condition), k[..3]))
    ensures forall i, j :: 0 <= i < j < |CcPhase(t, condition)| ==>
              KeyOf(CcPhase(t, condition)[i], PhaseColumns(condition)) != KeyOf(CcPhase(t, condition)[j], PhaseColumns(condition))
    ensures forall j :: 0 <= j < |t| ==>
              exists i :: 0 <= i < |CcPhase(t, condition)| && KeyOf(CcPhase(t, condition)[i], PhaseColumns(condition)) == KeyOf(t[j], PhaseColumns(condition))
  {
    var pc := PhaseColumns(condition);
    var ks := Keys(t, pc);
    var out := CcPhase(t, condition);
    forall i | 0 <= i < |out|
      ensures KeyOf(out[i], pc) == ks[i]
      ensures forall c :: c in out[i] <==> c in pc || c == "percent"
      ensures Experiments(t, pc, ks[i]) <= Experiments(t, GroupColumns(condition), ks[i][..3])
      ensures At(out[i], "percent") == Share(Experiments(t, pc, ks[i]), Experiments(t, GroupColumns(condition), ks[i][..3]))
    {
      CcPhaseRow(t, condition, i);
    }
    forall i, j | 0 <= i < j < |out| ensures KeyOf(out[i], pc) != KeyOf(out[j], pc) {
      DistinctAt(ks, i, j);
    }
    forall j | 0 <= j < |t|
      ensures exists i :: 0 <= i < |out| && KeyOf(out[i], pc) == KeyOf(t[j], pc)
    {
      var i :| 0 <= i < |ks| && ks[i] == KeyOf(t[j], pc);
      assert KeyOf(out[i], pc) == ks[i];
    }
  }

  /** Row `i` of `cc_phase` is the row of the `i`-th subgroup that occurs. */
  lemma {:induction false} CcPhaseRow(t: Table, condition: string, i: nat)
    requires ValidCondition(condition)
    requires i < |CcPhase(t, condition)|
    ensures KeyOf(CcPhase(t, condition)[i], PhaseColumns(condition)) == Keys(t, PhaseColumns(condition))[i]
    ensures forall c :: c in CcPhase(t, condition)[i] <==> c in PhaseColumns(condition) || c == "percent"
    ensures Experiments(t, PhaseColumns(condition), Keys(t, PhaseColumns(condition))[i])
         <= Experiments(t, GroupColumns(condition), Keys(t, PhaseColumns(condition))[i][..3])
    ensures At(CcPhase(t, condition)[i], "percent")
         == Share(Experiments(t, PhaseColumns(condition), Keys(t, PhaseColumns(condition))[i]),
                  Experiments(t, GroupColumns(condition), Keys(t, PhaseColumns(condition))[i][..3]))
  {
    var pc := PhaseColumns(condition);
    var k := Keys(t, pc)[i];
    var r := CcPhase(t, condition)[i];
    assert r == PercentRow(t, condition, k);
    PercentRowKey(t, condition, k);
    assert KeyOf(r, pc) == k;
    assert forall c :: c in r <==> c in pc || c == "percent";
  }

  /** The row of subgroup `k` lies in group `k[..3]` and holds the subgroup's share of it. */
  lemma {:induction false} PercentRowKey(t: Table, condition: string, k: Key)
    requires ValidCondition(condition)
    requires |k| == 4
    ensures KeyOf(PercentRow(t, condition, k), PhaseColumns(condition)) == k
    ensures KeyOf(PercentRow(t, condition, k), GroupColumns(condition)) == k[..3]
    ensures forall c :: c in PercentRow(t, condition, k) <==> c in PhaseColumns(condition) || c == "percent"
    ensures Experiments(t, PhaseColumns(condition), k) <= Experiments(t, GroupColumns(condition), k[..3])
    ensures At(PercentRow(t, condition, k), "percent")
         == Share(Experiments(t, PhaseColumns(condition), k), Experiments(t, GroupColumns(condition), k[..3]))
  {
    var gc, pc := GroupColumns(condition), PhaseColumns(condition);
    var row := PercentRow(t, condition, k);
    ExperimentsWithinGroup(t, condition, k);
    PhaseColumnsDistinct(condition);
    GroupRowKey(pc, k, "percent", Percent(t, condition, k));
    KeyOfPrefix(row, gc, ["cell_cycle"]);
  }

  /** Over the subgroups `ks`, the percents of the rows of group `g` add up to 100 times the
      number of counted cells in those subgroups of `g` over the number in `g`, and to 0 when
      `g` has no counted cell. */
  lemma {:induction false} PercentsOfGroup(t: Table, condition: string, ks: seq<Key>, g: Key)
    requires ValidCondition(condition)
    requires forall k :: k in ks ==> |k| == 4
    requires |g| == 3
    ensures SumWhere(PercentRows(t, condition, ks), GroupColumns(condition), g, "percent")
         == if CountKey(Counted(t), GroupColumns(condition), g) == 0 then 0.0
            else SumCounts(Counted(t), PhaseColumns(condition), WithPrefix(ks, g)) as real / CountKey(Counted(t), GroupColumns(condition), g) as real * 100.0
  {
    var gc := GroupColumns(condition);
    var whole := CountKey(Counted(t), gc, g) as real;
    if ks == [] {
      assert PercentRows(t, condition, ks) == [];
      assert Where([], gc, g) == [];
      assert Column([], "percent") == [];
      assert SumWhere(PercentRows(t, condition, ks), gc, g, "percent") == 0.0;
      assert WithPrefix(ks, g) == [];
      if whole > 0.0 {
        assert 0.0 / whole * 100.0 == 0.0;
      }
    } else {
      var init, k := ks[..|ks| - 1], ks[|ks| - 1];
      assert ks == init + [k];
      PercentsOfGroup(t, condition, init, g);
      PercentsOfGroupSnoc(t, condition, init, k, g);
    }
  }

  /** The step of `PercentsOfGroup`: adding the row of subgroup `k` adds its percent to the
      sum exactly when `k` lies in `g`. */
  lemma {:induction false} PercentsOfGroupSnoc(t: Table, condition: string, init: seq<Key>, k: Key, g: Key)
    requires ValidCondition(condition)
    requires forall k' :: k' in init ==> |k'| == 4
    requires |k| == 4 && |g| == 3
    requires SumWhere(PercentRows(t, condition, init), GroupColumns(condition), g, "percent")
          == if CountKey(Counted(t), GroupColumns(condition), g) == 0 then 0.0
             else SumCounts(Counted(t), PhaseColumns(condition), WithPrefix(init, g)) as real / CountKey(Counted(t), GroupColumns(condition), g) as real * 100.0
    ensures SumWhere(PercentRows(t, condition, init + [k]), GroupColumns(condition), g, "percent")
         == if CountKey(Counted(t), GroupColumns(condition), g) == 0 then 0.0
            else SumCounts(Counted(t), PhaseColumns(condition), WithPrefix(init + [k], g)) as real / CountKey(Counted(t), GroupColumns(condition), g) as real * 100.0
  {
    var gc, pc := GroupColumns(condition), PhaseColumns(condition);
    var f := Counted(t);
    var whole := CountKey(f, gc, g);
    var ks := init + [k];
    var prev := PercentRows(t, condition, init);
    var row := PercentRow(t, condition, k);
    PercentRowsSnoc(t, condition, init, k);
    PercentRowKey(t, condition, k);
    SumWhereSnoc(prev, row, gc, g, "percent");
    var x := SumWhere(prev, gc, g, "percent");
    var before := SumCounts(f, pc, WithPrefix(init, g));
    if k[..3] == g {
      assert WithPrefix(ks, g) == WithPrefix(init, g) + [k];
      PresentIsCountKey(t, pc, k, "experiment");
      PresentIsCountKey(t, gc, g, "experiment");
      var part := CountKey(f, pc, k);
      assert SumCounts(f, pc, WithPrefix(ks, g)) == before + part;
      if whole == 0 {
        assert At(row, "percent") == Missing;
      } else {
        assert Num(At(row, "percent")) == part as real / whole as real * 100.0;
        var sum := SumCounts(f, pc, WithPrefix(ks, g)) as real;
        PercentStep(x, Num(At(row, "percent")), before as real, part as real, sum, whole as real);
      }
      assert SumWhere(PercentRows(t, condition, ks), gc, g, "percent") == x + Num(At(row, "percent"));
    } else {
      assert WithPrefix(ks, g) == WithPrefix(init, g);
      assert SumWhere(PercentRows(t, condition, ks), gc, g, "percent") == x;
    }
  }

  /** Within each (plate, cell line, condition) group the percents of its phases sum to 100,
      or to 0 (all NaN) when the group has no counted cell. */
  lemma {:induction false} PercentsSumTo100(t: Table, condition: string, g: Key)
    requires ValidCondition(condition)
    requires |g| == 3
    ensures SumWhere(CcPhase(t, condition), GroupColumns(condition), g, "percent")
         == if Experiments(t, GroupColumns(condition), g) == 0 then 0.0 else 100.0
  {
    var gc, pc := GroupColumns(condition), PhaseColumns(condition);
    var f := Counted(t);
    var ks := Keys(t, pc);
    PercentsOfGroup(t, condition, ks, g);
    PresentIsCountKey(t, gc, g, "experiment");
    var m := CountKey(f, gc, g);
    if m > 0 {
      forall i | 0 <= i < |f| ensures KeyOf(f[i], pc) in ks {
        assert f[i] in f;
        var j :| 0 <= j < |t| && t[j] == f[i];
      }
      SubgroupCountsOver(f, gc, ["cell_cycle"], g, ks);
      WholeIs100(m as real);
    }
  }

  lemma {:induction false} WholeIs100(s: real)
    requires s > 0.0
    ensures s / s * 100.0 == 100.0
  {
  }

  lemma {:induction false} CcPhaseKeys(t: Table, condition: string)
    requires ValidCondition(condition)
    ensures forall i :: 0 <= i < |CcPhase(t, condition)| ==>
              KeyOf(CcPhase(t, condition)[i], PhaseColumns(condition)) == Keys(t, PhaseColumns(condition))[i]
  {
    var ks := Keys(t, PhaseColumns(condition));
    forall i | 0 <= i < |ks| ensures KeyOf(CcPhase(t, condition)[i], PhaseColumns(condition)) == ks[i] {
      PercentRowKey(t, condition, ks[i]);
    }
  }

  /** The (plate, cell line, condition) group of every output row occurs in the input. */
  lemma {:induction false} RowGroupOccurs(t: Table, condition: string, i: nat)
    requires ValidCondition(condition)
    requires i < |CcPhase(t, condition)|
    ensures KeyOf(CcPhase(t, condition)[i], GroupColumns(condition)) in Keys(t, GroupColumns(condition))
  {
    var gc, pc := GroupColumns(condition), PhaseColumns(condition);
    var r := CcPhase(t, condition)[i];
    CcPhaseKeys(t, condition);
    var k := KeyOf(r, pc);
    assert k in Keys(t, pc);
    KeyOfPrefix(r, gc, ["cell_cycle"]);
    KeyOccurs(t, pc, k);
    var j :| 0 <= j < |t| && KeyOf(t[j], pc) == k;
    KeyOfPrefix(t[j], gc, ["cell_cycle"]);
    assert KeyOf(r, gc) == KeyOf(t[j], gc);
  }

  lemma {:induction false} RowGroupsOccur(t: Table, condition: string)
    requires ValidCondition(condition)
    ensures forall i :: 0 <= i < |CcPhase(t, condition)| ==>
              KeyOf(CcPhase(t, condition)[i], GroupColumns(condition)) in Keys(t, GroupColumns(condition))
  {
    forall i | 0 <= i < |CcPhase(t, condition)|
      ensures KeyOf(CcPhase(t, condition)[i], GroupColumns(condition)) in Keys(t, GroupColumns(condition))
    {
      RowGroupOccurs(t, condition, i);
    }
  }

  /** Every group of the input sums to 100, or to 0 when none of its experiments is counted. */
  lemma {:induction false} AllPercentsSumTo100(t: Table, condition: string)
    requires ValidCondition(condition)
    ensures forall g :: g in Keys(t, GroupColumns(condition)) ==>
              SumWhere(CcPhase(t, condition), GroupColumns(condition), g, "percent")
              == if Experiments(t, GroupColumns(condition), g) == 0 then 0.0 else 100.0
  {
    forall g | g in Keys(t, GroupColumns(condition))
      ensures SumWhere(CcPhase(t, condition), GroupColumns(condition), g, "percent")
              == if Experiments(t, GroupColumns(condition), g) == 0 then 0.0 else 100.0
    {
      PercentsSumTo100(t, condition, g);
    }
  }

  /** A row whose percent is a number belongs to a group with a counted cell. */
  lemma {:induction false} CountedRowGroup(t: Table, condition: string, r: Row)
    requires ValidCondition(condition)
    requires r in CcPhase(t, condition) && At(r, "percent") != Missing
    ensures KeyOf(r, GroupColumns(condition)) in Keys(Counted(t), GroupColumns(condition))
  {
    var gc, pc := GroupColumns(condition), PhaseColumns(condition);
    var out := CcPhase(t, condition);
    var i :| 0 <= i < |out| && out[i] == r;
    var k := Keys(t, pc)[i];
    PercentRowKey(t, condition, k);
    PresentIsCountKey(t, gc, k[..3], "experiment");
    CountedKeyOccurs(Counted(t), gc, k[..3]);
  }

  /** The percent column adds up to 100 per group that has a counted cell. */
  lemma {:induction false} PercentTotal(t: Table, condition: string)
    requires ValidCondition(condition)
    ensures Total(CcPhase(t, condition), "percent") == 100.0 * |Keys(Counted(t), GroupColumns(condition))| as real
  {
    var out, gc := CcPhase(t, condition), GroupColumns(condition);
    var f := Counted(t);
    var gs := Keys(f, gc);
    var kept := Dropna(out, "percent");
    forall i | 0 <= i < |kept| ensures KeyOf(kept[i], gc) in gs {
      assert kept[i] in kept;
      CountedRowGroup(t, condition, kept[i]);
    }
    forall g | g in gs ensures SumWhere(kept, gc, g, "percent") == 100.0 {
      SumWhereDropna(out, gc, g, "percent");
      GroupNonEmpty(f, gc, g);
      PresentIsCountKey(t, gc, g, "experiment");
      PercentsSumTo100(t, condition, g);
    }
    PercentagesTotal(kept, gc, gs, "percent");
    TotalDropna(out, "percent");
  }

  lemma {:induction false} MeanOfShares(total: real, rows: nat, groups: nat, phases: nat)
    requires groups > 0 && phases > 0
    requires total == 100.0 * groups as real && rows == phases * groups
    ensures rows > 0 && total / rows as real == 100.0 / phases as real
  {
    assert rows as real == phases as real * groups as real;
    assert total / rows as real == (100.0 * groups as real) / (phases as real * groups as real);
  }

  /** When every group with a counted cell shows `phases` phases, the mean percent (pandas
      `mean`, which skips NaN) is 100 / phases. */
  lemma {:induction false} MeanPercent(t: Table, condition: string, phases: nat)
    requires ValidCondition(condition)
    requires Counted(t) != [] && phases > 0
    requires Present(Column(CcPhase(t, condition), "percent"))
          == phases * |Keys(Counted(t), GroupColumns(condition))|
    ensures Mean(Column(CcPhase(t, condition), "percent")) == Number(100.0 / phases as real)
  {
    var f := Counted(t);
    var gs := Keys(f, GroupColumns(condition));
    assert KeyOf(f[0], GroupColumns(condition)) in gs;
    PercentTotal(t, condition);
    var col := Column(CcPhase(t, condition), "percent");
    MeanOfShares(SumCells(col), Present(col), |gs|, phases);
  }

  /** The rows of the panel for `phase`: those of that phase whose condition is one of
      `conditions`. */
  function PhaseRows(df1: Table, phase: string, conditions: seq<string>, conditionCol: string): (rows: Table)
    ensures forall r :: r in rows <==> r in df1 && At(r, "cell_cycle") == Text(phase) && At(r, conditionCol) in Texts(conditions)
  {
    var w := Where(df1, ["cell_cycle"], [Text(phase)]);
    assert forall r :: r in w <==> r in df1 && At(r, "cell_cycle") == Text(phase) by {
      forall r ensures r in w <==> r in df1 && At(r, "cell_cycle") == Text(phase) {
        assert KeyOf(r, ["cell_cycle"]) == [At(r, "cell_cycle")];
        if r in df1 && At(r, "cell_cycle") == Text(phase) {
          WhereHas(df1, ["cell_cycle"], [Text(phase)], r);
        }
        if r in w {
          WhereIn(df1, ["cell_cycle"], [Text(phase)], r);
        }
      }
    }
    IsIn(w, conditionCol, Texts(conditions))
  }

  /** One panel of the figure: its phase, its rows and its significance annotations. */
  datatype Panel = Panel(phase: string, rows: Table, marks: seq<Mark>)

  /** What the figure shows and where it goes: `saved` is the file title when written. */
  datatype CellCycleFigure = CellCycleFigure(title: string, panels: seq<Panel>, saved: Option<string>)

  /** `p` is the panel of `phase`: its rows are the phase's rows of the wanted conditions and,
      with `gated` set, its annotations are the significance marks of those rows at height
      `yMax`; without it, it has none. */
  predicate ShowsPanel(p: Panel, df1: Table, phase: string, conditions: seq<string>, conditionCol: string, gated: bool,
                       yMax: real, ttest: TTest) {
    && p.phase == phase
    && p.rows == PhaseRows(df1, phase, conditions, conditionCol)
    && (if gated then SignificanceMarks(p.rows, conditions, "percent", yMax, ttest) == Success(p.marks) else p.marks == [])
  }

  /** The panel of `phase`, annotated at the panel's top `yTop(phase)` when `gated`. */
  function PhasePanel(df1: Table, phase: string, conditions: seq<string>, conditionCol: string, gated: bool,
                      yTop: string -> real, ttest: TTest): (r: Result<Panel>)
    ensures r.Success? <==> !gated || SignificanceMarks(PhaseRows(df1, phase, conditions, conditionCol), conditions, "percent", yTop(phase), ttest).Success?
    ensures r.Success? ==> ShowsPanel(r.value, df1, phase, conditions, conditionCol, gated, yTop(phase), ttest)
  {
    var rows := PhaseRows(df1, phase, conditions, conditionCol);
    if !gated then Success(Panel(phase, rows, []))
    else
      match SignificanceMarks(rows, conditions, "percent", yTop(phase), ttest)
      case Failure(e) => Failure(e)
      case Success(ms) => Success(Panel(phase, rows, ms))
  }

  /** The panels of the first `n` phases, stopping at the first panel that fails. */
  function PhasePanels(df1: Table, n: nat, conditions: seq<string>, conditionCol: string, gated: bool,
                       yTop: string -> real, ttest: TTest): (r: Result<seq<Panel>>)
    requires n <= |Phases|
    ensures r.Success? <==> forall i :: 0 <= i < n ==> PhasePanel(df1, Phases[i], conditions, conditionCol, gated, yTop, ttest).Success?
    ensures r.Success? ==> |r.value| == n && forall i :: 0 <= i < n ==>
              PhasePanel(df1, Phases[i], conditions, conditionCol, gated, yTop, ttest) == Success(r.value[i])
  {
    if n == 0 then Success([])
    else
      match PhasePanels(df1, n - 1, conditions, conditionCol, gated, yTop, ttest)
      case Failure(e) => Failure(e)
      case Success(ps) =>
        match PhasePanel(df1, Phases[n - 1], conditions, conditionCol, gated, yTop, ttest)
        case Failure(e) => Failure(e)
        case Success(p) => Success(ps + [p])
  }

  /** The title the figure gets and, when it is saved, the file title it is saved under. */
  function FigureTitle(title: Option<string>, selectorVal: Option<string>): string {
    TitleOrDefault(title, "Cellcycle Analysis " + Formatted(selectorVal))
  }

  /** The figure drawn from the percentage table `df1`: one panel per phase, gated on the
      number of plates. */
  function Figure(df1: Table, conditions: seq<string>, conditionCol: string, name: string, save: bool, path: Option<string>,
                  yTop: string -> real, ttest: TTest): (r: Result<CellCycleFigure>)
    ensures r.Success? <==> forall i :: 0 <= i < |Phases| ==>
              PhasePanel(df1, Phases[i], conditions, conditionCol, NUnique(df1, "plate_id") >= 3, yTop, ttest).Success?
    ensures r.Success? ==>
              && |r.value.panels| == |Phases|
              && (forall i :: 0 <= i < |Phases| ==>
                    ShowsPanel(r.value.panels[i], df1, Phases[i], conditions, conditionCol, NUnique(df1, "plate_id") >= 3, yTop(Phases[i]), ttest))
              && r.value.title == name
              && r.value.saved == (if save && path.Some? then Some(SpacesToUnderscores(name)) else None)
  {
    match PhasePanels(df1, |Phases|, conditions, conditionCol, NUnique(df1, "plate_id") >= 3, yTop, ttest)
    case Failure(e) => Failure(e)
    case Success(panels) => Success(CellCycleFigure(name, panels, if save && path.Some? then Some(SpacesToUnderscores(name)) else None))
  }

  /** `cellcycle_plot`, without the drawing. The selector-filtered table only has to exist:
      the percentages come from the unfiltered table. */
  function CellcyclePlot(t: Table, filtered: Option<Table>, conditions: seq<string>, conditionCol: string,
                         selectorVal: Option<string>, title: Option<string>, save: bool, path: Option<string>,
                         yTop: string -> real, ttest: TTest): (r: Result<CellCycleFigure>)
    ensures filtered.None? ==> r == Failure(AssertionError(""))
    ensures filtered.Some? && !HasColumns(t, PhaseColumns(conditionCol) + ["experiment"]) ==> r.Failure? && r.error.KeyError?
    ensures filtered.Some? && HasColumns(t, PhaseColumns(conditionCol) + ["experiment"]) ==>
              r == Figure(CcPhase(t, conditionCol), conditions, conditionCol, FigureTitle(title, selectorVal), save, path, yTop, ttest)
  {
    if filtered.None? then Failure(AssertionError(""))
    else
      var missing := FirstMissing(t, PhaseColumns(conditionCol) + ["experiment"]);
      if missing.Some? then Failure(KeyError(missing.value))
      else Figure(CcPhase(t, conditionCol), conditions, conditionCol, FigureTitle(title, selectorVal), save, path, yTop, ttest)
  }

  /** The figure does not depend on which selector-filtered table was computed. */
  lemma {:induction false} FilteredTableUnused(t: Table, a: Table, b: Table, conditions: seq<string>, conditionCol: string,
                            selectorVal: Option<string>, title: Option<string>, save: bool, path: Option<string>,
                            yTop: string -> real, ttest: TTest)
    ensures CellcyclePlot(t, Some(a), conditions, conditionCol, selectorVal, title, save, path, yTop, ttest)
         == CellcyclePlot(t, Some(b), conditions, conditionCol, selectorVal, title, save, path, yTop, ttest)
  {
  }

  /** A percentage row carries no `condition` field unless `condition` is the condition column. */
  lemma {:induction false} NoConditionField(t: Table, conditionCol: string)
    requires ValidCondition(conditionCol) && conditionCol != "condition"
    ensures forall j :: 0 <= j < |CcPhase(t, conditionCol)| ==> "condition" !in CcPhase(t, conditionCol)[j]
  {
    var ks := Keys(t, PhaseColumns(conditionCol));
    forall j | 0 <= j < |CcPhase(t, conditionCol)| ensures "condition" !in CcPhase(t, conditionCol)[j] {
      NoConditionInRow(t, conditionCol, ks[j]);
    }
  }

  lemma {:induction false} NoConditionInRow(t: Table, conditionCol: string, k: Key)
    requires ValidCondition(conditionCol) && conditionCol != "condition"
    requires |k| == 4
    ensures "condition" !in PercentRow(t, conditionCol, k)
  {
    var v := Percent(t, conditionCol, k);
    assert PercentRow(t, conditionCol, k) == GroupRow(PhaseColumns(conditionCol), k, "percent", v);
    NoConditionInPhaseRow(conditionCol, k, v);
  }

  lemma {:induction false} NoConditionInPhaseRow(conditionCol: string, k: Key, v: Cell)
    requires ValidCondition(conditionCol) && conditionCol != "condition" && |k| == 4
    ensures "condition" !in GroupRow(PhaseColumns(conditionCol), k, "percent", v)
  {
    assert "condition" !in PhaseColumns(conditionCol);
  }

  /** With at least three plates, a non-empty panel and a condition column other than
      `condition`, the significance step fails: the p-values read the `condition` column,
      which the percentage table does not have. */
  lemma {:induction false} CustomConditionColumnFails(t: Table, conditions: seq<string>, conditionCol: string, i: nat, yTop: string -> real, ttest: TTest)
    requires ValidCondition(conditionCol) && conditionCol != "condition"
    requires i < |Phases|
    requires PhaseRows(CcPhase(t, conditionCol), Phases[i], conditions, conditionCol) != []
    ensures PhasePanel(CcPhase(t, conditionCol), Phases[i], conditions, conditionCol, true, yTop, ttest)
         == Failure(AttributeError("condition"))
  {
    PhaseRowsLackCondition(t, Phases[i], conditions, conditionCol);
  }

  lemma {:induction false} PhaseRowsLackCondition(t: Table, phase: string, conditions: seq<string>, conditionCol: string)
    requires ValidCondition(conditionCol) && conditionCol != "condition"
    requires PhaseRows(CcPhase(t, conditionCol), phase, conditions, conditionCol) != []
    ensures !HasColumns(PhaseRows(CcPhase(t, conditionCol), phase, conditions, conditionCol), ["condition"])
  {
    var df1 := CcPhase(t, conditionCol);
    var rows := PhaseRows(df1, phase, conditions, conditionCol);
    assert rows[0] in rows;
    NoConditionField(t, conditionCol);
    FirstRowLacks(rows, df1, "condition");
  }

  /** Hence the whole figure fails for such a condition column once there are three plates. */
  lemma {:induction false} CustomConditionFigureFails(t: Table, conditions: seq<string>, conditionCol: string, i: nat,
                                                      name: string, save: bool, path: Option<string>, yTop: string -> real, ttest: TTest)
    requires ValidCondition(conditionCol) && conditionCol != "condition"
    requires i < |Phases| && NUnique(CcPhase(t, conditionCol), "plate_id") >= 3
    requires PhaseRows(CcPhase(t, conditionCol), Phases[i], conditions, conditionCol) != []
    ensures Figure(CcPhase(t, conditionCol), conditions, conditionCol, name, save, path, yTop, ttest).Failure?
  {
    CustomConditionColumnFails(t, conditions, conditionCol, i, yTop, ttest);
  }
}

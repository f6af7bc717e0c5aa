/** Drug-synergy scoring: per-well cell counts min-max normalised into a dose matrix of
    agent 1 (rows) by agent 2 (columns), scored against the Bliss independence expectation
    and against the highest single agent. */
module Synergy {
  import opened Frame

  /** The grouping of the cell counts: a well and its two doses. */
  function CountColumns(agent1: string, agent2: string): seq<string> {
    ["well", agent1, agent2]
  }

  /** Agent columns that are two different columns and clash with none the scoring reads or makes. */
  predicate ValidAgents(agent1: string, agent2: string) {
    && agent1 != agent2
    && agent1 !in ["well", "cell_count", "normalized_cell_count"]
    && agent2 !in ["well", "cell_count", "normalized_cell_count"]
  }

  lemma {:induction false} CountColumnsDistinct(agent1: string, agent2: string)
    requires ValidAgents(agent1, agent2)
    ensures Distinct(CountColumns(agent1, agent2))
    ensures "cell_count" !in CountColumns(agent1, agent2)
  {
    var a: seq<string> := ["well"];
    var b := a + [agent1];
    assert Distinct(a) by { assert a[..0] == []; }
    assert Distinct(b) by { assert b[..1] == a; }
    assert CountColumns(agent1, agent2)[..2] == b;
  }

  /** `groupby(["well", agent1, agent2]).size()`: per well and dose pair, its number of
      rows, in `cell_count`. */
  function CellCounts(t: Table, agent1: string, agent2: string): (out: Table)
    ensures |out| == |Keys(t, CountColumns(agent1, agent2))|
    ensures ValidAgents(agent1, agent2) ==> forall i :: 0 <= i < |out| ==>
              && KeyOf(out[i], CountColumns(agent1, agent2)) == Keys(t, CountColumns(agent1, agent2))[i]
              && At(out[i], "cell_count") == Number(CountKey(t, CountColumns(agent1, agent2), Keys(t, CountColumns(agent1, agent2))[i]) as real)
  {
    var cc := CountColumns(agent1, agent2);
    if ValidAgents(agent1, agent2) then
      CountColumnsDistinct(agent1, agent2);
      GroupAggRows(t, cc, Keys(t, cc), "well", Size, "cell_count");
      GroupAgg(t, cc, Keys(t, cc), "well", Size, "cell_count")
    else GroupAgg(t, cc, Keys(t, cc), "well", Size, "cell_count")
  }

  /** The cell counts of a well's dose pairs add up to the rows of that well. */
  lemma {:induction false} WellCellsTotal(t: Table, agent1: string, agent2: string, well: Cell)
    requires ValidAgents(agent1, agent2)
    ensures SumWhere(CellCounts(t, agent1, agent2), ["well"], [well], "cell_count") == CountKey(t, ["well"], [well]) as real
  {
    var cc := CountColumns(agent1, agent2);
    CountColumnsDistinct(agent1, agent2);
    assert cc == ["well"] + [agent1, agent2];
    GroupSizesSum(t, ["well"], [agent1, agent2], Keys(t, cc), "well", "cell_count", [well]);
    SubgroupCounts(t, ["well"], [agent1, agent2], [well]);
  }

  /** The `cell_count` column as numbers. */
  function Counts(df1: Table): (xs: seq<real>)
    ensures |xs| == |df1|
  {
    seq(|df1|, i requires 0 <= i < |df1| => Num(At(df1[i], "cell_count")))
  }

  /** The largest of a non-empty sequence of numbers (pandas `max`). */
  function MaxOf(xs: seq<real>): (m: real)
    requires xs != []
    ensures m in xs
    ensures forall i :: 0 <= i < |xs| ==> xs[i] <= m
  {
    if |xs| == 1 then xs[0]
    else
      var m0 := MaxOf(xs[..|xs| - 1]);
      assert forall i :: 0 <= i < |xs| - 1 ==> xs[..|xs| - 1][i] == xs[i];
      if xs[|xs| - 1] > m0 then xs[|xs| - 1] else m0
  }

  /** The smallest of a non-empty sequence of numbers (pandas `min`). */
  function MinOf(xs: seq<real>): (m: real)
    requires xs != []
    ensures m in xs
    ensures forall i :: 0 <= i < |xs| ==> m <= xs[i]
  {
    if |xs| == 1 then xs[0]
    else
      var m0 := MinOf(xs[..|xs| - 1]);
      assert forall i :: 0 <= i < |xs| - 1 ==> xs[..|xs| - 1][i] == xs[i];
      if xs[|xs| - 1] < m0 then xs[|xs| - 1] else m0
  }

  /** `(max - count) / (max - min)`; when every count is the same this is 0/0, missing. */
  function NormalizedCount(count: real, hi: real, lo: real): Cell {
    if hi == lo then Missing else Number((hi - count) / (hi - lo))
  }

  /** `df1` with its `normalized_cell_count` column assigned. */
  function WithNormalized(df1: Table): (out: Table)
    ensures |out| == |df1|
    ensures forall i :: 0 <= i < |out| ==> "normalized_cell_count" in out[i]
    ensures forall i, c :: 0 <= i < |out| && c != "normalized_cell_count" ==>
              (c in out[i] <==> c in df1[i]) && (c in df1[i] ==> out[i][c] == df1[i][c])
  {
    if df1 == [] then []
    else
      var xs := Counts(df1);
      seq(|df1|, i requires 0 <= i < |df1| => df1[i]["normalized_cell_count" := NormalizedCount(xs[i], MaxOf(xs), MinOf(xs))])
  }

  lemma {:induction false} ScaledWithinUnit(c: real, hi: real, lo: real)
    requires lo <= c <= hi && lo < hi
    ensures 0.0 <= (hi - c) / (hi - lo) <= 1.0
    ensures c == hi ==> (hi - c) / (hi - lo) == 0.0
    ensures c == lo ==> (hi - c) / (hi - lo) == 1.0
  {
    assert hi - c <= hi - lo;
  }

  lemma {:induction false} ScaledReversesOrder(a: real, b: real, hi: real, lo: real)
    requires a <= b && lo < hi
    ensures (hi - b) / (hi - lo) <= (hi - a) / (hi - lo)
  {
  }

  /** A normalised count is missing exactly when all counts are equal; otherwise it lies
      within [0, 1], 0 for the largest count and 1 for the smallest. */
  lemma {:induction false} NormalizedBounds(df1: Table, i: nat)
    requires i < |df1|
    ensures var xs := Counts(df1);
            var v := At(WithNormalized(df1)[i], "normalized_cell_count");
            && (v == Missing <==> MaxOf(xs) == MinOf(xs))
            && UnitOrMissing(v)
            && (v != Missing && xs[i] == MaxOf(xs) ==> v == Number(0.0))
            && (v != Missing && xs[i] == MinOf(xs) ==> v == Number(1.0))
  {
    var xs := Counts(df1);
    NormalizedAt(df1, i);
    CountScaled(xs[i], MaxOf(xs), MinOf(xs));
  }

  /** The larger count never has the larger normalised value. */
  lemma {:induction false} NormalizedReversesOrder(df1: Table, i: nat, j: nat)
    requires i < |df1| && j < |df1|
    requires Counts(df1)[i] <= Counts(df1)[j]
    ensures var v, w := At(WithNormalized(df1)[i], "normalized_cell_count"), At(WithNormalized(df1)[j], "normalized_cell_count");
            v.Number? ==> w.Number? && w.x <= v.x
  {
    var xs := Counts(df1);
    NormalizedAt(df1, i);
    NormalizedAt(df1, j);
    CountsReversed(xs[i], xs[j], MaxOf(xs), MinOf(xs));
  }

  lemma {:induction false} CountsReversed(a: real, b: real, hi: real, lo: real)
    requires lo <= a <= b <= hi
    ensures NormalizedCount(a, hi, lo).Number? ==> NormalizedCount(b, hi, lo).Number? && NormalizedCount(b, hi, lo).x <= NormalizedCount(a, hi, lo).x
  {
    if hi != lo {
      ScaledReversesOrder(a, b, hi, lo);
    }
  }

  lemma {:induction false} CountScaled(c: real, hi: real, lo: real)
    requires lo <= c <= hi
    ensures NormalizedCount(c, hi, lo) == Missing <==> hi == lo
    ensures UnitOrMissing(NormalizedCount(c, hi, lo))
    ensures hi != lo && c == hi ==> NormalizedCount(c, hi, lo) == Number(0.0)
    ensures hi != lo && c == lo ==> NormalizedCount(c, hi, lo) == Number(1.0)
  {
    if hi != lo {
      ScaledWithinUnit(c, hi, lo);
    }
  }

  /** Every normalised count is a fraction, or missing. */
  lemma {:induction false} NormalizedWithinUnit(df1: Table, k: nat)
    requires k < |df1|
    ensures UnitOrMissing(At(WithNormalized(df1)[k], "normalized_cell_count"))
  {
    var xs := Counts(df1);
    NormalizedAt(df1, k);
    CountScaled(xs[k], MaxOf(xs), MinOf(xs));
  }

  lemma {:induction false} NormalizedAt(df1: Table, k: nat)
    requires k < |df1|
    ensures var xs := Counts(df1);
            At(WithNormalized(df1)[k], "normalized_cell_count") == NormalizedCount(xs[k], MaxOf(xs), MinOf(xs))
  {
  }

  /** A dose matrix: row labels (agent 1 doses), column labels (agent 2 doses), values. */
  datatype Grid = Grid(rows: seq<Cell>, cols: seq<Cell>, values: seq<seq<Cell>>)

  predicate Shaped(g: Grid) {
    && Distinct(g.rows) && Distinct(g.cols)
    && |g.values| == |g.rows|
    && forall i :: 0 <= i < |g.values| ==> |g.values[i]| == |g.cols|
  }

  /** The value `pivot` places at dose pair (`r`, `c`): the normalised count of the row with
      those doses, missing when no row has them. */
  function PivotCell(df1: Table, agent1: string, agent2: string, r: Cell, c: Cell): Cell {
    var w := Where(df1, [agent1, agent2], [r, c]);
    if w == [] then Missing else At(w[0], "normalized_cell_count")
  }

  const DuplicateEntries: string := "Index contains duplicate entries, cannot reshape"

  /** `df1.pivot(index=agent1, columns=agent2, values="normalized_cell_count")`: refused when a
      dose pair occurs in more than one row. */
  function Pivot(df1: Table, agent1: string, agent2: string): (r: Result<Grid>)
    ensures r.Failure? <==> |Keys(df1, [agent1, agent2])| < |df1|
    ensures r.Failure? ==> r.error == ValueError(DuplicateEntries)
    ensures r.Success? ==>
              && Shaped(r.value)
              && r.value.rows == Unique(df1, agent1) && r.value.cols == Unique(df1, agent2)
              && forall i, j :: 0 <= i < |r.value.rows| && 0 <= j < |r.value.cols| ==>
                   r.value.values[i][j] == PivotCell(df1, agent1, agent2, r.value.rows[i], r.value.cols[j])
  {
    if |Keys(df1, [agent1, agent2])| < |df1| then Failure(ValueError(DuplicateEntries))
    else
      var rows, cols := Unique(df1, agent1), Unique(df1, agent2);
      Success(Grid(rows, cols, seq(|rows|, i requires 0 <= i < |rows| =>
                                     seq(|cols|, j requires 0 <= j < |cols| => PivotCell(df1, agent1, agent2, rows[i], cols[j])))))
  }

  /** The pivot puts each row's normalised count at its pair of doses. */
  lemma {:induction false} PivotPlacesRow(df1: Table, agent1: string, agent2: string, g: Grid, j: nat)
    requires Pivot(df1, agent1, agent2) == Success(g)
    requires j < |df1|
    ensures var r, c := At(df1[j], agent1), At(df1[j], agent2);
            && r in g.rows && c in g.cols
            && g.values[IndexOf(g.rows, r)][IndexOf(g.cols, c)] == At(df1[j], "normalized_cell_count")
  {
    var r, c := At(df1[j], agent1), At(df1[j], agent2);
    NoDuplicatePairs(df1, agent1, agent2);
    PivotLabels(df1, agent1, agent2, g);
    InUnique(df1, agent1, j);
    InUnique(df1, agent2, j);
    var i, k := IndexOf(g.rows, r), IndexOf(g.cols, c);
    PivotValue(df1, agent1, agent2, g, i, k);
    RowAtItsPair(df1, agent1, agent2, j);
  }

  lemma {:induction false} PivotLabels(df1: Table, agent1: string, agent2: string, g: Grid)
    requires Pivot(df1, agent1, agent2) == Success(g)
    ensures g.rows == Unique(df1, agent1) && g.cols == Unique(df1, agent2)
  {
  }

  lemma {:induction false} PivotValue(df1: Table, agent1: string, agent2: string, g: Grid, i: nat, k: nat)
    requires Pivot(df1, agent1, agent2) == Success(g)
    requires i < |g.rows| && k < |g.cols|
    ensures Shaped(g) && g.values[i][k] == PivotCell(df1, agent1, agent2, g.rows[i], g.cols[k])
  {
  }

  lemma {:induction false} NoDuplicatePairs(df1: Table, agent1: string, agent2: string)
    requires Pivot(df1, agent1, agent2).Success?
    ensures Distinct(KeyColumn(df1, [agent1, agent2]))
  {
    DedupLength(KeyColumn(df1, [agent1, agent2]));
  }

  lemma {:induction false} RowAtItsPair(df1: Table, agent1: string, agent2: string, j: nat)
    requires Distinct(KeyColumn(df1, [agent1, agent2])) && j < |df1|
    ensures PivotCell(df1, agent1, agent2, At(df1[j], agent1), At(df1[j], agent2)) == At(df1[j], "normalized_cell_count")
  {
    UniqueKeyRow(df1, [agent1, agent2], j);
    assert KeyOf(df1[j], [agent1, agent2]) == [At(df1[j], agent1), At(df1[j], agent2)];
  }

  /** What `normalize_cell_counts` returns: the normalised counts and their dose matrix. */
  datatype Normalization = Normalization(counts: Table, pivot: Grid)

  /** `normalize_cell_counts`: count, normalise, pivot. */
  function NormalizeCellCounts(t: Table, agent1: string, agent2: string): (r: Result<Normalization>)
    ensures !HasColumns(t, CountColumns(agent1, agent2)) ==> r.Failure? && r.error.KeyError?
    ensures HasColumns(t, CountColumns(agent1, agent2)) ==>
              var counts := WithNormalized(CellCounts(t, agent1, agent2));
              match Pivot(counts, agent1, agent2)
              case Failure(e) => r == Failure(e)
              case Success(g) => r == Success(Normalization(counts, g))
  {
    var missing := FirstMissing(t, CountColumns(agent1, agent2));
    if missing.Some? then Failure(KeyError(missing.value))
    else
      var counts := WithNormalized(CellCounts(t, agent1, agent2));
      match Pivot(counts, agent1, agent2)
      case Failure(e) => Failure(e)
      case Success(g) => Success(Normalization(counts, g))
  }

  /** A value that is missing or a fraction within [0, 1]. */
  predicate UnitOrMissing(c: Cell) {
    c == Missing || (c.Number? && 0.0 <= c.x <= 1.0)
  }

  /** A frame whose every value is a fraction, or missing. */
  predicate WithinUnit(g: Grid) {
    forall i, j :: 0 <= i < |g.values| && 0 <= j < |g.values[i]| ==> UnitOrMissing(g.values[i][j])
  }

  lemma {:induction false} PivotCellWithinUnit(df1: Table, agent1: string, agent2: string, r: Cell, c: Cell)
    ensures UnitOrMissing(PivotCell(WithNormalized(df1), agent1, agent2, r, c))
  {
    var counts := WithNormalized(df1);
    var w := Where(counts, [agent1, agent2], [r, c]);
    if w != [] {
      assert w[0] in w;
      WhereIn(counts, [agent1, agent2], [r, c], w[0]);
      var k :| 0 <= k < |counts| && counts[k] == w[0];
      NormalizedWithinUnit(df1, k);
    }
  }

  lemma {:induction false} PivotOfNormalizedWithinUnit(df1: Table, agent1: string, agent2: string, g: Grid)
    requires Pivot(WithNormalized(df1), agent1, agent2) == Success(g)
    ensures WithinUnit(g)
  {
    forall i, j | 0 <= i < |g.values| && 0 <= j < |g.values[i]| ensures UnitOrMissing(g.values[i][j]) {
      PivotCellWithinUnit(df1, agent1, agent2, g.rows[i], g.cols[j]);
    }
  }

  /** Every value of the dose matrix is a normalised count, or missing. */
  lemma {:induction false} PivotWithinUnit(t: Table, agent1: string, agent2: string, n: Normalization)
    requires NormalizeCellCounts(t, agent1, agent2) == Success(n)
    ensures WithinUnit(n.pivot)
  {
    PivotOfNormalizedWithinUnit(CellCounts(t, agent1, agent2), agent1, agent2, n.pivot);
  }

  /** The dose labelled 0: the single-agent row and column. */
  const Zero: Cell := Number(0.0)

  /** The position of a label. */
  function IndexOf(s: seq<Cell>, x: Cell): (i: nat)
    requires x in s
    ensures i < |s| && s[i] == x
  {
    if s[0] == x then 0 else 1 + IndexOf(s[1..], x)
  }

  /** Float arithmetic on cells: a missing operand gives a missing result. */
  function Plus(a: Cell, b: Cell): Cell {
    if a.Number? && b.Number? then Number(a.x + b.x) else Missing
  }

  function Minus(a: Cell, b: Cell): Cell {
    if a.Number? && b.Number? then Number(a.x - b.x) else Missing
  }

  function Times(a: Cell, b: Cell): Cell {
    if a.Number? && b.Number? then Number(a.x * b.x) else Missing
  }

  /** The Bliss independence expectation of two single-agent effects: `e1 + e2 - e1 * e2`. */
  function Independent(e1: Cell, e2: Cell): Cell {
    Minus(Plus(e1, e2), Times(e1, e2))
  }

  /** A dose matrix with both single-agent axes. */
  predicate HasAxes(g: Grid) {
    Shaped(g) && Zero in g.rows && Zero in g.cols
  }

  /** The `expected` matrix at (`i`, `j`): the observed value on the single-agent row and
      column, the Bliss expectation of the two single-agent effects elsewhere. */
  function Expected(g: Grid, i: nat, j: nat): Cell
    requires HasAxes(g) && i < |g.rows| && j < |g.cols|
  {
    if g.rows[i] == Zero || g.cols[j] == Zero then g.values[i][j]
    else Independent(g.values[i][IndexOf(g.cols, Zero)], g.values[IndexOf(g.rows, Zero)][j])
  }

  /** `fillna(0)`. */
  function FillMissing(c: Cell): Cell {
    if c == Missing then Number(0.0) else c
  }

  /** The Bliss synergy score at (`i`, `j`): observed minus expected, missing made 0. */
  function BlissScore(g: Grid, i: nat, j: nat): (r: Cell)
    requires HasAxes(g) && i < |g.rows| && j < |g.cols|
    ensures r.Number?
    ensures g.values[i][j].Number? && Expected(g, i, j).Number? ==> r.x == g.values[i][j].x - Expected(g, i, j).x
    ensures !(g.values[i][j].Number? && Expected(g, i, j).Number?) ==> r.x == 0.0
  {
    FillMissing(Minus(g.values[i][j], Expected(g, i, j)))
  }

  /** `bliss_analysis` on a dose matrix: the single-agent column and row must exist; `expected`
      starts all missing and is filled cell by cell; the scores are the element-wise
      difference with missing values made 0. */
  method BlissAnalysis(g: Grid) returns (r: Result<array2<Cell>>)
    requires Shaped(g)
    ensures r.Success? <==> HasAxes(g)
    ensures r.Failure? ==> r == Failure(KeyError("0"))
    ensures !HasAxes(g) <==> r == Failure(KeyError("0"))
    ensures r.Success? ==>
              && fresh(r.value)
              && r.value.Length0 == |g.rows| && r.value.Length1 == |g.cols|
              && HasAxes(g)
              && forall i, j :: 0 <= i < |g.rows| && 0 <= j < |g.cols| ==> r.value[i, j] == BlissScore(g, i, j)
  {
    if Zero !in g.cols || Zero !in g.rows {
      return Failure(KeyError("0"));
    }
    var m, n := |g.rows|, |g.cols|;
    var z1, z2 := IndexOf(g.rows, Zero), IndexOf(g.cols, Zero);
    var expected := new Cell[m, n]((i, j) => Missing);
    var i := 0;
    while i < m
      invariant 0 <= i <= m
      invariant forall a, b :: 0 <= a < i && 0 <= b < n ==> expected[a, b] == Expected(g, a, b)
    {
      var j := 0;
      while j < n
        invariant 0 <= j <= n
        invariant forall a, b :: 0 <= a < i && 0 <= b < n ==> expected[a, b] == Expected(g, a, b)
        invariant forall b :: 0 <= b < j ==> expected[i, b] == Expected(g, i, b)
      {
        if g.rows[i] == Zero || g.cols[j] == Zero {
          expected[i, j] := g.values[i][j];
        } else {
          expected[i, j] := Independent(g.values[i][z2], g.values[z1][j]);
        }
        j := j + 1;
      }
      i := i + 1;
    }
    var scores := new Cell[m, n]((a, b) reads expected requires 0 <= a < m && 0 <= b < n =>
                                   FillMissing(Minus(g.values[a][b], expected[a, b])));
    return Success(scores);
  }

  /** On the single-agent row and column the Bliss score is 0. */
  lemma {:induction false} BlissZeroOnAxes(g: Grid, i: nat, j: nat)
    requires HasAxes(g) && i < |g.rows| && j < |g.cols|
    requires g.rows[i] == Zero || g.cols[j] == Zero
    ensures BlissScore(g, i, j) == Number(0.0)
  {
  }

  /** For single-agent effects within [0, 1], the Bliss expectation lies between the larger
      effect and 1. */
  lemma {:induction false} IndependentBounds(e1: real, e2: real)
    requires 0.0 <= e1 <= 1.0 && 0.0 <= e2 <= 1.0
    ensures Independent(Number(e1), Number(e2)) == Number(e1 + e2 - e1 * e2)
    ensures e1 <= e1 + e2 - e1 * e2 <= 1.0
    ensures e2 <= e1 + e2 - e1 * e2 <= 1.0
  {
    ProductNonNegative(e2, 1.0 - e1);
    ProductNonNegative(1.0 - e1, 1.0 - e2);
    ProductNonNegative(e1, 1.0 - e2);
  }

  lemma {:induction false} ProductNonNegative(a: real, b: real)
    requires a >= 0.0 && b >= 0.0
    ensures a * b >= 0.0
  {
  }

  /** On a dose matrix of fractions (or missing values) every Bliss score lies within [-1, 1]. */
  lemma {:induction false} BlissScoreWithinUnit(g: Grid, i: nat, j: nat)
    requires HasAxes(g) && i < |g.rows| && j < |g.cols|
    requires WithinUnit(g)
    ensures BlissScore(g, i, j).Number? && -1.0 <= BlissScore(g, i, j).x <= 1.0
  {
    var e1 := g.values[i][IndexOf(g.cols, Zero)];
    var e2 := g.values[IndexOf(g.rows, Zero)][j];
    var ex := Expected(g, i, j);
    assert UnitOrMissing(g.values[i][j]);
    if g.rows[i] == Zero || g.cols[j] == Zero {
      assert ex == g.values[i][j];
    } else {
      assert UnitOrMissing(e1) && UnitOrMissing(e2);
      if e1.Number? && e2.Number? {
        IndependentBounds(e1.x, e2.x);
      }
      assert UnitOrMissing(ex);
    }
  }

  /** The Bliss scores of any table's dose matrix are numbers within [-1, 1]. */
  lemma {:induction false} BlissScoresWithinUnit(t: Table, agent1: string, agent2: string, n: Normalization, i: nat, j: nat)
    requires NormalizeCellCounts(t, agent1, agent2) == Success(n)
    requires HasAxes(n.pivot) && i < |n.pivot.rows| && j < |n.pivot.cols|
    ensures BlissScore(n.pivot, i, j).Number? && -1.0 <= BlissScore(n.pivot, i, j).x <= 1.0
  {
    PivotWithinUnit(t, agent1, agent2, n);
    BlissScoreWithinUnit(n.pivot, i, j);
  }

  /** Python's `max(a, b)`: `b` only when it compares greater, so a missing first argument
      wins and a missing second one loses. */
  function PyMax(a: Cell, b: Cell): Cell {
    if a.Number? && b.Number? && b.x > a.x then b else a
  }

  /** The highest single-agent effect at (`i`, `j`). */
  function SingleMax(g: Grid, i: nat, j: nat): Cell
    requires HasAxes(g) && i < |g.rows| && j < |g.cols|
  {
    PyMax(g.values[i][IndexOf(g.cols, Zero)], g.values[IndexOf(g.rows, Zero)][j])
  }

  /** The HSA score at (`i`, `j`): observed minus the highest single-agent effect. */
  function HsaScore(g: Grid, i: nat, j: nat): (r: Cell)
    requires HasAxes(g) && i < |g.rows| && j < |g.cols|
    ensures r.Number? <==> g.values[i][j].Number? && g.values[i][IndexOf(g.cols, Zero)].Number?
    ensures r.Number? && g.values[IndexOf(g.rows, Zero)][j].Number? ==>
              && r.x <= g.values[i][j].x - g.values[i][IndexOf(g.cols, Zero)].x
              && r.x <= g.values[i][j].x - g.values[IndexOf(g.rows, Zero)][j].x
              && (r.x == g.values[i][j].x - g.values[i][IndexOf(g.cols, Zero)].x
                  || r.x == g.values[i][j].x - g.values[IndexOf(g.rows, Zero)][j].x)
  {
    Minus(g.values[i][j], SingleMax(g, i, j))
  }

  /** `hsa_analysis` on a dose matrix: for every pair of doses, the larger single-agent effect
      is filled in cell by cell; the scores are the element-wise difference. A matrix without
      doses is never looked up, so only a non-empty one needs both single-agent axes. */
  method HsaAnalysis(g: Grid) returns (r: Result<array2<Cell>>)
    requires Shaped(g)
    ensures r.Failure? <==> |g.rows| > 0 && |g.cols| > 0 && !HasAxes(g)
    ensures r.Failure? ==> r == Failure(KeyError("0"))
    ensures r.Success? ==>
              && fresh(r.value)
              && r.value.Length0 == |g.rows| && r.value.Length1 == |g.cols|
              && forall i, j :: 0 <= i < |g.rows| && 0 <= j < |g.cols| ==> HasAxes(g) && r.value[i, j] == HsaScore(g, i, j)
  {
    var m, n := |g.rows|, |g.cols|;
    if m > 0 && n > 0 && (Zero !in g.cols || Zero !in g.rows) {
      return Failure(KeyError("0"));
    }
    var single := new Cell[m, n]((i, j) => Missing);
    if m > 0 && n > 0 {
      var z1, z2 := IndexOf(g.rows, Zero), IndexOf(g.cols, Zero);
      var i := 0;
      while i < m
        invariant 0 <= i <= m
        invariant forall a, b :: 0 <= a < i && 0 <= b < n ==> single[a, b] == SingleMax(g, a, b)
      {
        var j := 0;
        while j < n
          invariant 0 <= j <= n
          invariant forall a, b :: 0 <= a < i && 0 <= b < n ==> single[a, b] == SingleMax(g, a, b)
          invariant forall b :: 0 <= b < j ==> single[i, b] == SingleMax(g, i, b)
        {
          single[i, j] := PyMax(g.values[i][z2], g.values[z1][j]);
          j := j + 1;
        }
        i := i + 1;
      }
    }
    var scores := new Cell[m, n]((a, b) reads single requires 0 <= a < m && 0 <= b < n =>
                                   Minus(g.values[a][b], single[a, b]));
    return Success(scores);
  }

  /** At the origin the HSA score is 0 when the value there is a number. */
  lemma {:induction false} HsaZeroAtOrigin(g: Grid)
    requires HasAxes(g)
    requires g.values[IndexOf(g.rows, Zero)][IndexOf(g.cols, Zero)].Number?
    ensures HsaScore(g, IndexOf(g.rows, Zero), IndexOf(g.cols, Zero)) == Number(0.0)
  {
  }

  /** On the single-agent row and column no HSA score is positive. */
  lemma {:induction false} HsaNonPositiveOnAxes(g: Grid, i: nat, j: nat)
    requires HasAxes(g) && i < |g.rows| && j < |g.cols|
    requires g.rows[i] == Zero || g.cols[j] == Zero
    requires HsaScore(g, i, j).Number?
    ensures HsaScore(g, i, j).x <= 0.0
  {
    var z1, z2 := IndexOf(g.rows, Zero), IndexOf(g.cols, Zero);
    if g.rows[i] == Zero {
      DistinctIndex(g.rows, i, z1);
    } else {
      DistinctIndex(g.cols, j, z2);
    }
  }

  /** In a distinct sequence, equal elements sit at the same position. */
  lemma {:induction false} DistinctIndex(s: seq<Cell>, i: nat, k: nat)
    requires Distinct(s) && i < |s| && k < |s| && s[i] == s[k]
    ensures i == k
  {
    if i < k {
      DistinctAt(s, i, k);
    } else if k < i {
      DistinctAt(s, k, i);
    }
  }

  /** On a dose matrix of fractions every HSA score that is a number lies within [-1, 1]. */
  lemma {:induction false} HsaScoreWithinUnit(g: Grid, i: nat, j: nat)
    requires HasAxes(g) && i < |g.rows| && j < |g.cols|
    requires WithinUnit(g)
    requires HsaScore(g, i, j).Number?
    ensures -1.0 <= HsaScore(g, i, j).x <= 1.0
  {
    assert UnitOrMissing(g.values[i][IndexOf(g.cols, Zero)]);
    assert UnitOrMissing(g.values[IndexOf(g.rows, Zero)][j]);
  }

  /** What the three heatmaps show, their title, and where the figure goes. */
  datatype SynergyFigure = SynergyFigure(title: string, observed: Grid, hsa: array2<Cell>, bliss: array2<Cell>, saved: Option<string>)

  const SeveralCellLines: string := "More than one cell line in the data"
  const NoCellLine: string := "index 0 is out of bounds for axis 0 with size 0"
  const PathNeeded: string := "Path must be provided if save is True"

  /** The default title, with the cell line printed by `display` (Python's `str`). */
  function SynergyTitle(agent1: string, agent2: string, cellLine: string): string {
    agent1 + " and " + agent2 + " Synergy Analysis in " + cellLine
  }

  /** The figure's two score heatmaps hold the Bliss and HSA scores of the dose matrix `g`. */
  predicate ShowsScores(hsa: array2<Cell>, bliss: array2<Cell>, g: Grid)
    reads hsa, bliss
  {
    && HasAxes(g)
    && bliss.Length0 == |g.rows| && bliss.Length1 == |g.cols|
    && hsa.Length0 == |g.rows| && hsa.Length1 == |g.cols|
    && (forall i, j :: 0 <= i < |g.rows| && 0 <= j < |g.cols| ==> bliss[i, j] == BlissScore(g, i, j))
    && (forall i, j :: 0 <= i < |g.rows| && 0 <= j < |g.cols| ==> hsa[i, j] == HsaScore(g, i, j))
  }

  /** `bliss_analysis` then `hsa_analysis` on one dose matrix: the Bliss step fails first
      when a single-agent axis is missing. */
  method ScoreSynergies(g: Grid) returns (r: Result<(array2<Cell>, array2<Cell>)>)
    requires Shaped(g)
    ensures r.Success? <==> HasAxes(g)
    ensures r.Failure? ==> r == Failure(KeyError("0"))
    ensures !HasAxes(g) <==> r == Failure(KeyError("0"))
    ensures r.Success? ==> fresh(r.value.0) && fresh(r.value.1) && ShowsScores(r.value.1, r.value.0, g)
  {
    var bliss := BlissAnalysis(g);
    if bliss.Failure? {
      return Failure(bliss.error);
    }
    var hsa := HsaAnalysis(g);
    match hsa {
      case Success(h) => return Success((bliss.value, h));
    }
  }

  /** The single cell line of the table, or the error `plot_synergies` raises before it has one. */
  function CellLine(t: Table): (r: Result<Cell>)
    ensures !HasColumns(t, ["cell_line"]) ==> r == Failure(AttributeError("cell_line"))
    ensures HasColumns(t, ["cell_line"]) && |Unique(t, "cell_line")| > 1 ==> r == Failure(ValueError(SeveralCellLines))
    ensures t == [] ==> r == Failure(IndexError(NoCellLine))
    ensures r.Success? <==> HasColumns(t, ["cell_line"]) && |Unique(t, "cell_line")| == 1
    ensures r.Success? ==> forall i :: 0 <= i < |t| ==> At(t[i], "cell_line") == r.value
  {
    if !HasColumns(t, ["cell_line"]) then Failure(AttributeError("cell_line"))
    else
      var lines := Unique(t, "cell_line");
      if |lines| > 1 then Failure(ValueError(SeveralCellLines))
      else if lines == [] then
        assert t != [] ==> At(t[0], "cell_line") in lines;
        Failure(IndexError(NoCellLine))
      else
        assert forall i :: 0 <= i < |t| ==> At(t[i], "cell_line") in lines;
        Success(lines[0])
  }

  /** `plot_synergies`, without the drawing: one cell line only; the Bliss and HSA scores of
      the dose matrix; a file only with a path, and an error when saving is asked without one. */
  method PlotSynergies(t: Table, agent1: string, agent2: string, title: Option<string>, save: bool, path: Option<string>,
                       display: Cell -> string) returns (r: Result<SynergyFigure>)
    ensures CellLine(t).Failure? ==> r == Failure(CellLine(t).error)
    ensures CellLine(t).Success? && NormalizeCellCounts(t, agent1, agent2).Failure? ==> r == Failure(NormalizeCellCounts(t, agent1, agent2).error)
    ensures CellLine(t).Success? && NormalizeCellCounts(t, agent1, agent2).Success? && !HasAxes(NormalizeCellCounts(t, agent1, agent2).value.pivot) ==>
              r == Failure(KeyError("0"))
    ensures r.Success? ==>
              && CellLine(t).Success? && NormalizeCellCounts(t, agent1, agent2).Success?
              && r.value.observed == NormalizeCellCounts(t, agent1, agent2).value.pivot
              && ShowsScores(r.value.hsa, r.value.bliss, r.value.observed)
              && r.value.title == (if title.Some? then title.value else SynergyTitle(agent1, agent2, display(CellLine(t).value)))
              && r.value.saved == (if save then Some(r.value.title) else None)
    ensures save && path.None? ==> r.Failure?
    ensures r.Success? <==>
              && CellLine(t).Success? && NormalizeCellCounts(t, agent1, agent2).Success?
              && HasAxes(NormalizeCellCounts(t, agent1, agent2).value.pivot)
              && !(save && path.None?)
    ensures CellLine(t).Success? && NormalizeCellCounts(t, agent1, agent2).Success?
            && HasAxes(NormalizeCellCounts(t, agent1, agent2).value.pivot) && save && path.None? ==>
              r == Failure(ValueError(PathNeeded))
  {
    var cellLine := CellLine(t);
    if cellLine.Failure? {
      return Failure(cellLine.error);
    }
    var normalized := NormalizeCellCounts(t, agent1, agent2);
    if normalized.Failure? {
      return Failure(normalized.error);
    }
    var g := normalized.value.pivot;
    var scores := ScoreSynergies(g);
    if scores.Failure? {
      return Failure(scores.error);
    }
    var name := if title.Some? then title.value else SynergyTitle(agent1, agent2, display(cellLine.value));
    if save && path.Some? {
      return Success(SynergyFigure(name, g, scores.value.1, scores.value.0, Some(name)));
    } else if save {
      return Failure(ValueError(PathNeeded));
    }
    return Success(SynergyFigure(name, g, scores.value.1, scores.value.0, None));
  }
}

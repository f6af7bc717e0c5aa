/** Tables as the analysis code handles them: an ordered sequence of rows, each row
    a map from column name to cell, with the grouping, counting and summing that the
    plotting functions build on (pandas `groupby`, `count`, `size`, `sum`, `unique`). */
module Frame {

  /** A table cell: a text label, a number, or a missing value (pandas NaN / None). */
  datatype Cell = Text(s: string) | Number(x: real) | Missing

  type Row = map<string, Cell>
  type Table = seq<Row>

  /** The values of a row at a list of grouping columns. */
  type Key = seq<Cell>

  /** The Python exceptions the modelled functions can raise. */
  datatype Error =
    | KeyError(name: string)
    | AttributeError(name: string)
    | TypeError(message: string)
    | ValueError(message: string)
    | AssertionError(message: string)
    | IndexError(message: string)

  datatype Option<+T> = None | Some(value: T)

  datatype Result<+T> = Success(value: T) | Failure(error: Error)

  /** No element of `s` occurs twice: the last one is new and the rest are distinct. */
  predicate Distinct<T(==)>(s: seq<T>) {
    s == [] || (s[|s| - 1] !in s[..|s| - 1] && Distinct(s[..|s| - 1]))
  }

  /** Two positions of a distinct sequence hold different elements. */
  lemma {:induction false} DistinctAt<T>(s: seq<T>, i: nat, j: nat)
    requires Distinct(s) && i < j < |s|
    ensures s[i] != s[j]
  {
    var init := s[..|s| - 1];
    if j == |s| - 1 {
      assert s[i] == init[i];
    } else {
      DistinctAt(init, i, j);
    }
  }

  /** The distinct elements of `s` in order of first appearance (pandas `unique`). */
  function Dedup<T(==, !new)>(s: seq<T>): (r: seq<T>)
    ensures Distinct(r)
    ensures forall x :: x in r <==> x in s
  {
    if s == [] then []
    else
      var prev := Dedup(s[..|s| - 1]);
      assert s == s[..|s| - 1] + [s[|s| - 1]];
      if s[|s| - 1] in prev then prev else prev + [s[|s| - 1]]
  }

  /** The cell of row `r` in column `c`; a column the row lacks reads as missing. */
  function At(r: Row, c: string): Cell {
    if c in r then r[c] else Missing
  }

  /** The numeric value of a cell as pandas `sum` sees it: missing and text add nothing. */
  function Num(c: Cell): real {
    if c.Number? then c.x else 0.0
  }

  /** Every row of `t` carries every column of `cols` (the schema a function reads). */
  predicate HasColumns(t: Table, cols: seq<string>) {
    forall i, c :: 0 <= i < |t| && c in cols ==> c in t[i]
  }

  /** A table whose first row lacks column `c` does not carry `c`. */
  lemma {:induction false} LacksColumn(t: Table, c: string)
    requires t != [] && c !in t[0]
    ensures !HasColumns(t, [c])
  {
    assert c in [c];
  }

  /** A table that carries every column of `b` carries every column of `a` within `b`. */
  lemma {:induction false} HasFewerColumns(t: Table, a: seq<string>, b: seq<string>)
    requires HasColumns(t, b)
    requires forall c :: c in a ==> c in b
    ensures HasColumns(t, a)
  {
  }

  function KeyOf(r: Row, cols: seq<string>): (k: Key)
    ensures |k| == |cols|
  {
    seq(|cols|, j requires 0 <= j < |cols| => At(r, cols[j]))
  }

  lemma {:induction false} KeyOfPrefix(r: Row, a: seq<string>, b: seq<string>)
    ensures KeyOf(r, a + b)[..|a|] == KeyOf(r, a)
  {
  }

  function Column(t: Table, c: string): seq<Cell> {
    seq(|t|, i requires 0 <= i < |t| => At(t[i], c))
  }

  /** `t[c].unique()`: the distinct values of a column in order of first appearance. */
  function Unique(t: Table, c: string): (u: seq<Cell>)
    ensures Distinct(u)
    ensures forall x :: x in u <==> exists i :: 0 <= i < |t| && At(t[i], c) == x
  {
    ColumnMembers(t, c);
    Dedup(Column(t, c))
  }

  /** Every value of a column is among its unique values. */
  lemma {:induction false} InUnique(t: Table, c: string, j: nat)
    requires j < |t|
    ensures At(t[j], c) in Unique(t, c)
  {
  }

  lemma {:induction false} ColumnMembers(t: Table, c: string)
    ensures forall x :: x in Column(t, c) <==> exists i :: 0 <= i < |t| && At(t[i], c) == x
  {
    var col := Column(t, c);
    forall x ensures x in col <==> exists i :: 0 <= i < |t| && At(t[i], c) == x {
      if x in col {
        var i :| 0 <= i < |col| && col[i] == x;
        assert At(t[i], c) == x;
      }
      if exists i :: 0 <= i < |t| && At(t[i], c) == x {
        var i :| 0 <= i < |t| && At(t[i], c) == x;
        assert col[i] == x;
      }
    }
  }

  function KeyColumn(t: Table, cols: seq<string>): seq<Key> {
    seq(|t|, i requires 0 <= i < |t| => KeyOf(t[i], cols))
  }

  lemma {:induction false} KeyColumnMembers(t: Table, cols: seq<string>)
    ensures forall k :: k in KeyColumn(t, cols) <==> exists i :: 0 <= i < |t| && KeyOf(t[i], cols) == k
  {
    var kc := KeyColumn(t, cols);
    forall k ensures k in kc <==> exists i :: 0 <= i < |t| && KeyOf(t[i], cols) == k {
      if k in kc {
        var i :| 0 <= i < |kc| && kc[i] == k;
        assert KeyOf(t[i], cols) == k;
      }
      if exists i :: 0 <= i < |t| && KeyOf(t[i], cols) == k {
        var i :| 0 <= i < |t| && KeyOf(t[i], cols) == k;
        assert kc[i] == k;
      }
    }
  }

  /** Deduplication never lengthens, and keeps the length only of a distinct sequence. */
  lemma {:induction false} DedupLength<T(!new)>(s: seq<T>)
    ensures |Dedup(s)| <= |s|
    ensures |Dedup(s)| == |s| ==> Distinct(s)
  {
    if s != [] {
      var init := s[..|s| - 1];
      DedupLength(init);
    }
  }

  /** A key that no row has selects no rows. */
  lemma {:induction false} NoKeyNoRows(t: Table, cols: seq<string>, k: Key)
    requires k !in KeyColumn(t, cols)
    ensures Where(t, cols, k) == []
  {
    if Where(t, cols, k) != [] {
      var w := Where(t, cols, k);
      assert w[0] in w;
      WhereIn(t, cols, k, w[0]);
      KeyColumnMembers(t, cols);
    }
  }

  /** When no two rows share a key, a row's group is that row alone. */
  lemma {:induction false} UniqueKeyRow(t: Table, cols: seq<string>, j: nat)
    requires Distinct(KeyColumn(t, cols)) && j < |t|
    ensures Where(t, cols, KeyOf(t[j], cols)) == [t[j]]
  {
    var init, r := t[..|t| - 1], t[|t| - 1];
    var kc := KeyColumn(t, cols);
    var k := KeyOf(t[j], cols);
    assert t == init + [r];
    assert kc[..|t| - 1] == KeyColumn(init, cols);
    WhereSnoc(init, r, cols, k);
    if j == |t| - 1 {
      NoKeyNoRows(init, cols, k);
    } else {
      assert init[j] == t[j];
      UniqueKeyRow(init, cols, j);
      DistinctAt(kc, j, |t| - 1);
    }
  }

  /** The groups of `t` by `cols`: each key that occurs, once, in order of first appearance. */
  function Keys(t: Table, cols: seq<string>): (ks: seq<Key>)
    ensures Distinct(ks)
    ensures forall i :: 0 <= i < |t| ==> KeyOf(t[i], cols) in ks
    ensures forall k :: k in ks ==> |k| == |cols|
  {
    KeyColumnMembers(t, cols);
    Dedup(KeyColumn(t, cols))
  }

  /** Every group of `Keys` is the key of some row. */
  lemma {:induction false} KeyOccurs(t: Table, cols: seq<string>, k: Key)
    requires k in Keys(t, cols)
    ensures exists i :: 0 <= i < |t| && KeyOf(t[i], cols) == k
  {
    KeyColumnMembers(t, cols);
  }

  /** The rows of group `k`, in table order. */
  function Where(t: Table, cols: seq<string>, k: Key): (w: Table)
    ensures |w| <= |t|
  {
    if t == [] then []
    else
      var last := t[|t| - 1];
      Where(t[..|t| - 1], cols, k) + (if KeyOf(last, cols) == k then [last] else [])
  }

  /** `Where` selects rows of `t` of group `k` only. */
  lemma {:induction false} WhereIn(t: Table, cols: seq<string>, k: Key, r: Row)
    requires r in Where(t, cols, k)
    ensures r in t && KeyOf(r, cols) == k
  {
    var init := t[..|t| - 1];
    assert t == init + [t[|t| - 1]];
    if r in Where(init, cols, k) {
      WhereIn(init, cols, k, r);
    }
  }

  /** Every row of group `k` is among the rows `Where` selects. */
  lemma {:induction false} WhereHas(t: Table, cols: seq<string>, k: Key, r: Row)
    requires r in t && KeyOf(r, cols) == k
    ensures r in Where(t, cols, k)
  {
    if r != t[|t| - 1] {
      assert r in t[..|t| - 1] by {
        var i :| 0 <= i < |t| && t[i] == r;
        assert t[..|t| - 1][i] == r;
      }
      WhereHas(t[..|t| - 1], cols, k, r);
    }
  }

  lemma {:induction false} WhereSnoc(t: Table, r: Row, cols: seq<string>, k: Key)
    ensures KeyOf(r, cols) == k ==> Where(t + [r], cols, k) == Where(t, cols, k) + [r]
    ensures KeyOf(r, cols) != k ==> Where(t + [r], cols, k) == Where(t, cols, k)
  {
    assert (t + [r])[..|t|] == t;
    assert Where(t, cols, k) + [] == Where(t, cols, k);
  }

  /** The number of rows in group `k` (pandas `size`, and `count` on a column with no missing cell). */
  function CountKey(t: Table, cols: seq<string>, k: Key): nat {
    |Where(t, cols, k)|
  }

  lemma {:induction false} WhereContains(t: Table, cols: seq<string>, i: nat)
    requires i < |t|
    ensures t[i] in Where(t, cols, KeyOf(t[i], cols))
  {
    var init := t[..|t| - 1];
    assert t == init + [t[|t| - 1]];
    WhereSnoc(init, t[|t| - 1], cols, KeyOf(t[i], cols));
    if i < |t| - 1 {
      assert t[i] == init[i];
      WhereContains(init, cols, i);
    }
  }

  /** A group that occurs has at least one row. */
  lemma {:induction false} GroupNonEmpty(t: Table, cols: seq<string>, k: Key)
    requires k in Keys(t, cols)
    ensures CountKey(t, cols, k) > 0
  {
    KeyOccurs(t, cols, k);
    var i :| 0 <= i < |t| && KeyOf(t[i], cols) == k;
    WhereContains(t, cols, i);
  }

  /** The number of occurrences of `x` in `s`. */
  function Hits<T(==)>(s: seq<T>, x: T): nat {
    if s == [] then 0 else Hits(s[..|s| - 1], x) + (if s[|s| - 1] == x then 1 else 0)
  }

  lemma {:induction false} HitsDistinct<T>(s: seq<T>, x: T)
    requires Distinct(s)
    ensures Hits(s, x) == if x in s then 1 else 0
  {
    if s != [] {
      var init := s[..|s| - 1];
      assert s == init + [s[|s| - 1]];
      HitsDistinct(init, x);
      if s[|s| - 1] == x {
        forall j | 0 <= j < |init| ensures init[j] != x {
          assert s[j] != s[|s| - 1];
        }
      }
    }
  }

  /** The row counts of the groups `ks`, added up. */
  function SumCounts(t: Table, cols: seq<string>, ks: seq<Key>): nat {
    if ks == [] then 0 else SumCounts(t, cols, ks[..|ks| - 1]) + CountKey(t, cols, ks[|ks| - 1])
  }

  lemma {:induction false} SumCountsEmpty(cols: seq<string>, ks: seq<Key>)
    ensures SumCounts([], cols, ks) == 0
  {
    if ks != [] {
      SumCountsEmpty(cols, ks[..|ks| - 1]);
    }
  }

  lemma {:induction false} SumCountsSnoc(t: Table, r: Row, cols: seq<string>, ks: seq<Key>)
    ensures SumCounts(t + [r], cols, ks) == SumCounts(t, cols, ks) + Hits(ks, KeyOf(r, cols))
  {
    if ks != [] {
      SumCountsSnoc(t, r, cols, ks[..|ks| - 1]);
      WhereSnoc(t, r, cols, ks[|ks| - 1]);
    }
  }

  /** Grouping partitions the rows: over distinct keys that cover every row, the group
      sizes add up to the number of rows. */
  lemma {:induction false} CountsPartition(t: Table, cols: seq<string>, ks: seq<Key>)
    requires Distinct(ks)
    requires forall i :: 0 <= i < |t| ==> KeyOf(t[i], cols) in ks
    ensures SumCounts(t, cols, ks) == |t|
  {
    if t != [] {
      var init := t[..|t| - 1];
      assert t == init + [t[|t| - 1]];
      assert forall i :: 0 <= i < |init| ==> init[i] == t[i];
      CountsPartition(init, cols, ks);
      SumCountsSnoc(init, t[|t| - 1], cols, ks);
      HitsDistinct(ks, KeyOf(t[|t| - 1], cols));
    } else {
      SumCountsEmpty(cols, ks);
    }
  }

  /** The sum of the numeric cells (pandas `sum`, which skips missing values). */
  function SumCells(cs: seq<Cell>): real {
    if cs == [] then 0.0 else SumCells(cs[..|cs| - 1]) + Num(cs[|cs| - 1])
  }

  function Total(t: Table, c: string): real {
    SumCells(Column(t, c))
  }

  lemma {:induction false} TotalSnoc(t: Table, r: Row, c: string)
    ensures Total(t + [r], c) == Total(t, c) + Num(At(r, c))
  {
    assert Column(t + [r], c)[..|t|] == Column(t, c);
  }

  /** The sum of column `c` over group `k`. */
  function SumWhere(t: Table, cols: seq<string>, k: Key, c: string): real {
    Total(Where(t, cols, k), c)
  }

  function SumGroups(t: Table, cols: seq<string>, ks: seq<Key>, c: string): real {
    if ks == [] then 0.0 else SumGroups(t, cols, ks[..|ks| - 1], c) + SumWhere(t, cols, ks[|ks| - 1], c)
  }

  lemma {:induction false} SumGroupsEmpty(cols: seq<string>, ks: seq<Key>, c: string)
    ensures SumGroups([], cols, ks, c) == 0.0
  {
    if ks != [] {
      SumGroupsEmpty(cols, ks[..|ks| - 1], c);
    }
  }

  lemma {:induction false} SumGroupsSnoc(t: Table, r: Row, cols: seq<string>, ks: seq<Key>, c: string)
    requires Distinct(ks)
    ensures SumGroups(t + [r], cols, ks, c)
         == SumGroups(t, cols, ks, c) + (if KeyOf(r, cols) in ks then Num(At(r, c)) else 0.0)
  {
    if ks != [] {
      var init, k := ks[..|ks| - 1], ks[|ks| - 1];
      assert ks == init + [k];
      assert k !in init;
      SumGroupsSnoc(t, r, cols, init, c);
      WhereSnoc(t, r, cols, k);
      if KeyOf(r, cols) == k {
        TotalSnoc(Where(t, cols, k), r, c);
        assert KeyOf(r, cols) !in init;
      } else {
        assert KeyOf(r, cols) in ks <==> KeyOf(r, cols) in init;
        assert SumWhere(t + [r], cols, k, c) == SumWhere(t, cols, k, c);
      }
    }
  }

  /** Grouping partitions a column's total: over distinct keys that cover every row, the
      per-group sums of column `c` add up to the column's sum. */
  lemma {:induction false} SumsPartition(t: Table, cols: seq<string>, ks: seq<Key>, c: string)
    requires Distinct(ks)
    requires forall i :: 0 <= i < |t| ==> KeyOf(t[i], cols) in ks
    ensures SumGroups(t, cols, ks, c) == Total(t, c)
  {
    if t != [] {
      var init := t[..|t| - 1];
      assert t == init + [t[|t| - 1]];
      assert forall i :: 0 <= i < |init| ==> init[i] == t[i];
      SumsPartition(init, cols, ks, c);
      SumGroupsSnoc(init, t[|t| - 1], cols, ks, c);
      TotalSnoc(init, t[|t| - 1], c);
    } else {
      SumGroupsEmpty(cols, ks, c);
    }
  }

  /** The keys of `ks` that extend the coarser key `g`, in order. */
  function WithPrefix(ks: seq<Key>, g: Key): (r: seq<Key>)
    ensures forall k :: k in r <==> k in ks && |g| <= |k| && k[..|g|] == g
    ensures Distinct(ks) ==> Distinct(r)
  {
    if ks == [] then []
    else
      var init := ks[..|ks| - 1];
      var k := ks[|ks| - 1];
      assert ks == init + [k];
      assert Distinct(ks) ==> k !in init && Distinct(init);
      var r0 := WithPrefix(init, g);
      assert (r0 + [k])[..|r0|] == r0;
      if |g| <= |k| && k[..|g|] == g then r0 + [k] else r0
  }

  /** A finer group inside the coarse group `g` has the same rows whether it is counted
      in the whole table or in `g`'s rows alone. */
  lemma {:induction false} CountWithinGroup(t: Table, gcols: seq<string>, more: seq<string>, g: Key, k: Key)
    requires |k| == |gcols| + |more| && k[..|gcols|] == g
    ensures CountKey(t, gcols + more, k) == CountKey(Where(t, gcols, g), gcols + more, k)
  {
    if t != [] {
      var init, r := t[..|t| - 1], t[|t| - 1];
      assert t == init + [r];
      CountWithinGroup(init, gcols, more, g, k);
      WhereSnoc(init, r, gcols + more, k);
      WhereSnoc(init, r, gcols, g);
      KeyOfPrefix(r, gcols, more);
      if KeyOf(r, gcols) == g {
        WhereSnoc(Where(init, gcols, g), r, gcols + more, k);
      } else {
        assert KeyOf(r, gcols + more) != k;
        assert Where(t, gcols, g) == Where(init, gcols, g);
        assert Where(t, gcols + more, k) == Where(init, gcols + more, k);
      }
    }
  }

  lemma {:induction false} SumCountsWithinGroup(t: Table, gcols: seq<string>, more: seq<string>, g: Key, ks: seq<Key>)
    requires forall k :: k in ks ==> |k| == |gcols| + |more| && k[..|gcols|] == g
    ensures SumCounts(t, gcols + more, ks) == SumCounts(Where(t, gcols, g), gcols + more, ks)
  {
    if ks != [] {
      SumCountsWithinGroup(t, gcols, more, g, ks[..|ks| - 1]);
      CountWithinGroup(t, gcols, more, g, ks[|ks| - 1]);
    }
  }

  /** Splitting a group `g` by further columns: over distinct finer keys that cover every
      row, the sizes of the subgroups of `g` add up to the size of `g`. */
  lemma {:induction false} SubgroupCountsOver(t: Table, gcols: seq<string>, more: seq<string>, g: Key, ks: seq<Key>)
    requires |g| == |gcols| && Distinct(ks)
    requires forall k :: k in ks ==> |k| == |gcols + more|
    requires forall i :: 0 <= i < |t| ==> KeyOf(t[i], gcols + more) in ks
    ensures SumCounts(t, gcols + more, WithPrefix(ks, g)) == CountKey(t, gcols, g)
  {
    var c := gcols + more;
    var sub := WithPrefix(ks, g);
    var tg := Where(t, gcols, g);
    SumCountsWithinGroup(t, gcols, more, g, sub);
    forall i | 0 <= i < |tg| ensures KeyOf(tg[i], c) in sub {
      var r := tg[i];
      assert r in tg;
      WhereIn(t, gcols, g, r);
      var j :| 0 <= j < |t| && t[j] == r;
      KeyOfPrefix(r, gcols, more);
    }
    CountsPartition(tg, c, sub);
  }

  /** Splitting a group `g` by further columns: the sizes of its subgroups add up to the
      size of `g`. */
  lemma {:induction false} SubgroupCounts(t: Table, gcols: seq<string>, more: seq<string>, g: Key)
    requires |g| == |gcols|
    ensures SumCounts(t, gcols + more, WithPrefix(Keys(t, gcols + more), g)) == CountKey(t, gcols, g)
  {
    SubgroupCountsOver(t, gcols, more, g, Keys(t, gcols + more));
  }

  /** A subgroup is no larger than the group that contains it. */
  lemma {:induction false} SubgroupSmaller(t: Table, gcols: seq<string>, more: seq<string>, k: Key)
    requires |k| == |gcols| + |more|
    ensures CountKey(t, gcols + more, k) <= CountKey(t, gcols, k[..|gcols|])
  {
    if t != [] {
      var init, r := t[..|t| - 1], t[|t| - 1];
      assert t == init + [r];
      SubgroupSmaller(init, gcols, more, k);
      WhereSnoc(init, r, gcols + more, k);
      WhereSnoc(init, r, gcols, k[..|gcols|]);
      KeyOfPrefix(r, gcols, more);
    }
  }

  /** The position of the first occurrence of `c` in `cols`. */
  function FirstIndex(cols: seq<string>, c: string): (j: nat)
    requires c in cols
    ensures j < |cols| && cols[j] == c
  {
    if c in cols[..|cols| - 1] then FirstIndex(cols[..|cols| - 1], c) else |cols| - 1
  }

  lemma {:induction false} FirstIndexDistinct(cols: seq<string>, j: nat)
    requires Distinct(cols) && j < |cols|
    ensures FirstIndex(cols, cols[j]) == j
  {
    var i := FirstIndex(cols, cols[j]);
    if i < j {
      DistinctAt(cols, i, j);
    } else if j < i {
      DistinctAt(cols, j, i);
    }
  }

  /** The row whose columns `cols` hold the key `k`, position by position. */
  function RowOf(cols: seq<string>, k: Key): Row
    requires |k| == |cols|
  {
    map c | c in cols :: k[FirstIndex(cols, c)]
  }

  lemma {:induction false} RowOfAt(cols: seq<string>, k: Key, j: nat)
    requires |k| == |cols| && Distinct(cols) && j < |cols|
    ensures cols[j] in RowOf(cols, k) && RowOf(cols, k)[cols[j]] == k[j]
  {
    FirstIndexDistinct(cols, j);
  }

  /** The output row of a grouped aggregation: the key columns hold the key, and the
      value column `name` holds `v`. */
  function GroupRow(cols: seq<string>, k: Key, name: string, v: Cell): Row
    requires |k| == |cols|
  {
    RowOf(cols, k)[name := v]
  }

  lemma {:induction false} GroupRowKey(cols: seq<string>, k: Key, name: string, v: Cell)
    requires |k| == |cols| && Distinct(cols) && name !in cols
    ensures KeyOf(GroupRow(cols, k, name, v), cols) == k
    ensures At(GroupRow(cols, k, name, v), name) == v
    ensures forall c :: c in GroupRow(cols, k, name, v) <==> c in cols || c == name
  {
    forall j | 0 <= j < |cols| ensures KeyOf(GroupRow(cols, k, name, v), cols)[j] == k[j] {
      RowOfAt(cols, k, j);
    }
  }

  /** `t.groupby(cols)[col].agg(agg).reset_index(name=name)` restricted to the groups `ks`:
      one row per key, in the order of `ks`. */
  function GroupAgg(t: Table, cols: seq<string>, ks: seq<Key>, col: string, agg: seq<Cell> -> Cell, name: string): (out: Table)
    requires forall k :: k in ks ==> |k| == |cols|
    ensures |out| == |ks|
  {
    seq(|ks|, i requires 0 <= i < |ks| => GroupRow(cols, ks[i], name, agg(Column(Where(t, cols, ks[i]), col))))
  }

  lemma {:induction false} GroupAggSnoc(t: Table, cols: seq<string>, ks: seq<Key>, k: Key, col: string, agg: seq<Cell> -> Cell, name: string)
    requires forall k' :: k' in ks ==> |k'| == |cols|
    requires |k| == |cols|
    ensures GroupAgg(t, cols, ks + [k], col, agg, name)
         == GroupAgg(t, cols, ks, col, agg, name) + [GroupRow(cols, k, name, agg(Column(Where(t, cols, k), col)))]
  {
  }

  /** The number of cells (the aggregate of `size`). */
  function Size(cs: seq<Cell>): Cell {
    Number(|cs| as real)
  }

  /** The number of cells that are not missing. */
  function Present(cs: seq<Cell>): (n: nat)
    ensures n <= |cs|
  {
    if cs == [] then 0 else Present(cs[..|cs| - 1]) + (if cs[|cs| - 1] == Missing then 0 else 1)
  }

  /** In a column without missing cells, every group counts all of its rows. */
  lemma {:induction false} PresentInGroup(t: Table, cols: seq<string>, k: Key, c: string)
    requires forall i :: 0 <= i < |t| ==> At(t[i], c) != Missing
    ensures Present(Column(Where(t, cols, k), c)) == CountKey(t, cols, k)
  {
    var rows := Where(t, cols, k);
    forall j | 0 <= j < |rows| ensures Column(rows, c)[j] != Missing {
      assert rows[j] in rows;
      WhereIn(t, cols, k, rows[j]);
    }
    PresentAll(Column(rows, c));
  }

  lemma {:induction false} PresentAll(cs: seq<Cell>)
    requires forall i :: 0 <= i < |cs| ==> cs[i] != Missing
    ensures Present(cs) == |cs|
  {
    if cs != [] {
      PresentAll(cs[..|cs| - 1]);
    }
  }

  /** The number of cells that are not missing (the aggregate of `count`). */
  function Count(cs: seq<Cell>): Cell {
    Number(Present(cs) as real)
  }

  /** On a column without missing cells, `count` is `size`. */
  lemma {:induction false} CountIsSize(t: Table, cols: seq<string>, ks: seq<Key>, col: string, name: string)
    requires forall k :: k in ks ==> |k| == |cols|
    requires forall i :: 0 <= i < |t| ==> At(t[i], col) != Missing
    ensures GroupAgg(t, cols, ks, col, Count, name) == GroupAgg(t, cols, ks, col, Size, name)
  {
    forall i | 0 <= i < |ks|
      ensures Count(Column(Where(t, cols, ks[i]), col)) == Size(Column(Where(t, cols, ks[i]), col))
    {
      var w := Where(t, cols, ks[i]);
      forall j | 0 <= j < |w| ensures Column(w, col)[j] != Missing {
        assert w[j] in w;
        WhereIn(t, cols, ks[i], w[j]);
      }
      PresentAll(Column(w, col));
    }
  }

  /** Selecting one group of a grouped aggregation over distinct keys gives that key's
      row, or nothing when the key is not one of them. */
  lemma {:induction false} GroupAggWhere(t: Table, cols: seq<string>, ks: seq<Key>, col: string, agg: seq<Cell> -> Cell, name: string, k: Key)
    requires Distinct(cols) && name !in cols && Distinct(ks)
    requires forall k' :: k' in ks ==> |k'| == |cols|
    requires |k| == |cols|
    ensures k in ks ==> Where(GroupAgg(t, cols, ks, col, agg, name), cols, k) == [GroupRow(cols, k, name, agg(Column(Where(t, cols, k), col)))]
    ensures k !in ks ==> Where(GroupAgg(t, cols, ks, col, agg, name), cols, k) == []
  {
    if ks == [] {
      assert GroupAgg(t, cols, ks, col, agg, name) == [];
    } else {
      var init, last := ks[..|ks| - 1], ks[|ks| - 1];
      assert ks == init + [last];
      GroupAggWhere(t, cols, init, col, agg, name, k);
      var v := agg(Column(Where(t, cols, last), col));
      var row := GroupRow(cols, last, name, v);
      GroupAggSnoc(t, cols, init, last, col, agg, name);
      GroupRowKey(cols, last, name, v);
      WhereSnoc(GroupAgg(t, cols, init, col, agg, name), row, cols, k);
    }
  }

  /** Row `i` of a grouped aggregation holds the key `ks[i]` and the aggregate of the rows
      with that key. */
  lemma {:induction false} GroupAggRows(t: Table, cols: seq<string>, ks: seq<Key>, col: string, agg: seq<Cell> -> Cell, name: string)
    requires Distinct(cols) && name !in cols
    requires forall k :: k in ks ==> |k| == |cols|
    ensures forall i :: 0 <= i < |ks| ==>
              && KeyOf(GroupAgg(t, cols, ks, col, agg, name)[i], cols) == ks[i]
              && At(GroupAgg(t, cols, ks, col, agg, name)[i], name) == agg(Column(Where(t, cols, ks[i]), col))
  {
    forall i | 0 <= i < |ks|
      ensures KeyOf(GroupAgg(t, cols, ks, col, agg, name)[i], cols) == ks[i]
      ensures At(GroupAgg(t, cols, ks, col, agg, name)[i], name) == agg(Column(Where(t, cols, ks[i]), col))
    {
      GroupRowKey(cols, ks[i], name, agg(Column(Where(t, cols, ks[i]), col)));
    }
  }

  /** The arithmetic mean of the cells that are not missing (pandas `mean`), missing when
      there are none. */
  function Mean(cs: seq<Cell>): Cell {
    if Present(cs) == 0 then Missing else Number(SumCells(cs) / Present(cs) as real)
  }

  /** In the table of group sizes, the sizes of the subgroups of `g` add up to the number
      of rows of `g`. */
  lemma {:induction false} GroupSizesSum(t: Table, gcols: seq<string>, more: seq<string>, ks: seq<Key>, col: string, name: string, g: Key)
    requires Distinct(gcols + more) && name !in gcols + more
    requires forall k :: k in ks ==> |k| == |gcols + more|
    requires |g| == |gcols|
    ensures SumWhere(GroupAgg(t, gcols + more, ks, col, Size, name), gcols, g, name)
         == SumCounts(t, gcols + more, WithPrefix(ks, g)) as real
  {
    var c := gcols + more;
    if ks == [] {
      assert GroupAgg(t, c, ks, col, Size, name) == [];
    } else {
      var init, k := ks[..|ks| - 1], ks[|ks| - 1];
      assert ks == init + [k];
      GroupSizesSum(t, gcols, more, init, col, name, g);
      var v := Size(Column(Where(t, c, k), col));
      var row := GroupRow(c, k, name, v);
      var prev := GroupAgg(t, c, init, col, Size, name);
      GroupAggSnoc(t, c, init, k, col, Size, name);
      assert GroupAgg(t, c, ks, col, Size, name) == prev + [row];
      GroupRowKey(c, k, name, v);
      assert Num(At(row, name)) == CountKey(t, c, k) as real;
      KeyOfPrefix(row, gcols, more);
      assert KeyOf(row, gcols) == k[..|gcols|];
      SumWhereSnoc(prev, row, gcols, g, name);
      var x := SumWhere(prev, gcols, g, name);
      var before := SumCounts(t, c, WithPrefix(init, g));
      assert x == before as real;
      if k[..|gcols|] == g {
        assert WithPrefix(ks, g) == WithPrefix(init, g) + [k];
        assert SumCounts(t, c, WithPrefix(ks, g)) == before + CountKey(t, c, k);
        assert SumWhere(GroupAgg(t, c, ks, col, Size, name), gcols, g, name) == x + CountKey(t, c, k) as real;
      } else {
        assert WithPrefix(ks, g) == WithPrefix(init, g);
        assert SumWhere(GroupAgg(t, c, ks, col, Size, name), gcols, g, name) == x;
      }
    }
  }

  /** The number of distinct plates, a missing plate id included (`len(t.plate_id.unique())`). */
  function PlateCount(t: Table): nat {
    |Unique(t, "plate_id")|
  }

  /** There are no more plates than rows, and a table with rows has a plate. */
  lemma {:induction false} PlateCountBounds(t: Table)
    ensures PlateCount(t) <= |t|
    ensures t != [] ==> PlateCount(t) > 0
  {
    DedupLength(Column(t, "plate_id"));
    if t != [] {
      InUnique(t, "plate_id", 0);
    }
  }

  /** `t.dropna(subset=[c])`: the rows whose cell in column `c` is not missing, in order. */
  function Dropna(t: Table, c: string): (w: Table)
    ensures |w| <= |t|
    ensures forall r :: r in w <==> r in t && At(r, c) != Missing
  {
    if t == [] then []
    else
      var last := t[|t| - 1];
      Dropna(t[..|t| - 1], c) + (if At(last, c) != Missing then [last] else [])
  }

  lemma {:induction false} DropnaSnoc(t: Table, r: Row, c: string)
    ensures At(r, c) != Missing ==> Dropna(t + [r], c) == Dropna(t, c) + [r]
    ensures At(r, c) == Missing ==> Dropna(t + [r], c) == Dropna(t, c)
  {
    assert (t + [r])[..|t|] == t;
    assert Dropna(t, c) + [] == Dropna(t, c);
  }

  lemma {:induction false} PresentSnoc(t: Table, r: Row, c: string)
    ensures Present(Column(t + [r], c)) == Present(Column(t, c)) + (if At(r, c) == Missing then 0 else 1)
  {
    var col := Column(t + [r], c);
    assert col[..|col| - 1] == Column(t, c);
  }

  /** The `count` of column `c` in group `k` is the size of group `k` once the rows missing
      `c` are dropped. */
  lemma {:induction false} PresentIsCountKey(t: Table, cols: seq<string>, k: Key, c: string)
    ensures Present(Column(Where(t, cols, k), c)) == CountKey(Dropna(t, c), cols, k)
  {
    if t == [] {
      assert Column([], c) == [];
    } else {
      var init, r := t[..|t| - 1], t[|t| - 1];
      assert t == init + [r];
      PresentIsCountKey(init, cols, k, c);
      WhereSnoc(init, r, cols, k);
      if KeyOf(r, cols) == k {
        PresentSnoc(Where(init, cols, k), r, c);
      }
      DropnaSnoc(init, r, c);
      WhereSnoc(Dropna(init, c), r, cols, k);
    }
  }

  /** `dropna` on a column without missing cells keeps every row. */
  lemma {:induction false} DropnaAll(t: Table, c: string)
    requires forall i :: 0 <= i < |t| ==> At(t[i], c) != Missing
    ensures Dropna(t, c) == t
  {
    if t != [] {
      var init, r := t[..|t| - 1], t[|t| - 1];
      assert t == init + [r];
      DropnaAll(init, c);
      DropnaSnoc(init, r, c);
    }
  }

  /** `count` per group is `size` per group once the rows missing the counted column are
      dropped. */
  lemma {:induction false} CountIsSizeOfDropna(t: Table, cols: seq<string>, ks: seq<Key>, col: string, name: string)
    requires forall k :: k in ks ==> |k| == |cols|
    ensures GroupAgg(t, cols, ks, col, Count, name) == GroupAgg(Dropna(t, col), cols, ks, col, Size, name)
  {
    forall i | 0 <= i < |ks|
      ensures Count(Column(Where(t, cols, ks[i]), col)) == Size(Column(Where(Dropna(t, col), cols, ks[i]), col))
    {
      PresentIsCountKey(t, cols, ks[i], col);
    }
  }

  /** In the table of per-group counts of `col`, the counts of the subgroups of `g` add up to
      the number of rows of `g` whose `col` is present. */
  lemma {:induction false} GroupCountsSum(t: Table, gcols: seq<string>, more: seq<string>, col: string, name: string, g: Key)
    requires Distinct(gcols + more) && name !in gcols + more
    requires |g| == |gcols|
    ensures SumWhere(GroupAgg(t, gcols + more, Keys(t, gcols + more), col, Count, name), gcols, g, name)
         == CountKey(Dropna(t, col), gcols, g) as real
  {
    var c, d := gcols + more, Dropna(t, col);
    var ks := Keys(t, c);
    CountIsSizeOfDropna(t, c, ks, col, name);
    GroupSizesSum(d, gcols, more, ks, col, name, g);
    forall i | 0 <= i < |d| ensures KeyOf(d[i], c) in ks {
      assert d[i] in d;
      var j :| 0 <= j < |t| && t[j] == d[i];
    }
    SubgroupCountsOver(d, gcols, more, g, ks);
  }

  /** Dropping the rows missing `c` leaves each group's sum of `c` as it was. */
  lemma {:induction false} SumWhereDropna(t: Table, cols: seq<string>, k: Key, c: string)
    ensures SumWhere(Dropna(t, c), cols, k, c) == SumWhere(t, cols, k, c)
  {
    if t == [] {
    } else {
      var init, r := t[..|t| - 1], t[|t| - 1];
      assert t == init + [r];
      SumWhereDropna(init, cols, k, c);
      SumWhereSnoc(init, r, cols, k, c);
      DropnaSnoc(init, r, c);
      SumWhereSnoc(Dropna(init, c), r, cols, k, c);
    }
  }

  /** Dropping the rows missing `c` leaves the sum of `c` as it was. */
  lemma {:induction false} TotalDropna(t: Table, c: string)
    ensures Total(Dropna(t, c), c) == Total(t, c)
  {
    if t == [] {
    } else {
      var init, r := t[..|t| - 1], t[|t| - 1];
      assert t == init + [r];
      TotalDropna(init, c);
      TotalSnoc(init, r, c);
      DropnaSnoc(init, r, c);
      TotalSnoc(Dropna(init, c), r, c);
    }
  }

  /** A group with rows is one of the groups of the table. */
  lemma {:induction false} CountedKeyOccurs(t: Table, cols: seq<string>, k: Key)
    requires CountKey(t, cols, k) > 0
    ensures k in Keys(t, cols)
  {
    var w := Where(t, cols, k);
    assert w[0] in w;
    WhereIn(t, cols, k, w[0]);
    var j :| 0 <= j < |t| && t[j] == w[0];
  }

  /** `t[c].nunique()`: the number of distinct values of column `c`, missing values not
      counted. */
  function NUnique(t: Table, c: string): nat {
    |Unique(Dropna(t, c), c)|
  }

  /** A distinct sequence has as many elements as the set of its elements. */
  lemma {:induction false} DistinctCard<T>(s: seq<T>)
    requires Distinct(s)
    ensures |set x | x in s| == |s|
  {
    if s != [] {
      var init := s[..|s| - 1];
      assert s == init + [s[|s| - 1]];
      DistinctCard(init);
      assert (set x | x in s) == (set x | x in init) + {s[|s| - 1]};
    }
  }

  /** A value left after dropping the missing ones is a value of the table, not missing. */
  lemma {:induction false} DropnaValueKept(t: Table, c: string, x: Cell)
    requires x in Unique(Dropna(t, c), c)
    ensures x in Unique(t, c) && x != Missing
  {
    var d := Dropna(t, c);
    var i :| 0 <= i < |d| && At(d[i], c) == x;
    assert d[i] in d;
    var j :| 0 <= j < |t| && t[j] == d[i];
    assert At(t[j], c) == x;
  }

  /** Every value of the table other than missing is left after dropping the missing ones. */
  lemma {:induction false} DropnaValueFound(t: Table, c: string, x: Cell)
    requires x in Unique(t, c) && x != Missing
    ensures x in Unique(Dropna(t, c), c)
  {
    var d := Dropna(t, c);
    var i :| 0 <= i < |t| && At(t[i], c) == x;
    assert t[i] in t;
    var j :| 0 <= j < |d| && d[j] == t[i];
    assert At(d[j], c) == x;
  }

  /** A distinct sequence holding exactly the elements of another one except `m` is one
      element shorter when `m` occurs in the other, and as long otherwise. */
  lemma {:induction false} DistinctWithout<T>(all: seq<T>, kept: seq<T>, m: T)
    requires Distinct(all) && Distinct(kept)
    requires forall x :: x in kept <==> x in all && x != m
    ensures |kept| + (if m in all then 1 else 0) == |all|
  {
    DistinctCard(all);
    DistinctCard(kept);
    var sa, sk := set x | x in all, set x | x in kept;
    assert forall x :: x in sk <==> x in sa && x != m;
    assert sk == sa - {m};
    if m in all {
      assert sa == sk + {m};
    } else {
      assert sa == sk;
    }
  }

  /** `nunique` counts the unique values of a column except a missing one. */
  lemma {:induction false} NUniqueSkipsMissing(t: Table, c: string)
    ensures NUnique(t, c) + (if Missing in Unique(t, c) then 1 else 0) == |Unique(t, c)|
  {
    var all, kept := Unique(t, c), Unique(Dropna(t, c), c);
    forall x | x in kept ensures x in all && x != Missing {
      DropnaValueKept(t, c, x);
    }
    forall x | x in all && x != Missing ensures x in kept {
      DropnaValueFound(t, c, x);
    }
    DistinctWithout(all, kept, Missing);
  }

  /** Condition names as the cells that hold them. */
  function Texts(ss: seq<string>): (cs: seq<Cell>)
    ensures |cs| == |ss|
  {
    seq(|ss|, i requires 0 <= i < |ss| => Text(ss[i]))
  }

  /** `t[t[c].isin(vals)]`: the rows whose cell in column `c` is one of `vals`, in order. */
  function IsIn(t: Table, c: string, vals: seq<Cell>): (w: Table)
    ensures |w| <= |t|
    ensures forall r :: r in w <==> r in t && At(r, c) in vals
  {
    if t == [] then []
    else
      var last := t[|t| - 1];
      IsIn(t[..|t| - 1], c, vals) + (if At(last, c) in vals then [last] else [])
  }

  /** Selecting one value `v` of column `c` after keeping only the values `vals` gives the
      same rows as selecting `v` directly, when `v` is one of `vals`. */
  lemma {:induction false} WhereAfterIsIn(t: Table, c: string, vals: seq<Cell>, v: Cell)
    requires v in vals
    ensures Where(IsIn(t, c, vals), [c], [v]) == Where(t, [c], [v])
  {
    if t != [] {
      var init, r := t[..|t| - 1], t[|t| - 1];
      assert t == init + [r];
      WhereAfterIsIn(init, c, vals, v);
      WhereSnoc(init, r, [c], [v]);
      assert KeyOf(r, [c]) == [At(r, c)];
      if At(r, c) in vals {
        WhereSnoc(IsIn(init, c, vals), r, [c], [v]);
      } else {
        assert IsIn(t, c, vals) == IsIn(init, c, vals) + [];
        assert IsIn(t, c, vals) == IsIn(init, c, vals);
        assert KeyOf(r, [c]) != [v];
      }
    }
  }

  /** A table whose first row comes from a table without column `c` does not have `c`. */
  lemma {:induction false} FirstRowLacks(rows: Table, t: Table, c: string)
    requires rows != [] && rows[0] in t
    requires forall j :: 0 <= j < |t| ==> c !in t[j]
    ensures !HasColumns(rows, [c])
  {
    var j :| 0 <= j < |t| && t[j] == rows[0];
    assert c in [c];
  }

  /** Setting a column outside `cols` leaves a row's key unchanged. */
  lemma {:induction false} KeyOfUpdate(r: Row, cols: seq<string>, name: string, v: Cell)
    requires name !in cols
    ensures KeyOf(r[name := v], cols) == KeyOf(r, cols)
  {
    forall j | 0 <= j < |cols| ensures KeyOf(r[name := v], cols)[j] == KeyOf(r, cols)[j] {
      assert cols[j] != name;
    }
  }

  /** The first column of `cols` that some row lacks: the column a pandas lookup of
      `cols` raises `KeyError` for. */
  function FirstMissing(t: Table, cols: seq<string>): (m: Option<string>)
    ensures m.None? <==> HasColumns(t, cols)
    ensures m.Some? ==> m.value in cols && exists i :: 0 <= i < |t| && m.value !in t[i]
  {
    if cols == [] then None
    else if forall i :: 0 <= i < |t| ==> cols[0] in t[i] then
      var m := FirstMissing(t, cols[1..]);
      assert forall c :: c in cols <==> c == cols[0] || c in cols[1..];
      assert HasColumns(t, cols) <==> HasColumns(t, cols[1..]);
      m
    else
      var i :| 0 <= i < |t| && cols[0] !in t[i];
      assert !HasColumns(t, cols) by {
        assert cols[0] in cols;
      }
      Some(cols[0])
  }

  lemma {:induction false} SumWhereSnoc(t: Table, r: Row, cols: seq<string>, k: Key, c: string)
    ensures SumWhere(t + [r], cols, k, c) == SumWhere(t, cols, k, c) + (if KeyOf(r, cols) == k then Num(At(r, c)) else 0.0)
  {
    WhereSnoc(t, r, cols, k);
    if KeyOf(r, cols) == k {
      TotalSnoc(Where(t, cols, k), r, c);
    }
  }

  /** A group's sum of a column without negative values is not negative. */
  lemma {:induction false} SumWhereNonNegative(t: Table, cols: seq<string>, g: Key, c: string)
    requires forall i :: 0 <= i < |t| ==> Num(At(t[i], c)) >= 0.0
    ensures SumWhere(t, cols, g, c) >= 0.0
  {
    if t == [] {
      assert Where(t, cols, g) == [] && Column([], c) == [];
    } else {
      var init, r := t[..|t| - 1], t[|t| - 1];
      assert t == init + [r];
      SumWhereNonNegative(init, cols, g, c);
      SumWhereSnoc(init, r, cols, g, c);
    }
  }

  /** A group's sum of a column without negative values is at least any one of its values. */
  lemma {:induction false} SumWhereAtLeast(t: Table, cols: seq<string>, g: Key, c: string, j: nat)
    requires forall i :: 0 <= i < |t| ==> Num(At(t[i], c)) >= 0.0
    requires j < |t| && KeyOf(t[j], cols) == g
    ensures SumWhere(t, cols, g, c) >= Num(At(t[j], c))
  {
    var init, r := t[..|t| - 1], t[|t| - 1];
    assert t == init + [r];
    SumWhereSnoc(init, r, cols, g, c);
    if j == |t| - 1 {
      SumWhereNonNegative(init, cols, g, c);
    } else {
      assert init[j] == t[j];
      SumWhereAtLeast(init, cols, g, c, j);
    }
  }

  /** A column with a cell that is not missing has a present cell. */
  lemma {:induction false} PresentPositive(cs: seq<Cell>, j: nat)
    requires j < |cs| && cs[j] != Missing
    ensures Present(cs) >= 1
  {
    if j < |cs| - 1 {
      PresentPositive(cs[..|cs| - 1], j);
    }
  }

  /** The cells of `cs` are missing or percentages: their sum is within 0 and 100 per
      present cell. */
  lemma {:induction false} SumCellsBounded(cs: seq<Cell>)
    requires forall i :: 0 <= i < |cs| ==> cs[i] == Missing || (cs[i].Number? && 0.0 <= cs[i].x <= 100.0)
    ensures 0.0 <= SumCells(cs) <= 100.0 * Present(cs) as real
  {
    if cs != [] {
      SumCellsBounded(cs[..|cs| - 1]);
    }
  }

  lemma {:induction false} QuotientBounded(s: real, n: nat)
    requires n > 0 && 0.0 <= s <= 100.0 * n as real
    ensures 0.0 <= s / n as real <= 100.0
  {
  }

  /** The mean of percentages is a percentage, or missing when there are none. */
  lemma {:induction false} MeanBounded(cs: seq<Cell>)
    requires forall i :: 0 <= i < |cs| ==> cs[i] == Missing || (cs[i].Number? && 0.0 <= cs[i].x <= 100.0)
    ensures Mean(cs) == Missing || (Mean(cs).Number? && 0.0 <= Mean(cs).x <= 100.0)
  {
    SumCellsBounded(cs);
    if Present(cs) > 0 {
      QuotientBounded(SumCells(cs), Present(cs));
    }
  }

  /** Adding one share of `whole` to the shares so far, as percentages. */
  lemma {:induction false} PercentStep(prev: real, p: real, before: real, part: real, sum: real, whole: real)
    requires whole > 0.0 && sum == before + part
    requires prev == before / whole * 100.0 && p == part / whole * 100.0
    ensures prev + p == sum / whole * 100.0
  {
  }

  /** Groups that each sum to 100 sum to 100 per group together. */
  lemma {:induction false} SumGroupsHundreds(t: Table, cols: seq<string>, ks: seq<Key>, c: string)
    requires forall k :: k in ks ==> SumWhere(t, cols, k, c) == 100.0
    ensures SumGroups(t, cols, ks, c) == 100.0 * |ks| as real
  {
    if ks != [] {
      var n := |ks| - 1;
      SumGroupsHundreds(t, cols, ks[..n], c);
      assert ks[n] in ks;
    }
  }

  /** A column of percentages: when the groups `ks` cover the table and the column
      sums to 100 within each of them, the whole column sums to 100 per group. */
  lemma {:induction false} PercentagesTotal(t: Table, cols: seq<string>, ks: seq<Key>, c: string)
    requires Distinct(ks)
    requires forall i :: 0 <= i < |t| ==> KeyOf(t[i], cols) in ks
    requires forall k :: k in ks ==> SumWhere(t, cols, k, c) == 100.0
    ensures Total(t, c) == 100.0 * |ks| as real
  {
    SumsPartition(t, cols, ks, c);
    SumGroupsHundreds(t, cols, ks, c);
  }
}

/** Feature construction for the forecasting model: the ordered list of
    feature columns, and lag features computed per group over rows sorted by
    group and time. */
module Features {
  import opened Wrappers
  import opened Strings

  // ---------------------------------------------------------------------------
  // Column names
  // ---------------------------------------------------------------------------

  /** The calendar and location features that follow the pollutant columns. */
  const TimeAndPlace: seq<string> := ["hour", "day_of_week", "month", "latitude", "longitude"]

  /** The name of the lag-`k` column of `col`: `f"{col}_lag{k}"`. */
  function LagName(col: string, k: int): string {
    col + "_lag" + IntToString(k)
  }

  /** `build_feature_columns`: the pollutant columns, then the five calendar
      and location features, then (with lags) the lag-1 column of each
      pollutant column in the same order. */
  function BuildFeatureColumns(pollutantCols: seq<string>, includeLags: bool): (r: seq<string>)
    ensures |r| == if includeLags then 2 * |pollutantCols| + 5 else |pollutantCols| + 5
    ensures r[..|pollutantCols|] == pollutantCols
    ensures r[|pollutantCols|..|pollutantCols| + 5] == TimeAndPlace
    ensures includeLags ==> forall i :: 0 <= i < |pollutantCols| ==> r[|pollutantCols| + 5 + i] == LagName(pollutantCols[i], 1)
  {
    var base := pollutantCols + TimeAndPlace;
    if !includeLags then base
    else
      assert IntToString(1) == "1";
      base + seq(|pollutantCols|, i requires 0 <= i < |pollutantCols| => pollutantCols[i] + "_lag1")
  }

  /** The list without lags is a prefix of the list with them. */
  lemma NoLagsIsPrefix(pollutantCols: seq<string>)
    ensures BuildFeatureColumns(pollutantCols, false) == BuildFeatureColumns(pollutantCols, true)[..|pollutantCols| + 5]
  {
    var n := |pollutantCols|;
    var short, long := BuildFeatureColumns(pollutantCols, false), BuildFeatureColumns(pollutantCols, true);
    assert short == short[..n] + short[n..n + 5];
    assert long[..n + 5] == long[..n] + long[n..n + 5];
  }

  /** The text of an integer is digits, after an optional minus sign. */
  lemma IntToStringChars(k: int)
    ensures forall i :: 0 <= i < |IntToString(k)| ==> IntToString(k)[i] == '-' || '0' <= IntToString(k)[i] <= '9'
  {
  }

  /** The length of the run of characters other than 'g' that ends `s`. */
  function TailWithoutG(s: string): (n: nat)
    ensures n <= |s|
  {
    if s == [] || s[|s| - 1] == 'g' then 0 else 1 + TailWithoutG(s[..|s| - 1])
  }

  lemma {:induction false} TailOfLagName(c: string, d: string)
    requires forall i :: 0 <= i < |d| ==> d[i] != 'g'
    ensures TailWithoutG(c + "_lag" + d) == |d|
  {
    var s := c + "_lag" + d;
    if d == [] {
      assert s[|s| - 1] == 'g';
    } else {
      assert s[..|s| - 1] == c + "_lag" + d[..|d| - 1];
      TailOfLagName(c, d[..|d| - 1]);
    }
  }

  /** Lag column names never collide: the name determines the column and the
      lag. */
  lemma LagNameInjective(c1: string, k1: int, c2: string, k2: int)
    requires LagName(c1, k1) == LagName(c2, k2)
    ensures c1 == c2 && k1 == k2
  {
    var s := LagName(c1, k1);
    var d1, d2 := IntToString(k1), IntToString(k2);
    IntToStringChars(k1);
    IntToStringChars(k2);
    TailOfLagName(c1, d1);
    TailOfLagName(c2, d2);
    assert d1 == s[|s| - |d1|..] == d2;
    IntToStringInjective(k1, k2);
    assert c1 == s[..|c1|] == c2;
  }

  // ---------------------------------------------------------------------------
  // Rows, ordering and the grouped shift
  // ---------------------------------------------------------------------------

  /** One row of the frame: the rank of its group-column values, its time,
      and its cells by column name. */
  datatype LagRow = LagRow(group: int, time: int, values: map<string, Option<real>>)

  /** The cell of `col` in a row, missing when the row has no such column. */
  function Cell(r: LagRow, col: string): Option<real> {
    if col in r.values then r.values[col] else None
  }

  /** The sort key order: by group, then by time. */
  predicate KeyLe(a: LagRow, b: LagRow) {
    a.group < b.group || (a.group == b.group && a.time <= b.time)
  }

  predicate SortedByKey(rows: seq<LagRow>) {
    forall i, j :: 0 <= i < j < |rows| ==> KeyLe(rows[i], rows[j])
  }

  /** Inserts `x` after every row whose key is not greater than its own. */
  function Insert(s: seq<LagRow>, x: LagRow): (r: seq<LagRow>)
    ensures multiset(r) == multiset(s) + multiset{x}
    ensures |r| == |s| + 1
  {
    if s == [] then [x]
    else if KeyLe(s[|s| - 1], x) then s + [x]
    else
      assert s == s[..|s| - 1] + [s[|s| - 1]];
      Insert(s[..|s| - 1], x) + [s[|s| - 1]]
  }

  lemma {:induction false} InsertSorted(s: seq<LagRow>, x: LagRow)
    requires SortedByKey(s)
    ensures SortedByKey(Insert(s, x))
  {
    if s != [] && !KeyLe(s[|s| - 1], x) {
      var init, last := s[..|s| - 1], s[|s| - 1];
      InsertSorted(init, x);
      var r := Insert(init, x);
      forall y | y in r ensures KeyLe(y, last) {
        assert y in multiset(r);
        if y != x {
          assert y in multiset(init);
          var j :| 0 <= j < |init| && init[j] == y;
          assert s[j] == y;
        }
      }
      forall i, j | 0 <= i < j < |r| + 1 ensures KeyLe((r + [last])[i], (r + [last])[j]) {
        if j == |r| {
          assert (r + [last])[i] == r[i] && r[i] in r;
        }
      }
    }
  }

  /** The sort by group columns, then time, as a stable insertion sort. */
  function SortRows(rows: seq<LagRow>): (r: seq<LagRow>)
    ensures multiset(r) == multiset(rows)
    ensures |r| == |rows|
  {
    if rows == [] then []
    else
      assert rows == rows[..|rows| - 1] + [rows[|rows| - 1]];
      Insert(SortRows(rows[..|rows| - 1]), rows[|rows| - 1])
  }

  /** The sorted rows are ordered by group, then time. */
  lemma {:induction false} SortRowsSorted(rows: seq<LagRow>)
    ensures SortedByKey(SortRows(rows))
  {
    if rows != [] {
      SortRowsSorted(rows[..|rows| - 1]);
      InsertSorted(SortRows(rows[..|rows| - 1]), rows[|rows| - 1]);
    }
  }

  /** The rows with group `g` and time `t`, in their order in `s`. */
  function WithKey(s: seq<LagRow>, g: int, t: int): seq<LagRow> {
    if s == [] then []
    else WithKey(s[..|s| - 1], g, t) + KeyedAs(s[|s| - 1], g, t)
  }

  /** `[x]` when `x` has group `g` and time `t`, otherwise nothing. */
  function KeyedAs(x: LagRow, g: int, t: int): seq<LagRow> {
    if x.group == g && x.time == t then [x] else []
  }

  lemma WithKeyAppend(s: seq<LagRow>, x: LagRow, g: int, t: int)
    ensures WithKey(s + [x], g, t) == WithKey(s, g, t) + KeyedAs(x, g, t)
  {
    assert (s + [x])[..|s|] == s;
  }

  /** Inserting a row keeps the order of the rows with any one key, and
      puts the new row after those of its key. */
  lemma {:induction false} InsertStable(s: seq<LagRow>, x: LagRow, g: int, t: int)
    ensures WithKey(Insert(s, x), g, t) == WithKey(s, g, t) + KeyedAs(x, g, t)
  {
    if s == [] {
    } else if KeyLe(s[|s| - 1], x) {
      WithKeyAppend(s, x, g, t);
    } else {
      var init, last := s[..|s| - 1], s[|s| - 1];
      InsertStable(init, x, g, t);
      WithKeyAppend(Insert(init, x), last, g, t);
      assert KeyedAs(x, g, t) == [] || KeyedAs(last, g, t) == [];
    }
  }

  /** The sort is stable: the rows with equal group and time keep their
      input order. */
  lemma {:induction false} SortRowsStable(rows: seq<LagRow>, g: int, t: int)
    ensures WithKey(SortRows(rows), g, t) == WithKey(rows, g, t)
  {
    if rows != [] {
      var init, last := rows[..|rows| - 1], rows[|rows| - 1];
      SortRowsStable(init, g, t);
      InsertStable(SortRows(init), last, g, t);
    }
  }

  /** The position of the `k`-th row of group `g` before position `i`. */
  function Back(rows: seq<LagRow>, g: int, i: nat, k: nat): (j: Option<nat>)
    requires i <= |rows| && k >= 1
    ensures j.Some? ==> j.value < i && rows[j.value].group == g
  {
    if i == 0 then None
    else if rows[i - 1].group == g then (if k == 1 then Some(i - 1) else Back(rows, g, i - 1, k - 1))
    else Back(rows, g, i - 1, k)
  }

  /** The position of the `k`-th row of group `g` after position `i`. */
  function Ahead(rows: seq<LagRow>, g: int, i: nat, k: nat): (j: Option<nat>)
    requires i < |rows| && k >= 1
    ensures j.Some? ==> i < j.value < |rows| && rows[j.value].group == g
    decreases |rows| - i
  {
    if i + 1 >= |rows| then None
    else if rows[i + 1].group == g then (if k == 1 then Some(i + 1) else Ahead(rows, g, i + 1, k - 1))
    else Ahead(rows, g, i + 1, k)
  }

  /** `groupby(...)[col].shift(k)` at row `i`: the cell of `col` in the row
      `k` places earlier within the row's group (later for negative `k`),
      missing when there is none. */
  function GroupShift(rows: seq<LagRow>, col: string, k: int, i: nat): Option<real>
    requires i < |rows|
  {
    var g := rows[i].group;
    var src := if k == 0 then Some(i) else if k > 0 then Back(rows, g, i, k) else Ahead(rows, g, i, -k);
    if src.None? then None else Cell(rows[src.value], col)
  }

  /** Group values never decrease along the rows. */
  predicate GroupsSorted(rows: seq<LagRow>) {
    forall i, j :: 0 <= i < j < |rows| ==> rows[i].group <= rows[j].group
  }

  lemma {:induction false} BackSorted(rows: seq<LagRow>, g: int, i: nat, k: nat)
    requires GroupsSorted(rows) && i <= |rows| && k >= 1
    requires forall j :: 0 <= j < i ==> rows[j].group <= g
    ensures Back(rows, g, i, k) == if k <= i && rows[i - k].group == g then Some(i - k) else None
    decreases i
  {
    if i > 0 {
      if rows[i - 1].group == g {
        if k > 1 {
          BackSorted(rows, g, i - 1, k - 1);
        }
      } else {
        BackSorted(rows, g, i - 1, k);
      }
    }
  }

  lemma {:induction false} AheadSorted(rows: seq<LagRow>, g: int, i: nat, k: nat)
    requires GroupsSorted(rows) && i < |rows| && k >= 1
    requires forall j :: i < j < |rows| ==> g <= rows[j].group
    ensures Ahead(rows, g, i, k) == if i + k < |rows| && rows[i + k].group == g then Some(i + k) else None
    decreases |rows| - i
  {
    if i + 1 < |rows| {
      if rows[i + 1].group == g {
        if k > 1 {
          AheadSorted(rows, g, i + 1, k - 1);
        }
      } else {
        AheadSorted(rows, g, i + 1, k);
      }
    }
  }

  /** On rows sorted by group, the lag-`k` value of a row is the value `k`
      rows earlier when that row is in the same group, and missing otherwise:
      the first `k` rows of every group get no value. A negative `k` looks
      `-k` rows ahead in the same way. */
  lemma ShiftOnSortedRows(rows: seq<LagRow>, col: string, k: int, i: nat)
    requires SortedByKey(rows) && i < |rows|
    ensures k > 0 ==>
      GroupShift(rows, col, k, i) == if k <= i && rows[i - k].group == rows[i].group then Cell(rows[i - k], col) else None
    ensures k < 0 ==>
      GroupShift(rows, col, k, i) == if i - k < |rows| && rows[i - k].group == rows[i].group then Cell(rows[i - k], col) else None
    ensures k == 0 ==> GroupShift(rows, col, k, i) == Cell(rows[i], col)
  {
    assert GroupsSorted(rows);
    if k > 0 {
      BackSorted(rows, rows[i].group, i, k);
    } else if k < 0 {
      AheadSorted(rows, rows[i].group, i, -k);
    }
  }

  /** Rows with the same groups in the same places. */
  predicate SameGroups(rows: seq<LagRow>, rows': seq<LagRow>) {
    |rows| == |rows'| && forall i :: 0 <= i < |rows| ==> rows[i].group == rows'[i].group
  }

  lemma {:induction false} BackAgree(rows: seq<LagRow>, rows': seq<LagRow>, g: int, i: nat, k: nat)
    requires SameGroups(rows, rows') && i <= |rows| && k >= 1
    ensures Back(rows, g, i, k) == Back(rows', g, i, k)
    decreases i
  {
    if i > 0 {
      if rows[i - 1].group != g {
        BackAgree(rows, rows', g, i - 1, k);
      } else if k > 1 {
        BackAgree(rows, rows', g, i - 1, k - 1);
      }
    }
  }

  lemma {:induction false} AheadAgree(rows: seq<LagRow>, rows': seq<LagRow>, g: int, i: nat, k: nat)
    requires SameGroups(rows, rows') && i < |rows| && k >= 1
    ensures Ahead(rows, g, i, k) == Ahead(rows', g, i, k)
    decreases |rows| - i
  {
    if i + 1 < |rows| {
      if rows[i + 1].group != g {
        AheadAgree(rows, rows', g, i + 1, k);
      } else if k > 1 {
        AheadAgree(rows, rows', g, i + 1, k - 1);
      }
    }
  }

  /** The shift of a column depends only on the groups and on that column. */
  lemma GroupShiftAgree(rows: seq<LagRow>, rows': seq<LagRow>, col: string, k: int, i: nat)
    requires SameGroups(rows, rows') && i < |rows|
    requires forall j :: 0 <= j < |rows| ==> Cell(rows[j], col) == Cell(rows'[j], col)
    ensures GroupShift(rows, col, k, i) == GroupShift(rows', col, k, i)
  {
    if k > 0 {
      BackAgree(rows, rows', rows[i].group, i, k);
    } else if k < 0 {
      AheadAgree(rows, rows', rows[i].group, i, -k);
    }
  }

  // ---------------------------------------------------------------------------
  // Lag features
  // ---------------------------------------------------------------------------

  /** A frame: its column names in order, and its rows. */
  datatype LagFrame = LagFrame(columns: seq<string>, rows: seq<LagRow>)

  /** `c` is the lag column, for one of `lags`, of a target column present
      in `columns`. */
  predicate IsLagColumn(c: string, targetCols: seq<string>, columns: seq<string>, lags: seq<int>) {
    exists t, k :: t in targetCols && t in columns && k in lags && c == LagName(t, k)
  }

  /** No lag column name is itself one of the target columns. */
  predicate NoClash(targetCols: seq<string>, lags: seq<int>) {
    forall t, k :: t in targetCols && k in lags ==> LagName(t, k) !in targetCols
  }

  /** Same groups and times in the same places. */
  predicate SameKeys(rows: seq<LagRow>, rows': seq<LagRow>) {
    && |rows| == |rows'|
    && forall i :: 0 <= i < |rows| ==> rows[i].group == rows'[i].group && rows[i].time == rows'[i].time
  }

  /** Column `c` of row `a` is as in row `b`: present in both or in neither,
      with the same cell. */
  predicate Kept(a: LagRow, b: LagRow, c: string) {
    (c in a.values <==> c in b.values) && (c in b.values ==> a.values[c] == b.values[c])
  }

  /** Every row holds the lag-`k` column of `t`, computed on `sorted`. */
  predicate LagWritten(rows: seq<LagRow>, sorted: seq<LagRow>, t: string, k: int) {
    && |rows| == |sorted|
    && forall i :: 0 <= i < |rows| ==>
      LagName(t, k) in rows[i].values && rows[i].values[LagName(t, k)] == GroupShift(sorted, t, k, i)
  }

  /** `df[lag_col] = df.groupby(group_cols)[col].shift(k)`. */
  function WithLagColumn(rows: seq<LagRow>, col: string, k: int): (r: seq<LagRow>)
    ensures SameKeys(r, rows)
    ensures forall i :: 0 <= i < |rows| ==> r[i].values == rows[i].values[LagName(col, k) := GroupShift(rows, col, k, i)]
  {
    seq(|rows|, i requires 0 <= i < |rows| => rows[i].(values := rows[i].values[LagName(col, k) := GroupShift(rows, col, k, i)]))
  }

  /** A target column is never a lag column. */
  lemma TargetNotLag(col: string, targetCols: seq<string>, columns: seq<string>, lags: seq<int>, ls: seq<int>)
    requires NoClash(targetCols, lags) && col in targetCols
    requires forall k :: k in ls ==> k in lags
    ensures !IsLagColumn(col, targetCols, columns, ls)
  {
  }

  /** One lag column write keeps the invariant of the lag loop. */
  lemma WriteLagStep(rows: seq<LagRow>, sorted: seq<LagRow>, targetCols: seq<string>, columns: seq<string>,
                     lags: seq<int>, col: string, k: int)
    requires NoClash(targetCols, lags) && col in targetCols && col in columns && k in lags
    requires SameKeys(rows, sorted)
    requires forall i, c :: 0 <= i < |rows| && !IsLagColumn(c, targetCols, columns, lags) ==> Kept(rows[i], sorted[i], c)
    ensures SameKeys(WithLagColumn(rows, col, k), sorted)
    ensures LagWritten(WithLagColumn(rows, col, k), sorted, col, k)
    ensures forall t, k' :: LagWritten(rows, sorted, t, k') ==> LagWritten(WithLagColumn(rows, col, k), sorted, t, k')
    ensures forall i, c :: 0 <= i < |rows| && !IsLagColumn(c, targetCols, columns, lags) ==>
      Kept(WithLagColumn(rows, col, k)[i], sorted[i], c)
  {
    var r := WithLagColumn(rows, col, k);
    var name := LagName(col, k);
    assert IsLagColumn(name, targetCols, columns, lags);
    TargetNotLag(col, targetCols, columns, lags, lags);
    assert SameGroups(rows, sorted);
    forall i | 0 <= i < |rows| ensures GroupShift(rows, col, k, i) == GroupShift(sorted, col, k, i) {
      forall j | 0 <= j < |rows| ensures Cell(rows[j], col) == Cell(sorted[j], col) {
        assert Kept(rows[j], sorted[j], col);
      }
      GroupShiftAgree(rows, sorted, col, k, i);
    }
    forall t, k' | LagWritten(rows, sorted, t, k') ensures LagWritten(r, sorted, t, k') {
      if LagName(t, k') == name {
        LagNameInjective(t, k', col, k);
      }
    }
  }

  /** Every column other than a lag column is as in `sorted`. */
  ghost predicate OthersKept(rows: seq<LagRow>, sorted: seq<LagRow>, targetCols: seq<string>, columns: seq<string>, lags: seq<int>)
    requires |rows| == |sorted|
  {
    forall i, c :: 0 <= i < |rows| && !IsLagColumn(c, targetCols, columns, lags) ==> Kept(rows[i], sorted[i], c)
  }

  /** Lag columns of `lags + [k]` are those of `lags` and those of `k`. */
  lemma IsLagColumnAppend(c: string, targetCols: seq<string>, columns: seq<string>, lags: seq<int>, k: int)
    ensures IsLagColumn(c, targetCols, columns, lags + [k])
        <==> IsLagColumn(c, targetCols, columns, lags) || IsLagColumn(c, targetCols, columns, [k])
  {
    if IsLagColumn(c, targetCols, columns, lags + [k]) {
      var t, k' :| t in targetCols && t in columns && k' in lags + [k] && c == LagName(t, k');
      assert k' in lags || k' in [k];
    }
    if IsLagColumn(c, targetCols, columns, lags) {
      var t, k' :| t in targetCols && t in columns && k' in lags && c == LagName(t, k');
      assert k' in lags + [k];
    }
    if IsLagColumn(c, targetCols, columns, [k]) {
      var t, k' :| t in targetCols && t in columns && k' in [k] && c == LagName(t, k');
      assert k' in lags + [k];
    }
  }

  /** One pass of the inner loop: skip a column the frame lacks, otherwise
      write its lag column and add the name if it is new. */
  function AfterStep(rows: seq<LagRow>, columns: seq<string>, col: string, k: int): (seq<LagRow>, seq<string>) {
    if col !in columns then (rows, columns)
    else (WithLagColumn(rows, col, k), if LagName(col, k) in columns then columns else columns + [LagName(col, k)])
  }

  /** What the inner loop has achieved on the rows after its first `b`
      target columns, starting from `rows0`. */
  ghost predicate InnerRows(rows0: seq<LagRow>, rows: seq<LagRow>, sorted: seq<LagRow>,
                            frameColumns: seq<string>, targetCols: seq<string>, lags: seq<int>, k: int, b: nat)
  {
    && b <= |targetCols|
    && SameKeys(rows, sorted)
    && (forall t, k' :: LagWritten(rows0, sorted, t, k') ==> LagWritten(rows, sorted, t, k'))
    && (forall j :: 0 <= j < b && targetCols[j] in frameColumns ==> LagWritten(rows, sorted, targetCols[j], k))
    && OthersKept(rows, sorted, targetCols, frameColumns, lags)
  }

  /** The column list after the first `b` target columns of lag `k`. */
  ghost predicate InnerColumns(columns: seq<string>, frameColumns: seq<string>, targetCols: seq<string>,
                               done: seq<int>, k: int, b: nat)
    requires b <= |targetCols|
  {
    forall c :: c in columns <==>
      || c in frameColumns
      || IsLagColumn(c, targetCols, frameColumns, done)
      || IsLagColumn(c, targetCols[..b], frameColumns, [k])
  }

  /** What the inner loop has achieved after its first `b` target columns. */
  ghost predicate InnerInv(rows0: seq<LagRow>, rows: seq<LagRow>, columns: seq<string>, sorted: seq<LagRow>,
                           frameColumns: seq<string>, targetCols: seq<string>, lags: seq<int>, done: seq<int>, k: int, b: nat)
  {
    && InnerRows(rows0, rows, sorted, frameColumns, targetCols, lags, k, b)
    && InnerColumns(columns, frameColumns, targetCols, done, k, b)
  }

  /** Lag columns of the first `b + 1` targets are those of the first `b`
      and the lag column of target `b`, if present. */
  lemma IsLagColumnExtend(c: string, targetCols: seq<string>, b: nat, frameColumns: seq<string>, k: int)
    requires b < |targetCols|
    ensures IsLagColumn(c, targetCols[..b + 1], frameColumns, [k])
        <==> IsLagColumn(c, targetCols[..b], frameColumns, [k]) || (targetCols[b] in frameColumns && c == LagName(targetCols[b], k))
  {
    var col := targetCols[b];
    assert targetCols[..b + 1] == targetCols[..b] + [col];
    if IsLagColumn(c, targetCols[..b + 1], frameColumns, [k]) {
      var t, k' :| t in targetCols[..b + 1] && t in frameColumns && k' in [k] && c == LagName(t, k');
      assert t in targetCols[..b] || t == col;
    }
    if IsLagColumn(c, targetCols[..b], frameColumns, [k]) {
      var t, k' :| t in targetCols[..b] && t in frameColumns && k' in [k] && c == LagName(t, k');
      assert t in targetCols[..b + 1];
    }
    if col in frameColumns && c == LagName(col, k) {
      assert col in targetCols[..b + 1] && k in [k];
    }
  }

  /** The column list after one more target column. */
  lemma InnerColumnsStep(rows: seq<LagRow>, columns: seq<string>, frameColumns: seq<string>, targetCols: seq<string>,
                         lags: seq<int>, done: seq<int>, k: int, b: nat)
    requires NoClash(targetCols, lags) && k in lags && forall k' :: k' in done ==> k' in lags
    requires b < |targetCols| && InnerColumns(columns, frameColumns, targetCols, done, k, b)
    ensures targetCols[b] in columns <==> targetCols[b] in frameColumns
    ensures InnerColumns(AfterStep(rows, columns, targetCols[b], k).1, frameColumns, targetCols, done, k, b + 1)
  {
    var col := targetCols[b];
    TargetNotLag(col, targetCols, frameColumns, lags, done);
    TargetNotLag(col, targetCols, frameColumns, lags, [k]);
    assert !IsLagColumn(col, targetCols[..b], frameColumns, [k]);
    forall c ensures IsLagColumn(c, targetCols[..b + 1], frameColumns, [k])
        <==> IsLagColumn(c, targetCols[..b], frameColumns, [k]) || (col in frameColumns && c == LagName(col, k)) {
      IsLagColumnExtend(c, targetCols, b, frameColumns, k);
    }
  }

  /** Lag columns written before stay written after one more write. */
  lemma WrittenStep(rows0: seq<LagRow>, rows: seq<LagRow>, r: seq<LagRow>, sorted: seq<LagRow>,
                    frameColumns: seq<string>, targetCols: seq<string>, k: int, b: nat)
    requires b < |targetCols|
    requires forall t, k' :: LagWritten(rows0, sorted, t, k') ==> LagWritten(rows, sorted, t, k')
    requires forall t, k' :: LagWritten(rows, sorted, t, k') ==> LagWritten(r, sorted, t, k')
    requires forall j :: 0 <= j < b && targetCols[j] in frameColumns ==> LagWritten(rows, sorted, targetCols[j], k)
    requires LagWritten(r, sorted, targetCols[b], k)
    ensures forall t, k' :: LagWritten(rows0, sorted, t, k') ==> LagWritten(r, sorted, t, k')
    ensures forall j :: 0 <= j < b + 1 && targetCols[j] in frameColumns ==> LagWritten(r, sorted, targetCols[j], k)
  {
    forall j | 0 <= j < b + 1 && targetCols[j] in frameColumns ensures LagWritten(r, sorted, targetCols[j], k) {
      if j < b {
        assert LagWritten(rows, sorted, targetCols[j], k);
      }
    }
  }

  /** The rows after one more target column that the frame holds. */
  lemma InnerRowsStep(rows0: seq<LagRow>, rows: seq<LagRow>, sorted: seq<LagRow>,
                      frameColumns: seq<string>, targetCols: seq<string>, lags: seq<int>, k: int, b: nat)
    requires NoClash(targetCols, lags) && k in lags
    requires b < |targetCols| && targetCols[b] in frameColumns
    requires InnerRows(rows0, rows, sorted, frameColumns, targetCols, lags, k, b)
    ensures InnerRows(rows0, WithLagColumn(rows, targetCols[b], k), sorted, frameColumns, targetCols, lags, k, b + 1)
  {
    var col := targetCols[b];
    WriteLagStep(rows, sorted, targetCols, frameColumns, lags, col, k);
    WrittenStep(rows0, rows, WithLagColumn(rows, col, k), sorted, frameColumns, targetCols, k, b);
  }

  lemma InnerStep(rows0: seq<LagRow>, rows: seq<LagRow>, columns: seq<string>, sorted: seq<LagRow>,
                  frameColumns: seq<string>, targetCols: seq<string>, lags: seq<int>, done: seq<int>, k: int, b: nat)
    requires NoClash(targetCols, lags) && k in lags && forall k' :: k' in done ==> k' in lags
    requires InnerInv(rows0, rows, columns, sorted, frameColumns, targetCols, lags, done, k, b) && b < |targetCols|
    ensures var next := AfterStep(rows, columns, targetCols[b], k);
      InnerInv(rows0, next.0, next.1, sorted, frameColumns, targetCols, lags, done, k, b + 1)
  {
    InnerColumnsStep(rows, columns, frameColumns, targetCols, lags, done, k, b);
    if targetCols[b] in columns {
      InnerRowsStep(rows0, rows, sorted, frameColumns, targetCols, lags, k, b);
    }
  }

  /** The inner loop of `add_lag_features`: writes the lag-`k` column of
      every target column present in the frame. `ok` stands for the lag
      names not clashing with the targets, `done` for the lags written
      before. */
  method AddLagColumns(sorted: seq<LagRow>, rows: seq<LagRow>, columns: seq<string>, frameColumns: seq<string>,
                       targetCols: seq<string>, lags: seq<int>, done: seq<int>, k: int, ghost ok: bool)
    returns (rows': seq<LagRow>, columns': seq<string>)
    requires SameKeys(rows, sorted)
    requires ok ==> NoClash(targetCols, lags) && k in lags && forall k' :: k' in done ==> k' in lags
    requires ok ==> OthersKept(rows, sorted, targetCols, frameColumns, lags)
    requires ok ==> forall c :: c in columns <==> c in frameColumns || IsLagColumn(c, targetCols, frameColumns, done)
    ensures SameKeys(rows', sorted)
    ensures ok ==> forall t, k' :: LagWritten(rows, sorted, t, k') ==> LagWritten(rows', sorted, t, k')
    ensures ok ==> forall t :: t in targetCols && t in frameColumns ==> LagWritten(rows', sorted, t, k)
    ensures ok ==> OthersKept(rows', sorted, targetCols, frameColumns, lags)
    ensures ok ==> forall c :: c in columns' <==> c in frameColumns || IsLagColumn(c, targetCols, frameColumns, done + [k])
  {
    rows', columns' := rows, columns;
    for b := 0 to |targetCols|
      invariant SameKeys(rows', sorted)
      invariant ok ==> InnerInv(rows, rows', columns', sorted, frameColumns, targetCols, lags, done, k, b)
    {
      ghost var before := (rows', columns');
      var col := targetCols[b];
      if col in columns' {
        var lagCol := LagName(col, k);
        rows' := WithLagColumn(rows', col, k);
        if lagCol !in columns' {
          columns' := columns' + [lagCol];
        }
      }
      assert (rows', columns') == AfterStep(before.0, before.1, col, k);
      if ok {
        InnerStep(rows, before.0, before.1, sorted, frameColumns, targetCols, lags, done, k, b);
      }
    }
    if ok {
      InnerFinish(rows, rows', columns', sorted, frameColumns, targetCols, lags, done, k);
    }
  }

  lemma InnerFinish(rows0: seq<LagRow>, rows: seq<LagRow>, columns: seq<string>, sorted: seq<LagRow>,
                    frameColumns: seq<string>, targetCols: seq<string>, lags: seq<int>, done: seq<int>, k: int)
    requires InnerInv(rows0, rows, columns, sorted, frameColumns, targetCols, lags, done, k, |targetCols|)
    ensures forall t :: t in targetCols && t in frameColumns ==> LagWritten(rows, sorted, t, k)
    ensures forall c :: c in columns <==> c in frameColumns || IsLagColumn(c, targetCols, frameColumns, done + [k])
  {
    forall t | t in targetCols && t in frameColumns ensures LagWritten(rows, sorted, t, k) {
      var j :| 0 <= j < |targetCols| && targetCols[j] == t;
    }
    assert targetCols[..|targetCols|] == targetCols;
    forall c ensures IsLagColumn(c, targetCols, frameColumns, done + [k])
        <==> IsLagColumn(c, targetCols, frameColumns, done) || IsLagColumn(c, targetCols, frameColumns, [k]) {
      IsLagColumnAppend(c, targetCols, frameColumns, done, k);
    }
  }

  /** What the outer loop has achieved after its first `a` lags. */
  ghost predicate OuterInv(rows: seq<LagRow>, columns: seq<string>, sorted: seq<LagRow>,
                           frameColumns: seq<string>, targetCols: seq<string>, lags: seq<int>, a: nat)
  {
    && a <= |lags|
    && SameKeys(rows, sorted)
    && (forall j, t :: 0 <= j < a && t in targetCols && t in frameColumns ==> LagWritten(rows, sorted, t, lags[j]))
    && OthersKept(rows, sorted, targetCols, frameColumns, lags)
    && (forall c :: c in columns <==> c in frameColumns || IsLagColumn(c, targetCols, frameColumns, lags[..a]))
  }

  lemma OuterStep(rows0: seq<LagRow>, columns0: seq<string>, rows: seq<LagRow>, columns: seq<string>, sorted: seq<LagRow>,
                  frameColumns: seq<string>, targetCols: seq<string>, lags: seq<int>, a: nat)
    requires OuterInv(rows0, columns0, sorted, frameColumns, targetCols, lags, a) && a < |lags|
    requires SameKeys(rows, sorted)
    requires forall t, k' :: LagWritten(rows0, sorted, t, k') ==> LagWritten(rows, sorted, t, k')
    requires forall t :: t in targetCols && t in frameColumns ==> LagWritten(rows, sorted, t, lags[a])
    requires OthersKept(rows, sorted, targetCols, frameColumns, lags)
    requires forall c :: c in columns <==> c in frameColumns || IsLagColumn(c, targetCols, frameColumns, lags[..a] + [lags[a]])
    ensures OuterInv(rows, columns, sorted, frameColumns, targetCols, lags, a + 1)
  {
    assert lags[..a + 1] == lags[..a] + [lags[a]];
    forall j, t | 0 <= j < a + 1 && t in targetCols && t in frameColumns ensures LagWritten(rows, sorted, t, lags[j]) {
      if j < a {
        assert LagWritten(rows0, sorted, t, lags[j]);
      }
    }
  }

  lemma OuterFinish(rows: seq<LagRow>, columns: seq<string>, sorted: seq<LagRow>,
                    frameColumns: seq<string>, targetCols: seq<string>, lags: seq<int>)
    requires OuterInv(rows, columns, sorted, frameColumns, targetCols, lags, |lags|)
    ensures forall t, k :: t in targetCols && t in frameColumns && k in lags ==> LagWritten(rows, sorted, t, k)
    ensures forall c :: c in columns <==> c in frameColumns || IsLagColumn(c, targetCols, frameColumns, lags)
  {
    assert lags[..|lags|] == lags;
    forall t, k | t in targetCols && t in frameColumns && k in lags ensures LagWritten(rows, sorted, t, k) {
      var j :| 0 <= j < |lags| && lags[j] == k;
    }
  }

  /** pandas' message when `groupby` is given no key on a non-empty frame. */
  const NoGroupKeys := "No group keys passed!"

  /** Some lag column gets written: there is a lag and a target column the
      frame has. */
  predicate ShiftsSomething(columns: seq<string>, targetCols: seq<string>, lags: seq<int>) {
    |lags| > 0 && exists t :: t in targetCols && t in columns
  }

  /** `add_lag_features`: sorts a copy of the frame by group and time, then,
      for each lag and each target column present in the frame, writes the
      grouped shift of that column into its lag column. Target columns the
      frame lacks are skipped. `grouped` says whether `group_cols` is
      non-empty; the rows' group ranks are derived from those columns.
      Without a group column, the first shift of a non-empty frame raises,
      and the copy it works on is lost, so the check is made up front. */
  method AddLagFeatures(frame: LagFrame, grouped: bool, targetCols: seq<string>, lags: seq<int>)
    returns (result: Result<LagFrame>)
    ensures result.Failure? <==> !grouped && |frame.rows| > 0 && ShiftsSomething(frame.columns, targetCols, lags)
    ensures result.Failure? ==> result.error == NoGroupKeys
    ensures result.Success? ==> SameKeys(result.value.rows, SortRows(frame.rows))
    ensures result.Success? && NoClash(targetCols, lags) ==>
      forall t, k :: t in targetCols && t in frame.columns && k in lags ==> LagWritten(result.value.rows, SortRows(frame.rows), t, k)
    ensures result.Success? && NoClash(targetCols, lags) ==>
      forall i, c :: 0 <= i < |result.value.rows| && !IsLagColumn(c, targetCols, frame.columns, lags) ==>
        Kept(result.value.rows[i], SortRows(frame.rows)[i], c)
    ensures result.Success? && NoClash(targetCols, lags) ==>
      forall c :: c in result.value.columns <==> c in frame.columns || IsLagColumn(c, targetCols, frame.columns, lags)
  {
    if !grouped && |frame.rows| > 0 && ShiftsSomething(frame.columns, targetCols, lags) {
      return Failure(NoGroupKeys);
    }
    var sorted := SortRows(frame.rows);
    var rows := sorted;
    var columns := frame.columns;
    ghost var ok := NoClash(targetCols, lags);
    assert lags[..0] == [];
    for a := 0 to |lags|
      invariant SameKeys(rows, sorted)
      invariant ok ==> OuterInv(rows, columns, sorted, frame.columns, targetCols, lags, a)
    {
      ghost var rows0, columns0 := rows, columns;
      assert forall k :: k in lags[..a] ==> k in lags;
      rows, columns := AddLagColumns(sorted, rows, columns, frame.columns, targetCols, lags, lags[..a], lags[a], ok);
      if ok {
        OuterStep(rows0, columns0, rows, columns, sorted, frame.columns, targetCols, lags, a);
      }
    }
    result := Success(LagFrame(columns, rows));
    if ok {
      OuterFinish(rows, columns, sorted, frame.columns, targetCols, lags);
    }
  }
}

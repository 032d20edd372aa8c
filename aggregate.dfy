/** Aggregation of the legislative changes that post-date a baseline:
    one total per `agg_cols` key and, for debt, the sign-inverted running
    total over the projection years of each baseline vintage
    (`aggregate_leg_changes`). */
module LegAggregation {
  import opened Tables
  import opened Seqs

  /** For debt the aggregated per-year value keeps the deficit column name... */
  const DeficitChangeColumn := "legislative_deficit_change"
  /** ...and the running total goes into a column of its own. */
  const DebtChangeColumn := "legislative_debt_change"

  /** The `agg_cols` key of a joined row. Rows without a baseline partner have
      a missing projection year number; the group-by drops them. */
  function KeyOf(row: LegJoinRow): AggKey
    requires row.fact.Some?
  {
    FactKey(row.fact.value)
  }

  /** The keys of the groupable rows, one per row, in row order. */
  function KeysOf(rows: seq<LegJoinRow>): (keys: seq<AggKey>)
    ensures forall k :: k in keys <==> exists row :: row in rows && row.fact.Some? && KeyOf(row) == k
  {
    if rows == [] then []
    else
      var last := rows[|rows| - 1];
      var init := rows[..|rows| - 1];
      assert rows == init + [last];
      KeysOf(init) + (if last.fact.Some? then [KeyOf(last)] else [])
  }

  /** The sum of the legislative values of the rows with key `k`. */
  function SumFor(rows: seq<LegJoinRow>, k: AggKey): (s: real)
    ensures (forall i :: 0 <= i < |rows| ==> rows[i].fact.None? || KeyOf(rows[i]) != k) ==> s == 0.0
  {
    if rows == [] then 0.0
    else
      var last := rows[|rows| - 1];
      SumFor(rows[..|rows| - 1], k) + (if last.fact.Some? && KeyOf(last) == k then last.change.value else 0.0)
  }

  /** The sum of the legislative values of all groupable rows. */
  function TotalKeyed(rows: seq<LegJoinRow>): real
  {
    if rows == [] then 0.0
    else
      var last := rows[|rows| - 1];
      TotalKeyed(rows[..|rows| - 1]) + (if last.fact.Some? then last.change.value else 0.0)
  }

  datatype GroupTotal = GroupTotal(key: AggKey, total: real)

  function Totals(rows: seq<LegJoinRow>, keys: seq<AggKey>): (g: seq<GroupTotal>)
    ensures |g| == |keys|
    ensures forall i :: 0 <= i < |g| ==> g[i] == GroupTotal(keys[i], SumFor(rows, keys[i]))
  {
    if keys == [] then [] else [GroupTotal(keys[0], SumFor(rows, keys[0]))] + Totals(rows, keys[1..])
  }

  /** `groupby(agg_cols)[label].sum()`: one total per observed key. */
  function GroupSum(rows: seq<LegJoinRow>): (g: seq<GroupTotal>)
    ensures forall i, j :: 0 <= i < j < |g| ==> g[i].key != g[j].key
    ensures forall row :: row in rows && row.fact.Some? ==> exists i :: 0 <= i < |g| && g[i].key == KeyOf(row)
    ensures forall i :: 0 <= i < |g| ==> g[i].key in KeysOf(rows)
    ensures forall i :: 0 <= i < |g| ==> g[i].total == SumFor(rows, g[i].key)
  {
    var keys := Distinct(KeysOf(rows));
    var g := Totals(rows, keys);
    forall row | row in rows && row.fact.Some?
      ensures exists i :: 0 <= i < |g| && g[i].key == KeyOf(row)
    {
      assert KeyOf(row) in KeysOf(rows);
      var i :| 0 <= i < |keys| && keys[i] == KeyOf(row);
      assert g[i].key == KeyOf(row);
    }
    g
  }

  function SumTotals(g: seq<GroupTotal>): real
  {
    if g == [] then 0.0 else g[0].total + SumTotals(g[1..])
  }

  lemma {:induction false} SumForAddRow(rows: seq<LegJoinRow>, x: LegJoinRow, keys: seq<AggKey>)
    requires NoDuplicates(keys)
    ensures SumTotals(Totals(rows + [x], keys))
         == SumTotals(Totals(rows, keys)) + (if x.fact.Some? && KeyOf(x) in keys then x.change.value else 0.0)
  {
    if keys != [] {
      assert (rows + [x])[..|rows + [x]| - 1] == rows;
      assert NoDuplicates(keys[1..]);
      SumForAddRow(rows, x, keys[1..]);
      assert keys == [keys[0]] + keys[1..];
      if x.fact.Some? && KeyOf(x) == keys[0] {
        assert KeyOf(x) !in keys[1..];
      }
    }
  }

  lemma {:induction false} SumOverCoveringKeys(rows: seq<LegJoinRow>, keys: seq<AggKey>)
    requires NoDuplicates(keys)
    requires forall k :: k in KeysOf(rows) ==> k in keys
    ensures SumTotals(Totals(rows, keys)) == TotalKeyed(rows)
    decreases |rows|
  {
    if rows == [] {
      ZeroSums(keys);
    } else {
      var init, last := rows[..|rows| - 1], rows[|rows| - 1];
      assert rows == init + [last];
      assert forall k :: k in KeysOf(init) ==> k in KeysOf(rows);
      SumOverCoveringKeys(init, keys);
      SumForAddRow(init, last, keys);
      if last.fact.Some? {
        assert KeyOf(last) in KeysOf(rows);
      }
    }
  }

  lemma {:induction false} ZeroSums(keys: seq<AggKey>)
    ensures SumTotals(Totals([], keys)) == 0.0
  {
    if keys != [] {
      ZeroSums(keys[1..]);
    }
  }

  /** Grouping neither loses nor invents legislative effects: the group
      totals add up to the total of the groupable rows. */
  lemma GroupSumConservesTotal(rows: seq<LegJoinRow>)
    ensures SumTotals(GroupSum(rows)) == TotalKeyed(rows)
  {
    SumOverCoveringKeys(rows, Distinct(KeysOf(rows)));
  }

  /** The baseline vintage a key belongs to (`baseline_year`). */
  function BaselineYear(k: AggKey): int
  {
    k.projectedFiscalYear - k.projectedYearNumber + 1
  }

  /** The debt effect of legislation for projection year `yearNumber` of
      vintage `vintage`: the sum of the negated per-year totals of every row
      of that vintage whose projection year number is at most `yearNumber`,
      whatever its category. */
  function RunningDebtChange(g: seq<GroupTotal>, vintage: int, yearNumber: int): (r: real)
    ensures (forall i :: 0 <= i < |g| ==> !InScope(g[i].key, vintage, yearNumber)) ==> r == 0.0
  {
    if g == [] then 0.0
    else
      var last := g[|g| - 1];
      RunningDebtChange(g[..|g| - 1], vintage, yearNumber)
        + (if BaselineYear(last.key) == vintage && last.key.projectedYearNumber <= yearNumber
           then -last.total else 0.0)
  }

  /** The negated totals of the rows of vintage `vintage` at exactly
      projection year `yearNumber`: that year's own debt effect. */
  function YearDebtChange(g: seq<GroupTotal>, vintage: int, yearNumber: int): real
  {
    if g == [] then 0.0
    else
      var last := g[|g| - 1];
      YearDebtChange(g[..|g| - 1], vintage, yearNumber)
        + (if BaselineYear(last.key) == vintage && last.key.projectedYearNumber == yearNumber
           then -last.total else 0.0)
  }

  /** The running total grows, from one projection year to the next, by
      exactly the negated legislative change of the later year. */
  lemma {:induction false} RunningDebtStep(g: seq<GroupTotal>, vintage: int, yearNumber: int)
    ensures RunningDebtChange(g, vintage, yearNumber)
         == RunningDebtChange(g, vintage, yearNumber - 1) + YearDebtChange(g, vintage, yearNumber)
  {
    if g != [] {
      RunningDebtStep(g[..|g| - 1], vintage, yearNumber);
    }
  }

  /** Before the first projection year of a vintage there is no debt effect. */
  lemma {:induction false} RunningDebtStartsAtZero(g: seq<GroupTotal>, vintage: int, yearNumber: int)
    requires forall i :: 0 <= i < |g| && BaselineYear(g[i].key) == vintage ==> g[i].key.projectedYearNumber > yearNumber
    ensures RunningDebtChange(g, vintage, yearNumber) == 0.0
  {
    if g != [] {
      RunningDebtStartsAtZero(g[..|g| - 1], vintage, yearNumber);
    }
  }

  /** Whether key `k` counts towards the debt effect of projection year
      `yearNumber` of vintage `vintage`. */
  predicate InScope(k: AggKey, vintage: int, yearNumber: int)
  {
    BaselineYear(k) == vintage && k.projectedYearNumber <= yearNumber
  }

  /** The debt effect computed directly from the joined rows, without
      grouping: minus every groupable legislative change in scope. */
  function RawDebtChange(rows: seq<LegJoinRow>, vintage: int, yearNumber: int): real
  {
    if rows == [] then 0.0
    else
      var last := rows[|rows| - 1];
      RawDebtChange(rows[..|rows| - 1], vintage, yearNumber)
        + (if last.fact.Some? && InScope(KeyOf(last), vintage, yearNumber) then -last.change.value else 0.0)
  }

  lemma {:induction false} TotalsInit(rows: seq<LegJoinRow>, keys: seq<AggKey>)
    requires keys != []
    ensures Totals(rows, keys)[..|keys| - 1] == Totals(rows, keys[..|keys| - 1])
  {
  }

  lemma {:induction false} SumForSnoc(rows: seq<LegJoinRow>, x: LegJoinRow, k: AggKey)
    ensures SumFor(rows + [x], k) == SumFor(rows, k) + (if x.fact.Some? && KeyOf(x) == k then x.change.value else 0.0)
  {
    assert (rows + [x])[..|rows + [x]| - 1] == rows;
  }

  lemma {:induction false} RunningDebtAddRow(rows: seq<LegJoinRow>, x: LegJoinRow, keys: seq<AggKey>, vintage: int, yearNumber: int)
    requires NoDuplicates(keys)
    ensures RunningDebtChange(Totals(rows + [x], keys), vintage, yearNumber)
         == RunningDebtChange(Totals(rows, keys), vintage, yearNumber)
            - (if x.fact.Some? && KeyOf(x) in keys && InScope(KeyOf(x), vintage, yearNumber) then x.change.value else 0.0)
    decreases |keys|
  {
    if keys != [] {
      var init, last := keys[..|keys| - 1], keys[|keys| - 1];
      assert keys == init + [last];
      assert NoDuplicates(init);
      TotalsInit(rows + [x], keys);
      TotalsInit(rows, keys);
      RunningDebtAddRow(rows, x, init, vintage, yearNumber);
      SumForSnoc(rows, x, last);
      if x.fact.Some? && KeyOf(x) == last {
        assert KeyOf(x) !in init;
      }
    }
  }

  lemma {:induction false} RunningDebtOfNoRows(keys: seq<AggKey>, vintage: int, yearNumber: int)
    ensures RunningDebtChange(Totals([], keys), vintage, yearNumber) == 0.0
  {
    if keys != [] {
      TotalsInit([], keys);
      RunningDebtOfNoRows(keys[..|keys| - 1], vintage, yearNumber);
    }
  }

  lemma {:induction false} RunningDebtOverCoveringKeys(rows: seq<LegJoinRow>, keys: seq<AggKey>, vintage: int, yearNumber: int)
    requires NoDuplicates(keys)
    requires forall k :: k in KeysOf(rows) ==> k in keys
    ensures RunningDebtChange(Totals(rows, keys), vintage, yearNumber) == RawDebtChange(rows, vintage, yearNumber)
    decreases |rows|
  {
    if rows == [] {
      RunningDebtOfNoRows(keys, vintage, yearNumber);
    } else {
      var init, last := rows[..|rows| - 1], rows[|rows| - 1];
      assert rows == init + [last];
      assert forall k :: k in KeysOf(init) ==> k in KeysOf(rows);
      RunningDebtOverCoveringKeys(init, keys, vintage, yearNumber);
      RunningDebtAddRow(init, last, keys, vintage, yearNumber);
      if last.fact.Some? {
        assert KeyOf(last) in KeysOf(rows);
      }
    }
  }

  /** Summing per key first does not change the debt effect: the running
      total over the group totals is minus the sum of every legislative
      change of the vintage up to that projection year, in any category. */
  lemma RunningDebtOfGroupSum(rows: seq<LegJoinRow>, vintage: int, yearNumber: int)
    ensures RunningDebtChange(GroupSum(rows), vintage, yearNumber) == RawDebtChange(rows, vintage, yearNumber)
  {
    RunningDebtOverCoveringKeys(rows, Distinct(KeysOf(rows)), vintage, yearNumber);
  }

  /** Per-year legislative deficit changes of +1.0, -0.5 and +2.0 in
      projection years 1 to 3 of one vintage give debt effects of -1.0, -0.5
      and -2.5. */
  lemma RunningDebtExample()
    ensures var g := [
        GroupTotal(AggKey(Debt, "Total", "Total", 2010, 1), 1.0),
        GroupTotal(AggKey(Debt, "Total", "Total", 2011, 2), -0.5),
        GroupTotal(AggKey(Debt, "Total", "Total", 2012, 3), 2.0)];
      && RunningDebtChange(g, 2010, 1) == -1.0
      && RunningDebtChange(g, 2010, 2) == -0.5
      && RunningDebtChange(g, 2010, 3) == -2.5
  {
    var g := [
        GroupTotal(AggKey(Debt, "Total", "Total", 2010, 1), 1.0),
        GroupTotal(AggKey(Debt, "Total", "Total", 2011, 2), -0.5),
        GroupTotal(AggKey(Debt, "Total", "Total", 2012, 3), 2.0)];
    assert g[..2][..1] == g[..1] && g[..1][..0] == [];
    assert RunningDebtChange(g[..1], 2010, 1) == -1.0;
    assert RunningDebtChange(g[..2], 2010, 1) == -1.0;
    assert RunningDebtChange(g[..1], 2010, 2) == -1.0;
    assert RunningDebtChange(g[..2], 2010, 2) == -0.5;
    assert RunningDebtChange(g[..1], 2010, 3) == -1.0;
    assert RunningDebtChange(g[..2], 2010, 3) == -0.5;
    assert g[..|g| - 1] == g[..2];
  }

  /** The running debt change of a vintage depends on each per-year row only
      through its projected fiscal year, its projection year number and its
      total: rewriting the component, category or subcategory of any key
      leaves it unchanged, so rows of one vintage accumulate together
      whatever their category. */
  lemma {:induction false} RunningDebtIgnoresCategory(g: seq<GroupTotal>, h: seq<GroupTotal>, vintage: int, yearNumber: int)
    requires |h| == |g|
    requires forall i :: 0 <= i < |g| ==>
      && h[i].total == g[i].total
      && h[i].key.projectedFiscalYear == g[i].key.projectedFiscalYear
      && h[i].key.projectedYearNumber == g[i].key.projectedYearNumber
    ensures RunningDebtChange(h, vintage, yearNumber) == RunningDebtChange(g, vintage, yearNumber)
  {
    if g != [] {
      RunningDebtIgnoresCategory(g[..|g| - 1], h[..|h| - 1], vintage, yearNumber);
      assert h[|h| - 1].total == g[|g| - 1].total;
    }
  }

  /** The legislative columns of one aggregated row. */
  function LegColumns(g: seq<GroupTotal>, i: nat, c: Component): map<string, real>
    requires i < |g|
  {
    if c == Debt then
      map[DeficitChangeColumn := -g[i].total,
          DebtChangeColumn := RunningDebtChange(g, BaselineYear(g[i].key), g[i].key.projectedYearNumber)]
    else
      map[LegLabel(c) := g[i].total]
  }

  /** One aggregated row per group total. */
  function Aggregate(g: seq<GroupTotal>, c: Component): (agg: seq<AggRow>)
    ensures |agg| == |g|
    ensures forall i :: 0 <= i < |g| ==> agg[i].key == g[i].key && LegLabel(c) in agg[i].legislative
    ensures c != Debt ==> forall i :: 0 <= i < |g| ==> agg[i].legislative == map[LegLabel(c) := g[i].total]
    ensures c == Debt ==> forall i :: 0 <= i < |g| ==>
      && DeficitChangeColumn in agg[i].legislative
      && DebtChangeColumn in agg[i].legislative
      && agg[i].legislative[DeficitChangeColumn] == -g[i].total
      && agg[i].legislative[DebtChangeColumn]
         == RunningDebtChange(g, BaselineYear(g[i].key), g[i].key.projectedYearNumber)
  {
    seq(|g|, i requires 0 <= i < |g| => AggRow(g[i].key, LegColumns(g, i, c)))
  }

  /** The aggregated legislative changes for component `c`: one row per
      observed key; for debt each row carries the negated per-year total and
      the running debt total of its vintage. */
  function AggregatedLegChanges(rows: seq<LegJoinRow>, c: Component): (agg: seq<AggRow>)
    ensures forall i, j :: 0 <= i < j < |agg| ==> agg[i].key != agg[j].key
    ensures forall row :: row in rows && row.fact.Some? ==> exists a :: a in agg && a.key == KeyOf(row)
    ensures forall i :: 0 <= i < |agg| ==> agg[i].key in KeysOf(rows) && LegLabel(c) in agg[i].legislative
    ensures c != Debt ==> forall i :: 0 <= i < |agg| ==>
      agg[i].legislative == map[LegLabel(c) := SumFor(rows, agg[i].key)]
    ensures c == Debt ==> forall i :: 0 <= i < |agg| ==>
      && DeficitChangeColumn in agg[i].legislative
      && DebtChangeColumn in agg[i].legislative
      && agg[i].legislative[DeficitChangeColumn] == -SumFor(rows, agg[i].key)
      && agg[i].legislative[DebtChangeColumn]
         == RunningDebtChange(GroupSum(rows), BaselineYear(agg[i].key), agg[i].key.projectedYearNumber)
  {
    var g := GroupSum(rows);
    var agg := Aggregate(g, c);
    forall row | row in rows && row.fact.Some? ensures exists a :: a in agg && a.key == KeyOf(row) {
      var i :| 0 <= i < |g| && g[i].key == KeyOf(row);
      assert agg[i] in agg;
    }
    agg
  }

  /** The baseline vintage and the negated total of every aggregated row
      (the `baseline_year` column and the in-place `*= -1`). */
  method NegatedTotals(g: seq<GroupTotal>) returns (baselineYear: array<int>, deficitChange: array<real>)
    ensures fresh(baselineYear) && fresh(deficitChange)
    ensures baselineYear.Length == deficitChange.Length == |g|
    ensures forall k :: 0 <= k < |g| ==> baselineYear[k] == BaselineYear(g[k].key)
    ensures forall k :: 0 <= k < |g| ==> deficitChange[k] == -g[k].total
  {
    var n := |g|;
    baselineYear := new int[n];
    deficitChange := new real[n];
    for i := 0 to n
      invariant forall k :: 0 <= k < i ==> baselineYear[k] == BaselineYear(g[k].key)
      invariant forall k :: 0 <= k < i ==> deficitChange[k] == g[k].total
    {
      baselineYear[i] := BaselineYear(g[i].key);
      deficitChange[i] := g[i].total;
    }
    for i := 0 to n
      invariant forall k :: 0 <= k < i ==> deficitChange[k] == -g[k].total
      invariant forall k :: i <= k < n ==> deficitChange[k] == g[k].total
      modifies deficitChange
    {
      deficitChange[i] := -deficitChange[i];
    }
  }

  /** `calc_cum_deficit_effects` for row `i`: scans every row and adds the
      negated totals of those of the same vintage and no later projection year. */
  method CumulativeDeficitEffects(g: seq<GroupTotal>, baselineYear: array<int>, deficitChange: array<real>, i: nat)
    returns (total: real)
    requires i < |g| == baselineYear.Length == deficitChange.Length
    requires forall k :: 0 <= k < |g| ==> baselineYear[k] == BaselineYear(g[k].key)
    requires forall k :: 0 <= k < |g| ==> deficitChange[k] == -g[k].total
    ensures total == RunningDebtChange(g, BaselineYear(g[i].key), g[i].key.projectedYearNumber)
  {
    total := 0.0;
    for j := 0 to |g|
      invariant total == RunningDebtChange(g[..j], baselineYear[i], g[i].key.projectedYearNumber)
    {
      assert g[..j + 1][..j] == g[..j];
      if baselineYear[j] == baselineYear[i] && g[j].key.projectedYearNumber <= g[i].key.projectedYearNumber {
        total := total + deficitChange[j];
      }
    }
    assert g[..|g|] == g;
  }

  lemma DebtColumnsAt(g: seq<GroupTotal>, i: nat, deficit: real, debt: real)
    requires i < |g|
    requires deficit == -g[i].total
    requires debt == RunningDebtChange(g, BaselineYear(g[i].key), g[i].key.projectedYearNumber)
    ensures LegColumns(g, i, Debt) == map[DeficitChangeColumn := deficit, DebtChangeColumn := debt]
  {
  }

  /** The debt branch of `aggregate_leg_changes`: negates the group totals
      and writes each row's running vintage total with a row-wise scan. */
  method RunningDebtRows(g: seq<GroupTotal>) returns (agg: seq<AggRow>)
    ensures agg == Aggregate(g, Debt)
  {
    var n := |g|;
    var baselineYear, deficitChange := NegatedTotals(g);
    var debtChange := new real[n];
    for i := 0 to n
      invariant forall k :: 0 <= k < i ==>
        debtChange[k] == RunningDebtChange(g, BaselineYear(g[k].key), g[k].key.projectedYearNumber)
      modifies debtChange
    {
      debtChange[i] := CumulativeDeficitEffects(g, baselineYear, deficitChange, i);
    }
    agg := seq(n, i requires 0 <= i < n reads deficitChange, debtChange =>
      AggRow(g[i].key, map[DeficitChangeColumn := deficitChange[i], DebtChangeColumn := debtChange[i]]));
    forall i | 0 <= i < n ensures agg[i] == Aggregate(g, Debt)[i] {
      DebtColumnsAt(g, i, deficitChange[i], debtChange[i]);
    }
  }

  /** `aggregate_leg_changes`: sums the legislative changes per key; for
      debt, replaces the sums by their sign-inverted running vintage totals. */
  method AggregateLegChanges(rows: seq<LegJoinRow>, c: Component) returns (agg: seq<AggRow>)
    ensures agg == AggregatedLegChanges(rows, c)
  {
    var g := GroupSum(rows);
    if c == Debt {
      agg := RunningDebtRows(g);
    } else {
      agg := seq(|g|, i requires 0 <= i < |g| => AggRow(g[i].key, map[LegLabel(c) := g[i].total]));
      assert forall i :: 0 <= i < |g| ==> agg[i] == Aggregate(g, c)[i];
    }
  }
}

/** The error summary (`calc_summary_stats`): one row per observed
    (component, category, subcategory, projected year number) group of the
    projection errors, with the range of projected fiscal years the group
    covers and the statistics of its percentage errors. For revenue only the
    winter baselines count. */
module Summary {
  import opened Tables
  import opened Seqs
  import Statistics
  import Errors

  /** The group-by columns (`group_cols`). */
  datatype GroupKey = GroupKey(
    component: Component,
    category: string,
    subcategory: string,
    projectedYearNumber: int)

  /** `projection_year_range`: the first and last projected fiscal year of a group. */
  datatype YearRange = YearRange(first: int, last: int)

  /** One row of the summary: the group, its year range and its statistics
      (`number_of_projections`, `average_error`, `average_absolute_error`,
      the square of `RMSE`, `two_thirds_spread`). */
  datatype SummaryRow = SummaryRow(key: GroupKey, projectionYearRange: YearRange, stats: Statistics.Moments)

  function KeyOf(e: Errors.ErrorRow): GroupKey
  {
    var b := e.merged.fact.baseline;
    GroupKey(b.component, b.category, b.subcategory, b.projectedYearNumber)
  }

  function KeysOf(rows: seq<Errors.ErrorRow>): (ks: seq<GroupKey>)
    ensures forall k :: k in ks <==> exists e :: e in rows && KeyOf(e) == k
  {
    if rows == [] then []
    else
      assert rows == [rows[0]] + rows[1..];
      [KeyOf(rows[0])] + KeysOf(rows[1..])
  }

  /** The row carries the error column the summary of component `c` reads
      (`error_col`): the percent of GDP for deficit and debt, the percent of
      the actual otherwise. */
  predicate HasErrorColumn(e: Errors.ErrorRow, c: Component)
  {
    e.errorPct.PctGdp? == Errors.UsesGdp(c)
  }

  /** For revenue only rows of winter baselines enter the summary. */
  predicate Contributes(e: Errors.ErrorRow, c: Component)
  {
    c != Revenue || e.merged.fact.baseline.winterFlag
  }

  function Contributing(errors: seq<Errors.ErrorRow>, c: Component): (rows: seq<Errors.ErrorRow>)
    ensures forall e :: e in rows <==> e in errors && (c == Revenue ==> e.merged.fact.baseline.winterFlag)
    ensures forall e :: multiset(rows)[e] == if Contributes(e, c) then multiset(errors)[e] else 0
  {
    Filter(errors, (e: Errors.ErrorRow) => Contributes(e, c))
  }

  /** The rows of one group, in table order. */
  function GroupRows(rows: seq<Errors.ErrorRow>, k: GroupKey): (g: seq<Errors.ErrorRow>)
    ensures forall e :: e in g <==> e in rows && KeyOf(e) == k
    ensures forall e :: multiset(g)[e] == if KeyOf(e) == k then multiset(rows)[e] else 0
  {
    Filter(rows, (e: Errors.ErrorRow) => KeyOf(e) == k)
  }

  /** The error percentage column of `rows`, missing cells included. */
  function ErrorColumn(rows: seq<Errors.ErrorRow>): seq<Option<real>>
  {
    seq(|rows|, i requires 0 <= i < |rows| => rows[i].errorPct.pct)
  }

  /** The non-missing error percentages of `rows`, in order: each value as
      often as it occurs in the column, and as many values as the column has
      cells that are not missing. */
  function Defined(rows: seq<Errors.ErrorRow>): (xs: seq<real>)
    ensures |xs| <= |rows|
    ensures |xs| == |rows| <==> forall e :: e in rows ==> e.errorPct.pct.Some?
    ensures forall x :: x in xs <==> exists e :: e in rows && e.errorPct.pct == Some(x)
    ensures forall x :: multiset(xs)[x] == multiset(ErrorColumn(rows))[Some(x)]
    ensures |xs| == |rows| - multiset(ErrorColumn(rows))[None]
  {
    if rows == [] then []
    else
      assert rows == [rows[0]] + rows[1..];
      assert multiset(ErrorColumn(rows)) == multiset{rows[0].errorPct.pct} + multiset(ErrorColumn(rows[1..])) by {
        assert ErrorColumn(rows) == [rows[0].errorPct.pct] + ErrorColumn(rows[1..]);
      }
      var rest := Defined(rows[1..]);
      var p := rows[0].errorPct.pct;
      if p.Some? then
        assert multiset([p.value] + rest) == multiset{p.value} + multiset(rest);
        [p.value] + rest
      else rest
  }

  function MinYear(years: seq<int>): (m: int)
    requires years != []
    ensures m in years && forall y :: y in years ==> m <= y
  {
    if |years| == 1 then years[0]
    else
      assert years == [years[0]] + years[1..];
      var rest := MinYear(years[1..]);
      if years[0] <= rest then years[0] else rest
  }

  function MaxYear(years: seq<int>): (m: int)
    requires years != []
    ensures m in years && forall y :: y in years ==> y <= m
  {
    if |years| == 1 then years[0]
    else
      assert years == [years[0]] + years[1..];
      var rest := MaxYear(years[1..]);
      if years[0] >= rest then years[0] else rest
  }

  function YearsOf(rows: seq<Errors.ErrorRow>): (ys: seq<int>)
    ensures |ys| == |rows|
    ensures forall i :: 0 <= i < |rows| ==> ys[i] == rows[i].merged.fact.baseline.projectedFiscalYear
  {
    seq(|rows|, i requires 0 <= i < |rows| => rows[i].merged.fact.baseline.projectedFiscalYear)
  }

  /** `projection_year_range` of a group: its earliest and latest projected
      fiscal year. */
  function YearRangeOf(g: seq<Errors.ErrorRow>): (r: YearRange)
    requires g != []
    ensures exists e :: e in g && e.merged.fact.baseline.projectedFiscalYear == r.first
    ensures exists e :: e in g && e.merged.fact.baseline.projectedFiscalYear == r.last
    ensures forall e :: e in g ==> r.first <= e.merged.fact.baseline.projectedFiscalYear <= r.last
  {
    var years := YearsOf(g);
    var first, last := MinYear(years), MaxYear(years);
    assert forall e :: e in g ==> first <= e.merged.fact.baseline.projectedFiscalYear <= last by {
      forall e | e in g ensures first <= e.merged.fact.baseline.projectedFiscalYear <= last {
        var i :| 0 <= i < |g| && g[i] == e;
        assert years[i] in years;
      }
    }
    assert exists e :: e in g && e.merged.fact.baseline.projectedFiscalYear == first by {
      var i :| 0 <= i < |years| && years[i] == first;
      assert g[i] in g;
    }
    assert exists e :: e in g && e.merged.fact.baseline.projectedFiscalYear == last by {
      var i :| 0 <= i < |years| && years[i] == last;
      assert g[i] in g;
    }
    YearRange(first, last)
  }

  /** The summary row of the observed group `k`, whose rows are `g`. */
  function SummaryOf(k: GroupKey, g: seq<Errors.ErrorRow>): SummaryRow
    requires g != []
  {
    SummaryRow(k, YearRangeOf(g), Statistics.Describe(Defined(g)))
  }

  /** The observed groups of `rows`: each key once, in order of first occurrence. */
  function ObservedKeys(rows: seq<Errors.ErrorRow>): (keys: seq<GroupKey>)
    ensures NoDuplicates(keys)
    ensures forall e :: e in rows ==> KeyOf(e) in keys
    ensures forall k :: k in keys ==> GroupRows(rows, k) != []
  {
    var keys := Distinct(KeysOf(rows));
    assert forall k :: k in keys ==> GroupRows(rows, k) != [] by {
      forall k | k in keys ensures GroupRows(rows, k) != [] {
        var e :| e in rows && KeyOf(e) == k;
        assert e in GroupRows(rows, k);
      }
    }
    keys
  }

  /** The summary rows of the groups `keys` of `rows`, in that order. */
  function Summaries(rows: seq<Errors.ErrorRow>, keys: seq<GroupKey>): (t: seq<SummaryRow>)
    requires forall k :: k in keys ==> GroupRows(rows, k) != []
    ensures |t| == |keys|
    ensures forall i :: 0 <= i < |t| ==> t[i].key == keys[i]
    ensures forall i :: 0 <= i < |t| ==> t[i] == SummaryOf(keys[i], GroupRows(rows, keys[i]))
  {
    if keys == [] then []
    else [SummaryOf(keys[0], GroupRows(rows, keys[0]))] + Summaries(rows, keys[1..])
  }

  lemma KeysCovered(rows: seq<Errors.ErrorRow>, keys: seq<GroupKey>, t: seq<SummaryRow>)
    requires |t| == |keys| && forall i :: 0 <= i < |t| ==> t[i].key == keys[i]
    requires forall e :: e in rows ==> KeyOf(e) in keys
    ensures forall e :: e in rows ==> exists i :: 0 <= i < |t| && t[i].key == KeyOf(e)
  {
    forall e | e in rows ensures exists i :: 0 <= i < |t| && t[i].key == KeyOf(e) {
      var i :| 0 <= i < |keys| && keys[i] == KeyOf(e);
      assert t[i].key == KeyOf(e);
    }
  }

  /** One summary row per observed group of `rows`. */
  function SummaryTable(rows: seq<Errors.ErrorRow>): (t: seq<SummaryRow>)
    ensures forall i, j :: 0 <= i < j < |t| ==> t[i].key != t[j].key
    ensures forall e :: e in rows ==> exists i :: 0 <= i < |t| && t[i].key == KeyOf(e)
    ensures forall i :: 0 <= i < |t| ==>
      GroupRows(rows, t[i].key) != [] && t[i] == SummaryOf(t[i].key, GroupRows(rows, t[i].key))
  {
    var keys := ObservedKeys(rows);
    var t := Summaries(rows, keys);
    assert forall i :: 0 <= i < |t| ==>
      GroupRows(rows, t[i].key) != [] && t[i] == SummaryOf(t[i].key, GroupRows(rows, t[i].key)) by {
      forall i | 0 <= i < |t|
        ensures GroupRows(rows, t[i].key) != [] && t[i] == SummaryOf(t[i].key, GroupRows(rows, t[i].key))
      {
        var k := keys[i];
        assert k in keys;
        assert t[i].key == k;
      }
    }
    KeysCovered(rows, keys, t);
    t
  }

  /** `calc_summary_stats`: one summary row per observed group of the
      contributing rows. Selecting the error column fails when a row does not
      carry it. */
  function CalcSummaryStats(errors: seq<Errors.ErrorRow>, c: Component): (r: Result<seq<SummaryRow>>)
    ensures r.Failure? <==> exists i :: 0 <= i < |errors| && !HasErrorColumn(errors[i], c)
    ensures r.Success? ==> forall i, j :: 0 <= i < j < |r.value| ==> r.value[i].key != r.value[j].key
    ensures r.Success? ==> forall e :: e in errors && Contributes(e, c) ==>
      exists i :: 0 <= i < |r.value| && r.value[i].key == KeyOf(e)
    ensures r.Success? ==> forall i :: 0 <= i < |r.value| ==>
      && GroupRows(Contributing(errors, c), r.value[i].key) != []
      && r.value[i] == SummaryOf(r.value[i].key, GroupRows(Contributing(errors, c), r.value[i].key))
  {
    if exists i :: 0 <= i < |errors| && !HasErrorColumn(errors[i], c) then
      Failure("KeyError: " + if Errors.UsesGdp(c) then "projection_error_pct_GDP" else "projection_error_pct_actual")
    else
      Success(SummaryTable(Contributing(errors, c)))
  }

  /** What the summary row of a group says about it: the count is the number
      of rows with a defined error, the statistics are defined exactly when
      one is, the mean absolute error bounds the mean error, its square is at
      most the mean squared error, the spread is not negative, and the year
      range spans the group's projected fiscal years. */
  lemma SummaryOfGroup(k: GroupKey, g: seq<Errors.ErrorRow>)
    requires g != []
    ensures var s := SummaryOf(k, g);
      && s.stats.count <= |g|
      && s.stats.count == |g| - multiset(ErrorColumn(g))[None]
      && (s.stats.count == |g| <==> forall e :: e in g ==> e.errorPct.pct.Some?)
      && (s.stats.mean.Some? <==> exists e :: e in g && e.errorPct.pct.Some?)
      && (s.stats.mean.Some? ==>
          && Statistics.Abs(s.stats.mean.value) <= s.stats.meanAbs.value
          && Statistics.Times(s.stats.meanAbs.value, s.stats.meanAbs.value) <= s.stats.meanSquare.value
          && s.stats.spread.value >= 0.0)
      && (forall e :: e in g ==>
          s.projectionYearRange.first <= e.merged.fact.baseline.projectedFiscalYear <= s.projectionYearRange.last)
  {
    var values := Defined(g);
    if values != [] {
      assert values[0] in values;
    }
  }

  /** A revenue row of a baseline that is not a winter baseline changes
      nothing in the revenue summary. */
  lemma {:induction false} NonWinterRevenueIgnored(errors: seq<Errors.ErrorRow>, e: Errors.ErrorRow)
    requires !e.merged.fact.baseline.winterFlag && HasErrorColumn(e, Revenue)
    ensures CalcSummaryStats(errors + [e], Revenue) == CalcSummaryStats(errors, Revenue)
  {
    assert Contributing(errors + [e], Revenue) == Contributing(errors, Revenue) by {
      var keep := (x: Errors.ErrorRow) => Contributes(x, Revenue);
      FilterAppend(errors, [e], keep);
      assert Filter([e], keep) == [];
      assert Filter(errors + [e], keep) == Filter(errors, keep);
    }
    assert (exists i :: 0 <= i < |errors + [e]| && !HasErrorColumn((errors + [e])[i], Revenue))
       <==> (exists i :: 0 <= i < |errors| && !HasErrorColumn(errors[i], Revenue)) by {
      forall i | 0 <= i < |errors| ensures (errors + [e])[i] == errors[i] { }
      assert (errors + [e])[|errors|] == e;
    }
  }
}

/** Projection errors (`calc_errors`): each merged row gets its projection
    adjusted by the legislative changes enacted after the baseline, the
    signed error of that adjusted projection against the actual, and the
    error as a percent of GDP (deficit and debt) or of the actual (outlay and
    revenue). */
module Errors {
  import opened Tables
  import LegAggregation
  import Merge

  /** The column the adjustment is read from: `legislative_<component>_change`. */
  function LegislativeColumn(c: Component): (col: string)
    ensures c != Debt ==> col == LegLabel(c)
    ensures c == Debt ==> col == LegAggregation.DebtChangeColumn
  {
    var col := "legislative_" + ComponentName(c) + "_change";
    assert c == Outlay ==> col == "legislative_outlay_change";
    assert c == Revenue ==> col == "legislative_revenue_change";
    assert c == Deficit ==> col == "legislative_deficit_change";
    assert c == Debt ==> col == "legislative_debt_change";
    col
  }

  /** The column name built from the component agrees with the column the
      aggregation stage wrote: the per-component label for outlay, revenue and
      deficit, and for debt the cumulative column rather than the deficit one. */
  lemma LegislativeColumnWritten(c: Component)
    ensures c != Debt ==> LegislativeColumn(c) == LegLabel(c)
    ensures LegislativeColumn(Debt) == LegAggregation.DebtChangeColumn
    ensures LegislativeColumn(Debt) != LegLabel(Debt)
  {
  }

  /** The percentage column a row gets, by its name. */
  datatype ErrorPct =
    | PctGdp(pct: Option<real>)     // projection_error_pct_GDP
    | PctActual(pct: Option<real>)  // projection_error_pct_actual

  /** A merged row with the columns `calc_errors` adds. */
  datatype ErrorRow = ErrorRow(
    merged: MergedRow,
    adjustedProjection: real,
    projectionError: real,
    errorPct: ErrorPct)

  predicate UsesGdp(c: Component)
  {
    c == Deficit || c == Debt
  }

  /** The error columns of one row. The error is adjusted minus actual, with
      the sign reversed for the deficit; the percentage divides it by GDP for
      deficit and debt and by the actual otherwise. */
  function ErrorRowOf(m: MergedRow, c: Component): (e: ErrorRow)
    requires LegislativeColumn(c) in m.legislative
    ensures e.merged == m
    ensures e.adjustedProjection - m.fact.baseline.value == m.legislative[LegislativeColumn(c)]
    ensures e.projectionError == 0.0 <==> e.adjustedProjection == m.fact.actualValue
    ensures c != Deficit ==> (e.projectionError > 0.0 <==> e.adjustedProjection > m.fact.actualValue)
    ensures c == Deficit ==> (e.projectionError > 0.0 <==> e.adjustedProjection < m.fact.actualValue)
    ensures c != Deficit ==> e.projectionError + m.fact.actualValue == e.adjustedProjection
    ensures c == Deficit ==> e.projectionError + e.adjustedProjection == m.fact.actualValue
    ensures e.errorPct.PctGdp? <==> UsesGdp(c)
    ensures e.errorPct.pct.Some? <==>
      if UsesGdp(c) then m.fact.gdp.Some? && m.fact.gdp.value != 0.0 else m.fact.actualValue != 0.0
    ensures e.errorPct.pct.Some? ==>
      e.errorPct.pct.value * (if UsesGdp(c) then m.fact.gdp.value else m.fact.actualValue)
      == e.projectionError * 100.0
  {
    var adjusted := m.fact.baseline.value + m.legislative[LegislativeColumn(c)];
    var raw := adjusted - m.fact.actualValue;
    var error := if c == Deficit then -raw else raw;
    var pct := if UsesGdp(c) then PctGdp(PercentOf(error, m.fact.gdp))
               else PctActual(PercentOf(error, Some(m.fact.actualValue)));
    ErrorRow(m, adjusted, error, pct)
  }

  /** `calc_errors`: the error columns for every row, in row order. Reading
      the legislative column fails when a row does not have it. */
  function CalcErrors(rows: seq<MergedRow>, c: Component): (r: Result<seq<ErrorRow>>)
    ensures r.Failure? <==> exists i :: 0 <= i < |rows| && LegislativeColumn(c) !in rows[i].legislative
    ensures r.Success? ==> |r.value| == |rows|
    ensures r.Success? ==> forall i :: 0 <= i < |rows| ==> r.value[i].merged == rows[i]
    ensures r.Success? ==> forall i :: 0 <= i < |rows| ==>
      LegislativeColumn(c) in rows[i].legislative && r.value[i] == ErrorRowOf(rows[i], c)
  {
    if forall i :: 0 <= i < |rows| ==> LegislativeColumn(c) in rows[i].legislative then
      Success(seq(|rows|, i requires 0 <= i < |rows| => ErrorRowOf(rows[i], c)))
    else
      Failure("KeyError: " + LegislativeColumn(c))
  }

  /** Every row has exactly one percentage column, and which one depends only
      on the component. */
  lemma {:induction false} OnePercentColumn(rows: seq<MergedRow>, c: Component)
    requires CalcErrors(rows, c).Success?
    ensures forall e :: e in CalcErrors(rows, c).value ==> (e.errorPct.PctGdp? <==> UsesGdp(c))
    ensures forall e :: e in CalcErrors(rows, c).value ==> (e.errorPct.PctActual? <==> !UsesGdp(c))
  {
    var es := CalcErrors(rows, c).value;
    forall e | e in es ensures e.errorPct.PctGdp? <==> UsesGdp(c) {
      var i :| 0 <= i < |es| && es[i] == e;
      assert e == ErrorRowOf(rows[i], c);
    }
  }

  /** A projection of 100 with no legislative change against an actual of 90
      is an error of -10 for the deficit and +10 for the other components. */
  lemma DeficitErrorSign(f: FactRow)
    requires f.baseline.value == 100.0 && f.actualValue == 90.0
    ensures ErrorRowOf(MergedRow(f, map[LegislativeColumn(Deficit) := 0.0]), Deficit).projectionError == -10.0
    ensures ErrorRowOf(MergedRow(f, map[LegislativeColumn(Outlay) := 0.0]), Outlay).projectionError == 10.0
  {
  }

  /** The rows `merge_data` produces always carry the column `calc_errors`
      reads, so the error stage succeeds on them. */
  lemma {:induction false} ErrorsOfMergedData(dfs: Merge.Inputs, c: Component, rows: seq<MergedRow>)
    requires multiset(rows) == multiset(Merge.MergedFacts(dfs, c))
    ensures CalcErrors(rows, c).Success?
  {
    forall i | 0 <= i < |rows| ensures LegislativeColumn(c) in rows[i].legislative {
      assert rows[i] in multiset(Merge.MergedFacts(dfs, c));
      Merge.MergedRowProvenance(dfs, c, rows[i]);
      LegislativeColumnWritten(c);
    }
  }

  /** End to end: the adjusted projection of a merged row is its baseline
      value plus the legislative changes of its key enacted after the
      baseline; for debt, plus the negated deficit changes of the
      baseline's projection years up to this one. */
  lemma {:induction false} AdjustedProjectionOfMergedRow(dfs: Merge.Inputs, c: Component, m: MergedRow)
    requires m in Merge.MergedFacts(dfs, c)
    ensures LegislativeColumn(c) in m.legislative
    ensures c != Debt ==>
      ErrorRowOf(m, c).adjustedProjection
      == m.fact.baseline.value + LegAggregation.SumFor(Merge.LegJoined(dfs, c), FactKey(m.fact))
    ensures c == Debt ==>
      ErrorRowOf(m, c).adjustedProjection
      == m.fact.baseline.value
         + LegAggregation.RawDebtChange(Merge.LegJoined(dfs, c), LegAggregation.BaselineYear(FactKey(m.fact)),
                                        m.fact.baseline.projectedYearNumber)
  {
    Merge.MergedRowProvenance(dfs, c, m);
    LegislativeColumnWritten(c);
  }
}

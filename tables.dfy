/** Row types of the projection-error pipeline and the cell operations
    (GDP look-up, percentages) that several stages share.

    Every table is a sequence of rows; a missing cell (a left join without a
    partner, a division by a missing or zero denominator) is `None`. Dates are
    already-parsed day numbers, so comparing two dates is comparing two ints. */
module Tables {
  import opened Seqs

  datatype Option<+T> = None | Some(value: T)

  /** A computation that either produces a value or fails with a message. */
  datatype Result<+T> = Success(value: T) | Failure(error: string)

  /** The four budgetary components the pipeline evaluates. */
  datatype Component = Outlay | Revenue | Deficit | Debt

  /** The component as it is spelled in the tables' `component` column. */
  function ComponentName(c: Component): string
  {
    match c
    case Outlay => "outlay"
    case Revenue => "revenue"
    case Deficit => "deficit"
    case Debt => "debt"
  }

  /** The subcategory excluded from every output table. */
  const FannieFreddie := "Fannie Freddie"

  /** The name the legislative change column gets when the changes are
      extracted for component `c` (`leg_labels`). Debt reuses the deficit name. */
  function LegLabel(c: Component): string
  {
    match c
    case Revenue => "legislative_revenue_change"
    case Outlay => "legislative_outlay_change"
    case Deficit => "legislative_deficit_change"
    case Debt => "legislative_deficit_change"
  }

  /** Actual outcome: one value per (component, category, subcategory, fiscal year). */
  datatype ActualRow = ActualRow(
    component: Component,
    category: string,
    subcategory: string,
    fiscalYear: int,
    actualValue: real)

  /** Baseline projection of one fiscal year, made `projectedYearNumber`
      years ahead, by the baseline released on `baselineDate`. */
  datatype BaselineRow = BaselineRow(
    component: Component,
    category: string,
    subcategory: string,
    projectedFiscalYear: int,
    projectedYearNumber: int,
    winterFlag: bool,
    springFlag: bool,
    baselineDate: int,
    value: real)

  /** Change to the projection of one fiscal year, made by the baseline
      released on `changesBaselineDate`. `changeCategory` is Legislative,
      Economic or Technical. */
  datatype ChangeRow = ChangeRow(
    component: Component,
    category: string,
    subcategory: string,
    projectedFiscalYear: int,
    changeCategory: string,
    changesBaselineDate: int,
    value: real)

  datatype GdpRow = GdpRow(fiscalYear: int, gdp: real)

  /** A baseline row joined with the actual of the year it projects. */
  datatype BaselineActual = BaselineActual(baseline: BaselineRow, actualValue: real)

  /** A baseline row joined with its actual and (when there is one) the GDP of that year. */
  datatype FactRow = FactRow(baseline: BaselineRow, actualValue: real, gdp: Option<real>)

  /** A row of the right join of fact rows onto legislative changes: every
      change is kept, and `fact` is `None` when no fact row matches it. */
  datatype LegJoinRow = LegJoinRow(fact: Option<FactRow>, change: ChangeRow)

  /** The columns legislative changes are summed over (`agg_cols`). */
  datatype AggKey = AggKey(
    component: Component,
    category: string,
    subcategory: string,
    projectedFiscalYear: int,
    projectedYearNumber: int)

  /** A row of the aggregated legislative changes: its key and its
      legislative columns, by column name. */
  datatype AggRow = AggRow(key: AggKey, legislative: map<string, real>)

  /** A fact row with the legislative columns of its aggregated changes. */
  datatype MergedRow = MergedRow(fact: FactRow, legislative: map<string, real>)

  /** The `agg_cols` key of a fact row. */
  function FactKey(f: FactRow): AggKey
  {
    AggKey(f.baseline.component, f.baseline.category, f.baseline.subcategory,
           f.baseline.projectedFiscalYear, f.baseline.projectedYearNumber)
  }

  ghost predicate HasGdp(year: int, gdp: seq<GdpRow>)
  {
    exists g :: g in gdp && g.fiscalYear == year
  }

  /** The GDP values recorded for `year`, in table order. */
  function GdpOfYear(year: int, gdp: seq<GdpRow>): (m: seq<real>)
    ensures forall v :: multiset(m)[v] == multiset(gdp)[GdpRow(year, v)]
    ensures forall v :: v in m ==> GdpRow(year, v) in gdp
    ensures forall g :: g in gdp && g.fiscalYear == year ==> g.gdp in m
  {
    if gdp == [] then []
    else
      var rest := GdpOfYear(year, gdp[1..]);
      assert gdp == [gdp[0]] + gdp[1..];
      if gdp[0].fiscalYear == year then
        assert multiset([gdp[0].gdp] + rest) == multiset{gdp[0].gdp} + multiset(rest);
        [gdp[0].gdp] + rest
      else rest
  }

  /** The GDP cells a row of `year` receives in a left join on the fiscal
      year: one per GDP row of that year, with its multiplicity, or a single
      missing cell. */
  function GdpCells(year: int, gdp: seq<GdpRow>): (cells: seq<Option<real>>)
    ensures |cells| > 0
    ensures !HasGdp(year, gdp) <==> cells == [None]
    ensures HasGdp(year, gdp) ==> None !in cells
    ensures forall v :: multiset(cells)[Some(v)] == multiset(gdp)[GdpRow(year, v)]
    ensures forall o :: o in cells && o.Some? ==> GdpRow(year, o.value) in gdp
    ensures forall g :: g in gdp && g.fiscalYear == year ==> Some(g.gdp) in cells
  {
    var m := GdpOfYear(year, gdp);
    if m == [] then [None]
    else
      var cells := Map(m, (v: real) => Some(v));
      assert HasGdp(year, gdp) by { assert GdpRow(year, m[0]) in gdp; }
      forall v ensures multiset(cells)[Some(v)] == multiset(gdp)[GdpRow(year, v)] {
        MapCount(m, (v: real) => Some(v), CellValue, Some(v));
      }
      cells
  }

  /** The value of a cell, with 0.0 standing in for a missing one. */
  function CellValue(o: Option<real>): real
  {
    if o.Some? then o.value else 0.0
  }

  /** How often a left join on the fiscal year pairs a row of `year` with
      the GDP cell `cell`: once per GDP row of that year and value, and a
      missing cell once exactly when the year has no GDP row. */
  ghost function CellCopies(year: int, gdp: seq<GdpRow>, cell: Option<real>): nat
  {
    if cell.Some? then multiset(gdp)[GdpRow(year, cell.value)]
    else if HasGdp(year, gdp) then 0
    else 1
  }

  lemma GdpCellsCount(year: int, gdp: seq<GdpRow>, cell: Option<real>)
    ensures multiset(GdpCells(year, gdp))[cell] == CellCopies(year, gdp, cell)
  {
    var cells := GdpCells(year, gdp);
    if cell.None? && !HasGdp(year, gdp) {
      assert cells == [None];
    }
  }

  /** `numerator / denominator * 100`; undefined when the denominator is
      missing or zero (where the source would produce NaN or infinity). */
  function PercentOf(numerator: real, denominator: Option<real>): (p: Option<real>)
    ensures p.Some? <==> denominator.Some? && denominator.value != 0.0
    ensures p.Some? ==> p.value * denominator.value == numerator * 100.0
  {
    if denominator.Some? && denominator.value != 0.0 then
      var d := denominator.value;
      assert numerator / d * 100.0 * d == numerator * 100.0 by {
        assert numerator / d * d == numerator;
      }
      Some(numerator / d * 100.0)
    else None
  }
}

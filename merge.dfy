/** The merge engine (`src/merge.py`): from actuals, baselines, changes and
    GDP to the sorted table of baseline projections of one component joined
    with their actuals, GDP and the legislative changes enacted after them. */
module Merge {
  import opened Tables
  import opened Seqs
  import LegAggregation
  import Ordering

  /** The release a baseline comes from. */
  datatype Season = Winter | Spring

  /** The release a component's projections are evaluated from
      (`which_baseline`): Winter for revenue, Spring for the others. */
  function BaselineSeason(c: Component): (s: Season)
    ensures s == Winter <==> c == Revenue
  {
    if c == Revenue then Winter else Spring
  }

  predicate IsRelevantBaseline(b: BaselineRow, c: Component)
  {
    b.component == c && match BaselineSeason(c) {
      case Winter => b.winterFlag
      case Spring => b.springFlag
    }
  }

  /** `get_relevant_baselines`: the baselines of component `c` from its season. */
  function GetRelevantBaselines(baselines: seq<BaselineRow>, c: Component): (r: seq<BaselineRow>)
    ensures forall b :: multiset(r)[b] == (
                if b.component == c && (if c == Revenue then b.winterFlag else b.springFlag)
                then multiset(baselines)[b] else 0)
    ensures IsSubsequence(r, baselines)
  {
    Filter(baselines, b => IsRelevantBaseline(b, c))
  }

  /** The join condition of baselines and actuals. */
  predicate ActualMatches(b: BaselineRow, a: ActualRow)
  {
    a.component == b.component && a.category == b.category
    && a.subcategory == b.subcategory && a.fiscalYear == b.projectedFiscalYear
  }

  /** The actual a joined row was made from. */
  function JoinedActual(x: BaselineActual): ActualRow
  {
    ActualRow(x.baseline.component, x.baseline.category, x.baseline.subcategory,
              x.baseline.projectedFiscalYear, x.actualValue)
  }

  /** The rows one baseline contributes to the inner join: one per matching
      actual, in the actuals' order. */
  function ActualsFor(b: BaselineRow, actuals: seq<ActualRow>): (r: seq<BaselineActual>)
    ensures forall x :: x in r <==>
      x.baseline == b && ActualRow(b.component, b.category, b.subcategory, b.projectedFiscalYear, x.actualValue) in actuals
  {
    if actuals == [] then []
    else
      var a := actuals[0];
      assert actuals == [a] + actuals[1..];
      (if ActualMatches(b, a) then [BaselineActual(b, a.actualValue)] else [])
      + ActualsFor(b, actuals[1..])
  }

  /** `merge_baselines_actuals`: inner join of baselines with the actual of
      the year they project; a baseline without an actual is dropped. Each
      joined row occurs once per copy of its baseline and per copy of its
      actual (`MergeBaselinesActualsCount`). */
  function MergeBaselinesActuals(baselines: seq<BaselineRow>, actuals: seq<ActualRow>): (r: seq<BaselineActual>)
    ensures forall x :: x in r <==>
      x.baseline in baselines
      && ActualRow(x.baseline.component, x.baseline.category, x.baseline.subcategory,
                   x.baseline.projectedFiscalYear, x.actualValue) in actuals
  {
    if baselines == [] then []
    else
      assert baselines == [baselines[0]] + baselines[1..];
      ActualsFor(baselines[0], actuals) + MergeBaselinesActuals(baselines[1..], actuals)
  }

  /** A baseline contributes a joined row once per copy of its actual. */
  lemma {:induction false} ActualsForCount(b: BaselineRow, actuals: seq<ActualRow>, x: BaselineActual)
    ensures multiset(ActualsFor(b, actuals))[x] == if x.baseline == b then multiset(actuals)[JoinedActual(x)] else 0
  {
    if actuals != [] {
      var a := actuals[0];
      assert actuals == [a] + actuals[1..];
      ActualsForCount(b, actuals[1..], x);
      assert multiset(actuals) == multiset{a} + multiset(actuals[1..]);
    }
  }

  /** Each row of the inner join of baselines and actuals occurs once per
      copy of its baseline and per copy of its actual. */
  lemma {:induction false} MergeBaselinesActualsCount(baselines: seq<BaselineRow>, actuals: seq<ActualRow>, x: BaselineActual)
    ensures multiset(MergeBaselinesActuals(baselines, actuals))[x]
            == multiset(baselines)[x.baseline] * multiset(actuals)[JoinedActual(x)]
  {
    if baselines != [] {
      var b := baselines[0];
      assert MergeBaselinesActuals(baselines, actuals)
             == ActualsFor(b, actuals) + MergeBaselinesActuals(baselines[1..], actuals);
      MergeBaselinesActualsCount(baselines[1..], actuals, x);
      ActualsForCount(b, actuals, x);
      CountOfCons(baselines, x.baseline);
      AddCopies(multiset(ActualsFor(b, actuals) + MergeBaselinesActuals(baselines[1..], actuals))[x],
                multiset(ActualsFor(b, actuals))[x], multiset(MergeBaselinesActuals(baselines[1..], actuals))[x],
                b == x.baseline, multiset(baselines[1..])[x.baseline], multiset(actuals)[JoinedActual(x)]);
    }
  }

  /** The fact rows one baseline-actual row yields with the given GDP cells. */
  function WithGdp(x: BaselineActual, cells: seq<Option<real>>): (r: seq<FactRow>)
    ensures forall f :: f in r <==>
      f.baseline == x.baseline && f.actualValue == x.actualValue && f.gdp in cells
  {
    Map(cells, (o: Option<real>) => FactRow(x.baseline, x.actualValue, o))
  }

  /** The baseline-actual row a fact row was made from. */
  function BaselineActualOf(f: FactRow): BaselineActual
  {
    BaselineActual(f.baseline, f.actualValue)
  }

  /** A fact row occurs once per copy of its GDP cell among the cells of its
      own baseline-actual row, and never among those of another. */
  lemma WithGdpCount(x: BaselineActual, cells: seq<Option<real>>, f: FactRow)
    ensures multiset(WithGdp(x, cells))[f] == if BaselineActualOf(f) == x then multiset(cells)[f.gdp] else 0
  {
    MapCount(cells, (o: Option<real>) => FactRow(x.baseline, x.actualValue, o), (g: FactRow) => g.gdp, f);
  }

  /** `merge_on_GDP`: left join on the projected fiscal year; every row is
      kept, with the GDP of that year or a missing GDP. */
  function MergeOnGdp(rows: seq<BaselineActual>, gdp: seq<GdpRow>): (r: seq<FactRow>)
    ensures |r| >= |rows|
    ensures forall f :: f in r ==> BaselineActual(f.baseline, f.actualValue) in rows
    ensures forall f :: f in r && f.gdp.Some? ==> GdpRow(f.baseline.projectedFiscalYear, f.gdp.value) in gdp
    ensures forall f :: f in r && f.gdp.None? ==> !HasGdp(f.baseline.projectedFiscalYear, gdp)
    ensures forall x, g :: x in rows && g in gdp && g.fiscalYear == x.baseline.projectedFiscalYear ==>
      FactRow(x.baseline, x.actualValue, Some(g.gdp)) in r
    ensures forall x :: x in rows && !HasGdp(x.baseline.projectedFiscalYear, gdp) ==>
      FactRow(x.baseline, x.actualValue, None) in r
  {
    if rows == [] then []
    else
      var x := rows[0];
      assert rows == [x] + rows[1..];
      WithGdp(x, GdpCells(x.baseline.projectedFiscalYear, gdp)) + MergeOnGdp(rows[1..], gdp)
  }

  /** Each fact row occurs as many times as its baseline-actual row times
      the copies of its GDP cell: once per GDP row of its year and value, and
      with a missing GDP exactly once per row when the year has no GDP. */
  lemma {:induction false} MergeOnGdpCount(rows: seq<BaselineActual>, gdp: seq<GdpRow>, f: FactRow)
    ensures multiset(MergeOnGdp(rows, gdp))[f]
            == multiset(rows)[BaselineActualOf(f)] * CellCopies(f.baseline.projectedFiscalYear, gdp, f.gdp)
  {
    if rows != [] {
      var x := rows[0];
      var year := f.baseline.projectedFiscalYear;
      var cells := GdpCells(x.baseline.projectedFiscalYear, gdp);
      var rest := MergeOnGdp(rows[1..], gdp);
      var here := multiset(WithGdp(x, cells))[f];
      assert here == if x == BaselineActualOf(f) then CellCopies(year, gdp, f.gdp) else 0 by {
        WithGdpCount(x, cells, f);
        GdpCellsCount(year, gdp, f.gdp);
      }
      assert multiset(MergeOnGdp(rows, gdp))[f] == here + multiset(rest)[f] by {
        assert MergeOnGdp(rows, gdp) == WithGdp(x, cells) + rest;
      }
      MergeOnGdpCount(rows[1..], gdp, f);
      CountOfCons(rows, BaselineActualOf(f));
      AddCopies(multiset(MergeOnGdp(rows, gdp))[f], here, multiset(rest)[f],
                x == BaselineActualOf(f), multiset(rows[1..])[BaselineActualOf(f)], CellCopies(year, gdp, f.gdp));
    }
  }

  const LegislativeCategory := "Legislative"

  predicate IsLegislative(ch: ChangeRow)
  {
    ch.changeCategory == LegislativeCategory
  }

  function OfComponent(c: Component): ChangeRow -> bool
  {
    (ch: ChangeRow) => ch.component == c
  }

  /** The changes with their component column overwritten. */
  function Relabel(changes: seq<ChangeRow>, c: Component): (r: seq<ChangeRow>)
    ensures |r| == |changes|
    ensures forall i :: 0 <= i < |r| ==> r[i] == changes[i].(component := c)
  {
    if changes == [] then []
    else [changes[0].(component := c)] + Relabel(changes[1..], c)
  }

  /** `get_leg_changes`: the legislative changes of component `c`; debt
      takes the deficit changes, relabelled as debt. */
  function GetLegChanges(changes: seq<ChangeRow>, c: Component): (r: seq<ChangeRow>)
    ensures forall ch :: ch in r ==> ch.component == c && ch.changeCategory == "Legislative"
    ensures c != Debt ==> forall ch :: multiset(r)[ch] == (
                            if ch.component == c && ch.changeCategory == "Legislative"
                            then multiset(changes)[ch] else 0)
    ensures c == Debt ==> forall ch :: ch in r <==>
      ch.component == Debt && ch.changeCategory == "Legislative" && ch.(component := Deficit) in changes
  {
    if c == Debt then
      var deficits := Filter(changes, OfComponent(Deficit));
      var relabelled := Relabel(deficits, Debt);
      var r := Filter(relabelled, IsLegislative);
      forall ch: ChangeRow | ch.component == Debt && ch.(component := Deficit) in changes ensures ch in relabelled {
        var d := ch.(component := Deficit);
        assert d in deficits;
        var i :| 0 <= i < |deficits| && deficits[i] == d;
        assert relabelled[i] == ch;
      }
      forall ch: ChangeRow | ch in relabelled ensures ch.component == Debt && ch.(component := Deficit) in changes {
        var i :| 0 <= i < |relabelled| && relabelled[i] == ch;
        assert deficits[i] in deficits;
      }
      r
    else
      Filter(Filter(changes, OfComponent(c)), IsLegislative)
  }

  lemma {:induction false} FilterLegislativeRelabel(changes: seq<ChangeRow>, c: Component)
    ensures Filter(Relabel(changes, c), IsLegislative) == Relabel(Filter(changes, IsLegislative), c)
  {
    if changes != [] {
      var ch := changes[0];
      assert Relabel(changes, c)[1..] == Relabel(changes[1..], c);
      FilterLegislativeRelabel(changes[1..], c);
      var rest := Filter(changes[1..], IsLegislative);
      if IsLegislative(ch) {
        assert ([ch] + rest)[1..] == rest;
      }
    }
  }

  /** The debt changes are the deficit changes, in the same order and with
      the same multiplicity, relabelled as debt. */
  lemma DebtChangesAreDeficitChanges(changes: seq<ChangeRow>)
    ensures GetLegChanges(changes, Debt) == Relabel(GetLegChanges(changes, Deficit), Debt)
  {
    FilterLegislativeRelabel(Filter(changes, OfComponent(Deficit)), Debt);
  }

  /** The join condition of fact rows and changes. */
  predicate ChangeMatches(f: FactRow, ch: ChangeRow)
  {
    f.baseline.component == ch.component && f.baseline.category == ch.category
    && f.baseline.subcategory == ch.subcategory && f.baseline.projectedFiscalYear == ch.projectedFiscalYear
  }

  /** The fact rows matching a change, in table order. */
  function FactsFor(facts: seq<FactRow>, ch: ChangeRow): (r: seq<LegJoinRow>)
    ensures forall row :: row in r <==> row.change == ch && row.fact.Some? && row.fact.value in facts && ChangeMatches(row.fact.value, ch)
  {
    if facts == [] then []
    else
      assert facts == [facts[0]] + facts[1..];
      (if ChangeMatches(facts[0], ch) then [LegJoinRow(Some(facts[0]), ch)] else []) + FactsFor(facts[1..], ch)
  }

  /** The right join of fact rows onto changes: every change is kept, once
      per matching fact row, or once with no fact row. */
  function RightJoinChanges(facts: seq<FactRow>, changes: seq<ChangeRow>): (r: seq<LegJoinRow>)
    ensures forall row :: row in r && row.fact.Some? <==>
      row.fact.Some? && row.fact.value in facts && row.change in changes && ChangeMatches(row.fact.value, row.change)
    ensures forall row :: row in r ==> row.change in changes
    ensures forall ch :: ch in changes ==> exists row :: row in r && row.change == ch
    ensures forall row :: row in r && row.fact.None? ==> forall f :: f in facts ==> !ChangeMatches(f, row.change)
  {
    if changes == [] then []
    else
      var ch := changes[0];
      assert changes == [ch] + changes[1..];
      var matches := FactsFor(facts, ch);
      var here := if matches == [] then [LegJoinRow(None, ch)] else matches;
      assert here[0] in here;
      assert matches == [] ==> forall f :: f in facts ==> !ChangeMatches(f, ch) by {
        if matches == [] {
          forall f | f in facts ensures !ChangeMatches(f, ch) {
            assert LegJoinRow(Some(f), ch) !in matches;
          }
        }
      }
      here + RightJoinChanges(facts, changes[1..])
  }

  /** A change is joined with a matching fact row once per copy of it. */
  lemma {:induction false} FactsForCount(facts: seq<FactRow>, ch: ChangeRow, row: LegJoinRow)
    requires row.fact.Some?
    ensures multiset(FactsFor(facts, ch))[row] ==
      if row.change == ch && ChangeMatches(row.fact.value, ch) then multiset(facts)[row.fact.value] else 0
  {
    if facts != [] {
      assert facts == [facts[0]] + facts[1..];
      FactsForCount(facts[1..], ch, row);
      assert multiset(facts) == multiset{facts[0]} + multiset(facts[1..]);
    }
  }

  /** A row of the right join pairing a fact row with a matching change
      occurs once per copy of that fact row and per copy of the change (a
      pair that does not match does not occur at all, by the membership
      clause of `RightJoinChanges`). */
  lemma {:induction false} RightJoinChangesCount(facts: seq<FactRow>, changes: seq<ChangeRow>, row: LegJoinRow)
    requires row.fact.Some? && ChangeMatches(row.fact.value, row.change)
    ensures multiset(RightJoinChanges(facts, changes))[row]
            == multiset(changes)[row.change] * multiset(facts)[row.fact.value]
  {
    if changes != [] {
      var ch := changes[0];
      RightJoinChangesUnfold(facts, changes, row);
      RightJoinChangesCount(facts, changes[1..], row);
      FactsForCount(facts, ch, row);
      CountOfCons(changes, row.change);
      AddCopies(multiset(RightJoinChanges(facts, changes))[row], multiset(FactsFor(facts, ch))[row],
                multiset(RightJoinChanges(facts, changes[1..]))[row],
                ch == row.change, multiset(changes[1..])[row.change], multiset(facts)[row.fact.value]);
    }
  }

  /** The rows of the right join for its first change, then those for the rest. */
  lemma RightJoinChangesUnfold(facts: seq<FactRow>, changes: seq<ChangeRow>, row: LegJoinRow)
    requires changes != [] && row.fact.Some?
    ensures multiset(RightJoinChanges(facts, changes))[row]
            == multiset(FactsFor(facts, changes[0]))[row] + multiset(RightJoinChanges(facts, changes[1..]))[row]
  {
    var matches := FactsFor(facts, changes[0]);
    var first := if matches == [] then [LegJoinRow(None, changes[0])] else matches;
    assert RightJoinChanges(facts, changes) == first + RightJoinChanges(facts, changes[1..]);
    assert multiset(first)[row] == multiset(matches)[row];
  }

  /** The strict date test of `merge_on_leg_changes`; a change without a
      fact row has no baseline date and fails it. */
  predicate PostDatesBaseline(row: LegJoinRow)
  {
    row.fact.Some? && row.change.changesBaselineDate > row.fact.value.baseline.baselineDate
  }

  /** `merge_on_leg_changes`: each fact row with each change to the same
      projection that was published strictly after the fact row's baseline,
      once per copy of the fact row and per copy of the change
      (`MergeOnLegChangesCount`). */
  function MergeOnLegChanges(facts: seq<FactRow>, changes: seq<ChangeRow>): (r: seq<LegJoinRow>)
    ensures forall row :: row in r <==>
      row.fact.Some? && row.fact.value in facts && row.change in changes
      && ChangeMatches(row.fact.value, row.change)
      && row.change.changesBaselineDate > row.fact.value.baseline.baselineDate
  {
    Filter(RightJoinChanges(facts, changes), PostDatesBaseline)
  }

  /** Each row of `merge_on_leg_changes` occurs once per copy of its fact row
      and per copy of its change, and a pair that does not match or whose
      change does not post-date the baseline does not occur at all. */
  lemma MergeOnLegChangesCount(facts: seq<FactRow>, changes: seq<ChangeRow>, row: LegJoinRow)
    ensures multiset(MergeOnLegChanges(facts, changes))[row] ==
      if row.fact.Some? && ChangeMatches(row.fact.value, row.change)
         && row.change.changesBaselineDate > row.fact.value.baseline.baselineDate
      then multiset(facts)[row.fact.value] * multiset(changes)[row.change] else 0
  {
    if row.fact.Some? && ChangeMatches(row.fact.value, row.change) {
      RightJoinChangesCount(facts, changes, row);
      assert multiset(changes)[row.change] * multiset(facts)[row.fact.value]
             == multiset(facts)[row.fact.value] * multiset(changes)[row.change];
    }
  }

  /** The merged rows one fact row yields: one per aggregated row of its key. */
  function AggFor(f: FactRow, agg: seq<AggRow>): (r: seq<MergedRow>)
    ensures forall m :: m in r <==> m.fact == f && AggRow(FactKey(f), m.legislative) in agg
  {
    if agg == [] then []
    else
      assert agg == [agg[0]] + agg[1..];
      (if agg[0].key == FactKey(f) then [MergedRow(f, agg[0].legislative)] else []) + AggFor(f, agg[1..])
  }

  /** `merge_on_agg_leg_changes`: inner join of fact rows and aggregated
      changes on the `agg_cols` key, once per copy of the fact row and per
      copy of the aggregated row (`MergeOnAggLegChangesCount`). */
  function MergeOnAggLegChanges(facts: seq<FactRow>, agg: seq<AggRow>): (r: seq<MergedRow>)
    ensures forall m :: m in r <==> m.fact in facts && AggRow(FactKey(m.fact), m.legislative) in agg
  {
    if facts == [] then []
    else
      assert facts == [facts[0]] + facts[1..];
      AggFor(facts[0], agg) + MergeOnAggLegChanges(facts[1..], agg)
  }

  /** A fact row is joined with an aggregated row of its key once per copy of it. */
  lemma {:induction false} AggForCount(f: FactRow, agg: seq<AggRow>, m: MergedRow)
    ensures multiset(AggFor(f, agg))[m] == if m.fact == f then multiset(agg)[AggRow(FactKey(f), m.legislative)] else 0
  {
    if agg != [] {
      assert agg == [agg[0]] + agg[1..];
      AggForCount(f, agg[1..], m);
      assert multiset(agg) == multiset{agg[0]} + multiset(agg[1..]);
    }
  }

  /** Each merged row occurs once per copy of its fact row and per copy of
      the aggregated row of its key. */
  lemma {:induction false} MergeOnAggLegChangesCount(facts: seq<FactRow>, agg: seq<AggRow>, m: MergedRow)
    ensures multiset(MergeOnAggLegChanges(facts, agg))[m]
            == multiset(facts)[m.fact] * multiset(agg)[AggRow(FactKey(m.fact), m.legislative)]
  {
    if facts != [] {
      var f := facts[0];
      assert MergeOnAggLegChanges(facts, agg) == AggFor(f, agg) + MergeOnAggLegChanges(facts[1..], agg);
      MergeOnAggLegChangesCount(facts[1..], agg, m);
      AggForCount(f, agg, m);
      CountOfCons(facts, m.fact);
      AddCopies(multiset(AggFor(f, agg) + MergeOnAggLegChanges(facts[1..], agg))[m],
                multiset(AggFor(f, agg))[m], multiset(MergeOnAggLegChanges(facts[1..], agg))[m],
                f == m.fact, multiset(facts[1..])[m.fact], multiset(agg)[AggRow(FactKey(m.fact), m.legislative)]);
    }
  }

  predicate IsReported(m: MergedRow)
  {
    m.fact.baseline.subcategory != FannieFreddie && m.fact.baseline.projectedYearNumber != 0
  }

  /** `filter_merged_data`: drops Fannie Freddie rows and year-0 rows. */
  function FilterMergedData(rows: seq<MergedRow>): (r: seq<MergedRow>)
    ensures forall m :: multiset(r)[m] == (
                if m.fact.baseline.subcategory != "Fannie Freddie" && m.fact.baseline.projectedYearNumber != 0
                then multiset(rows)[m] else 0)
    ensures IsSubsequence(r, rows)
  {
    Filter(rows, IsReported)
  }

  /** The four input tables. */
  datatype Inputs = Inputs(
    actuals: seq<ActualRow>,
    baselines: seq<BaselineRow>,
    changes: seq<ChangeRow>,
    gdp: seq<GdpRow>)

  /** The component named by a `component` argument, if it is one of the four. */
  function ParseComponent(name: string): (r: Option<Component>)
    ensures r.Some? <==> name in ["outlay", "revenue", "deficit", "debt"]
    ensures r.Some? ==> ComponentName(r.value) == name
  {
    if name == "outlay" then Some(Outlay)
    else if name == "revenue" then Some(Revenue)
    else if name == "deficit" then Some(Deficit)
    else if name == "debt" then Some(Debt)
    else None
  }

  lemma ParseComponentName(c: Component)
    ensures ParseComponent(ComponentName(c)) == Some(c)
  {
  }

  /** The fact rows of component `c`: relevant baselines with their actuals and GDP. */
  function Facts(dfs: Inputs, c: Component): seq<FactRow>
  {
    MergeOnGdp(MergeBaselinesActuals(GetRelevantBaselines(dfs.baselines, c), dfs.actuals), dfs.gdp)
  }

  /** The fact rows joined with the legislative changes enacted after their baseline. */
  function LegJoined(dfs: Inputs, c: Component): seq<LegJoinRow>
  {
    MergeOnLegChanges(Facts(dfs, c), GetLegChanges(dfs.changes, c))
  }

  /** The rows of `merge_data` before sorting. */
  function MergedFacts(dfs: Inputs, c: Component): (r: seq<MergedRow>)
    ensures forall m :: m in r ==> IsReported(m) && m.fact in Facts(dfs, c)
  {
    var agg := LegAggregation.AggregatedLegChanges(LegJoined(dfs, c), c);
    FilterMergedData(MergeOnAggLegChanges(Facts(dfs, c), agg))
  }

  /** Where a merged row comes from: a relevant baseline of component `c`
      with its actual, whose key received legislation published strictly
      after a baseline of that key; Fannie Freddie and year-0 rows are gone;
      its legislative columns hold the group sum of those changes (for debt,
      the negated sum and the running total of its vintage). */
  lemma MergedRowProvenance(dfs: Inputs, c: Component, m: MergedRow)
    requires m in MergedFacts(dfs, c)
    ensures m.fact in Facts(dfs, c)
    ensures m.fact.baseline in dfs.baselines && m.fact.baseline.component == c
    ensures if c == Revenue then m.fact.baseline.winterFlag else m.fact.baseline.springFlag
    ensures ActualRow(c, m.fact.baseline.category, m.fact.baseline.subcategory,
                      m.fact.baseline.projectedFiscalYear, m.fact.actualValue) in dfs.actuals
    ensures m.fact.baseline.subcategory != "Fannie Freddie" && m.fact.baseline.projectedYearNumber != 0
    ensures exists row :: row in LegJoined(dfs, c) && row.fact.Some? && FactKey(row.fact.value) == FactKey(m.fact)
    ensures LegLabel(c) in m.legislative
    ensures c != Debt ==> m.legislative == map[LegLabel(c) := LegAggregation.SumFor(LegJoined(dfs, c), FactKey(m.fact))]
    ensures c == Debt ==>
      && LegAggregation.DeficitChangeColumn in m.legislative
      && m.legislative[LegAggregation.DeficitChangeColumn] == -LegAggregation.SumFor(LegJoined(dfs, c), FactKey(m.fact))
    ensures c == Debt ==>
      && LegAggregation.DebtChangeColumn in m.legislative
      && m.legislative[LegAggregation.DebtChangeColumn]
         == LegAggregation.RawDebtChange(LegJoined(dfs, c), LegAggregation.BaselineYear(FactKey(m.fact)),
                                         m.fact.baseline.projectedYearNumber)
  {
    var joined := LegJoined(dfs, c);
    var agg := LegAggregation.AggregatedLegChanges(joined, c);
    var facts := Facts(dfs, c);
    assert m in MergeOnAggLegChanges(facts, agg);
    var a := AggRow(FactKey(m.fact), m.legislative);
    var i :| 0 <= i < |agg| && agg[i] == a;
    assert a.key in LegAggregation.KeysOf(joined);
    var x :| x in MergeBaselinesActuals(GetRelevantBaselines(dfs.baselines, c), dfs.actuals)
           && x == BaselineActual(m.fact.baseline, m.fact.actualValue);
    assert x.baseline in GetRelevantBaselines(dfs.baselines, c);
    if c == Debt {
      LegAggregation.RunningDebtOfGroupSum(joined, LegAggregation.BaselineYear(a.key), a.key.projectedYearNumber);
    }
  }

  /** Conversely, every relevant fact row that is not Fannie Freddie, not
      year 0 and has a legislative change published strictly after its
      baseline appears in the merged rows. */
  lemma MergedRowsComplete(dfs: Inputs, c: Component, f: FactRow, ch: ChangeRow)
    requires f in Facts(dfs, c) && ch in GetLegChanges(dfs.changes, c)
    requires ChangeMatches(f, ch) && ch.changesBaselineDate > f.baseline.baselineDate
    requires f.baseline.subcategory != "Fannie Freddie" && f.baseline.projectedYearNumber != 0
    ensures exists m :: m in MergedFacts(dfs, c) && m.fact == f
  {
    var joined := LegJoined(dfs, c);
    var agg := LegAggregation.AggregatedLegChanges(joined, c);
    var row := LegJoinRow(Some(f), ch);
    assert row in joined;
    var a :| a in agg && a.key == LegAggregation.KeyOf(row);
    var m := MergedRow(f, a.legislative);
    assert m in MergeOnAggLegChanges(Facts(dfs, c), agg);
    assert m in MergedFacts(dfs, c);
  }

  /** `merge_data`: rejects an unknown component; otherwise runs the stages in
      order and sorts the result. */
  method MergeData(dfs: Inputs, component: string) returns (r: Result<seq<MergedRow>>)
    ensures r.Failure? <==> component !in ["outlay", "revenue", "deficit", "debt"]
    ensures r.Success? ==>
      var c := ParseComponent(component).value;
      Ordering.IsSorted(r.value, c) && multiset(r.value) == multiset(MergedFacts(dfs, c))
  {
    var parsed := ParseComponent(component);
    if parsed.None? {
      return Failure("unknown component: " + component);
    }
    var c := parsed.value;
    var facts := Facts(dfs, c);
    var joined := MergeOnLegChanges(facts, GetLegChanges(dfs.changes, c));
    var agg := LegAggregation.AggregateLegChanges(joined, c);
    var merged := MergeOnAggLegChanges(facts, agg);
    var filtered := FilterMergedData(merged);
    var sorted := Ordering.SortData(filtered, c);
    return Success(sorted);
  }
}

/** Actuals as a share of GDP (`scale_actuals` in `src/scale.py`): every
    actual outcome of every component, joined with the GDP of its fiscal
    year, with the percentage of GDP it represents; Fannie Freddie rows are
    dropped and no fiscal-year cutoff is applied. */
module Scale {
  import opened Tables
  import opened Seqs

  /** A row of the output, with its seven columns in output order. */
  datatype ScaledActual = ScaledActual(
    component: Component,
    category: string,
    subcategory: string,
    fiscalYear: int,
    actualValue: real,
    gdp: Option<real>,
    actualsPctGdp: Option<real>)

  /** The actual a scaled row was made from. */
  function ActualOf(s: ScaledActual): ActualRow
  {
    ActualRow(s.component, s.category, s.subcategory, s.fiscalYear, s.actualValue)
  }

  /** The output row of actual `a` joined with GDP cell `cell`. */
  function ScaledRow(a: ActualRow, cell: Option<real>): (s: ScaledActual)
    ensures ActualOf(s) == a && s.gdp == cell
    ensures s.actualsPctGdp.Some? <==> cell.Some? && cell.value != 0.0
    ensures s.actualsPctGdp.Some? ==> s.actualsPctGdp.value * cell.value == a.actualValue * 100.0
  {
    ScaledActual(a.component, a.category, a.subcategory, a.fiscalYear, a.actualValue,
                 cell, PercentOf(a.actualValue, cell))
  }

  /** The left join of the actuals with GDP on the fiscal year, with the
      percentage column added. */
  function JoinGdp(actuals: seq<ActualRow>, gdp: seq<GdpRow>): (r: seq<ScaledActual>)
    ensures forall s :: s in r ==> ActualOf(s) in actuals && s == ScaledRow(ActualOf(s), s.gdp)
    ensures forall s :: s in r && s.gdp.Some? ==> GdpRow(s.fiscalYear, s.gdp.value) in gdp
    ensures forall s :: s in r && s.gdp.None? ==> !HasGdp(s.fiscalYear, gdp)
    ensures forall a, g :: a in actuals && g in gdp && g.fiscalYear == a.fiscalYear ==>
      ScaledRow(a, Some(g.gdp)) in r
    ensures forall a :: a in actuals && !HasGdp(a.fiscalYear, gdp) ==> ScaledRow(a, None) in r
  {
    if actuals == [] then []
    else
      var a := actuals[0];
      assert actuals == [a] + actuals[1..];
      Map(GdpCells(a.fiscalYear, gdp), (o: Option<real>) => ScaledRow(a, o)) + JoinGdp(actuals[1..], gdp)
  }

  /** Each joined row occurs as many times as its source row times the copies
      of its GDP cell: once per GDP row of its year and value, and with a
      missing GDP exactly once per row when the year has no GDP. */
  lemma {:induction false} JoinGdpCount(actuals: seq<ActualRow>, gdp: seq<GdpRow>, s: ScaledActual)
    ensures multiset(JoinGdp(actuals, gdp))[s]
            == if s == ScaledRow(ActualOf(s), s.gdp) then multiset(actuals)[ActualOf(s)] * CellCopies(s.fiscalYear, gdp, s.gdp) else 0
  {
    if actuals != [] {
      var a := actuals[0];
      var cells := GdpCells(a.fiscalYear, gdp);
      var here := Map(cells, (o: Option<real>) => ScaledRow(a, o));
      var rest := JoinGdp(actuals[1..], gdp);
      assert JoinGdp(actuals, gdp) == here + rest;
      assert multiset(here + rest)[s] == multiset(here)[s] + multiset(rest)[s];
      JoinGdpCount(actuals[1..], gdp, s);
      MapCount(cells, (o: Option<real>) => ScaledRow(a, o), (t: ScaledActual) => t.gdp, s);
      if s == ScaledRow(ActualOf(s), s.gdp) {
        var n := CellCopies(s.fiscalYear, gdp, s.gdp);
        GdpCellsCount(s.fiscalYear, gdp, s.gdp);
        assert multiset(here)[s] == if a == ActualOf(s) then n else 0;
        CountOfCons(actuals, ActualOf(s));
        AddCopies(multiset(here + rest)[s], multiset(here)[s], multiset(rest)[s], a == ActualOf(s),
                  multiset(actuals[1..])[ActualOf(s)], n);
      } else {
        assert ScaledRow(a, s.gdp) != s;
      }
    }
  }

  predicate NotFannieFreddie(s: ScaledActual)
  {
    s.subcategory != FannieFreddie
  }

  /** `scale_actuals`: the joined rows without the Fannie Freddie subcategory. */
  function ScaleActuals(actuals: seq<ActualRow>, gdp: seq<GdpRow>): (r: seq<ScaledActual>)
    ensures forall s :: s in r ==> s.subcategory != FannieFreddie
    ensures forall s :: s in r ==> ActualOf(s) in actuals
    ensures forall s :: s in r ==> s.actualsPctGdp == PercentOf(s.actualValue, s.gdp)
    ensures forall s :: s in r && s.gdp.Some? ==> GdpRow(s.fiscalYear, s.gdp.value) in gdp
    ensures forall s :: s in r && s.gdp.None? ==> !HasGdp(s.fiscalYear, gdp)
    ensures forall a, g :: a in actuals && a.subcategory != FannieFreddie && g in gdp && g.fiscalYear == a.fiscalYear ==>
      ScaledRow(a, Some(g.gdp)) in r
    ensures forall a :: a in actuals && a.subcategory != FannieFreddie && !HasGdp(a.fiscalYear, gdp) ==>
      ScaledRow(a, None) in r
  {
    Filter(JoinGdp(actuals, gdp), NotFannieFreddie)
  }

  /** An actual appears in the output, with its value unchanged, exactly when
      its subcategory is not Fannie Freddie, whatever its fiscal year. */
  lemma {:induction false} ActualRetained(actuals: seq<ActualRow>, gdp: seq<GdpRow>, a: ActualRow)
    requires a in actuals
    ensures (exists s :: s in ScaleActuals(actuals, gdp) && ActualOf(s) == a) <==> a.subcategory != FannieFreddie
  {
    var r := ScaleActuals(actuals, gdp);
    if a.subcategory != FannieFreddie {
      if HasGdp(a.fiscalYear, gdp) {
        var g :| g in gdp && g.fiscalYear == a.fiscalYear;
        assert ActualOf(ScaledRow(a, Some(g.gdp))) == a;
      } else {
        assert ActualOf(ScaledRow(a, None)) == a;
      }
    }
  }
}

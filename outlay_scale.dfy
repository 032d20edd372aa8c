/** Actual outlays as a share of GDP (`scale_actuals` in
    `src/scale_actuals.py`): the outlay actuals from fiscal year 1993 on,
    joined with the GDP of their year, with the percentage of GDP; Fannie
    Freddie rows are dropped, and so are Defense and Nondefense Discretionary
    rows before 1998, whose series start then. */
module OutlayScale {
  import opened Tables
  import opened Seqs

  /** An actual outlay of one (category, subcategory, fiscal year). */
  datatype OutlayActual = OutlayActual(
    outlayCategory: string,
    outlaySubcategory: string,
    fiscalYear: int,
    actualOutlay: real)

  /** A row of the output, with its six columns in output order. */
  datatype ScaledOutlay = ScaledOutlay(
    outlayCategory: string,
    outlaySubcategory: string,
    fiscalYear: int,
    actualOutlay: real,
    gdp: Option<real>,
    actualOutlayPctGdp: Option<real>)

  const FirstYear := 1993
  const DiscretionaryFirstYear := 1998
  const DiscretionarySubcategories := ["Defense Discretionary", "Nondefense Discretionary"]

  function OutlayOf(s: ScaledOutlay): OutlayActual
  {
    OutlayActual(s.outlayCategory, s.outlaySubcategory, s.fiscalYear, s.actualOutlay)
  }

  /** The output row of outlay `a` joined with GDP cell `cell`. */
  function ScaledRow(a: OutlayActual, cell: Option<real>): (s: ScaledOutlay)
    ensures OutlayOf(s) == a && s.gdp == cell
    ensures s.actualOutlayPctGdp.Some? <==> cell.Some? && cell.value != 0.0
    ensures s.actualOutlayPctGdp.Some? ==> s.actualOutlayPctGdp.value * cell.value == a.actualOutlay * 100.0
  {
    ScaledOutlay(a.outlayCategory, a.outlaySubcategory, a.fiscalYear, a.actualOutlay,
                 cell, PercentOf(a.actualOutlay, cell))
  }

  /** The left join of the outlays with GDP on the fiscal year, with the
      percentage column added. */
  function JoinGdp(outlays: seq<OutlayActual>, gdp: seq<GdpRow>): (r: seq<ScaledOutlay>)
    ensures forall s :: s in r ==> OutlayOf(s) in outlays && s == ScaledRow(OutlayOf(s), s.gdp)
    ensures forall s :: s in r && s.gdp.Some? ==> GdpRow(s.fiscalYear, s.gdp.value) in gdp
    ensures forall s :: s in r && s.gdp.None? ==> !HasGdp(s.fiscalYear, gdp)
    ensures forall a, g :: a in outlays && g in gdp && g.fiscalYear == a.fiscalYear ==>
      ScaledRow(a, Some(g.gdp)) in r
    ensures forall a :: a in outlays && !HasGdp(a.fiscalYear, gdp) ==> ScaledRow(a, None) in r
  {
    if outlays == [] then []
    else
      var a := outlays[0];
      assert outlays == [a] + outlays[1..];
      Map(GdpCells(a.fiscalYear, gdp), (o: Option<real>) => ScaledRow(a, o)) + JoinGdp(outlays[1..], gdp)
  }

  /** Each joined row occurs as many times as its source row times the copies
      of its GDP cell: once per GDP row of its year and value, and with a
      missing GDP exactly once per row when the year has no GDP. */
  lemma {:induction false} JoinGdpCount(outlays: seq<OutlayActual>, gdp: seq<GdpRow>, s: ScaledOutlay)
    ensures multiset(JoinGdp(outlays, gdp))[s]
            == if s == ScaledRow(OutlayOf(s), s.gdp) then multiset(outlays)[OutlayOf(s)] * CellCopies(s.fiscalYear, gdp, s.gdp) else 0
  {
    if outlays != [] {
      var a := outlays[0];
      var cells := GdpCells(a.fiscalYear, gdp);
      var here := Map(cells, (o: Option<real>) => ScaledRow(a, o));
      var rest := JoinGdp(outlays[1..], gdp);
      assert JoinGdp(outlays, gdp) == here + rest;
      assert multiset(here + rest)[s] == multiset(here)[s] + multiset(rest)[s];
      JoinGdpCount(outlays[1..], gdp, s);
      MapCount(cells, (o: Option<real>) => ScaledRow(a, o), (t: ScaledOutlay) => t.gdp, s);
      if s == ScaledRow(OutlayOf(s), s.gdp) {
        var n := CellCopies(s.fiscalYear, gdp, s.gdp);
        GdpCellsCount(s.fiscalYear, gdp, s.gdp);
        assert multiset(here)[s] == if a == OutlayOf(s) then n else 0;
        CountOfCons(outlays, OutlayOf(s));
        AddCopies(multiset(here + rest)[s], multiset(here)[s], multiset(rest)[s], a == OutlayOf(s),
                  multiset(outlays[1..])[OutlayOf(s)], n);
      } else {
        assert ScaledRow(a, s.gdp) != s;
      }
    }
  }

  predicate InReportedYears(s: ScaledOutlay)
  {
    s.fiscalYear >= FirstYear
  }

  predicate NotFannieFreddie(s: ScaledOutlay)
  {
    s.outlaySubcategory != FannieFreddie
  }

  predicate NotEarlyDiscretionary(s: ScaledOutlay)
  {
    !(s.outlaySubcategory in DiscretionarySubcategories && s.fiscalYear < DiscretionaryFirstYear)
  }

  /** Whether outlay `a` is kept by the three row filters. */
  predicate Reported(a: OutlayActual)
  {
    && a.fiscalYear >= FirstYear
    && a.outlaySubcategory != FannieFreddie
    && !(a.outlaySubcategory in DiscretionarySubcategories && a.fiscalYear < DiscretionaryFirstYear)
  }

  /** `scale_actuals`: the joined rows from 1993 on, without Fannie Freddie
      and without Defense and Nondefense Discretionary before 1998. */
  function ScaleActuals(outlays: seq<OutlayActual>, gdp: seq<GdpRow>): (r: seq<ScaledOutlay>)
    ensures forall s :: s in r ==> s.fiscalYear >= 1993
    ensures forall s :: s in r ==> s.outlaySubcategory != FannieFreddie
    ensures forall s :: s in r && s.fiscalYear < 1998 ==>
      s.outlaySubcategory != "Defense Discretionary" && s.outlaySubcategory != "Nondefense Discretionary"
    ensures forall s :: s in r ==> OutlayOf(s) in outlays
    ensures forall s :: s in r ==> s.actualOutlayPctGdp == PercentOf(s.actualOutlay, s.gdp)
    ensures forall s :: s in r && s.gdp.Some? ==> GdpRow(s.fiscalYear, s.gdp.value) in gdp
    ensures forall s :: s in r && s.gdp.None? ==> !HasGdp(s.fiscalYear, gdp)
    ensures forall a, g :: a in outlays && Reported(a) && g in gdp && g.fiscalYear == a.fiscalYear ==>
      ScaledRow(a, Some(g.gdp)) in r
    ensures forall a :: a in outlays && Reported(a) && !HasGdp(a.fiscalYear, gdp) ==> ScaledRow(a, None) in r
  {
    var joined := JoinGdp(outlays, gdp);
    var recent := Filter(joined, InReportedYears);
    var withoutFannieFreddie := Filter(recent, NotFannieFreddie);
    var r := Filter(withoutFannieFreddie, NotEarlyDiscretionary);
    assert forall s :: s in r <==> s in joined && InReportedYears(s) && NotFannieFreddie(s) && NotEarlyDiscretionary(s);
    assert forall s :: s in r && s.fiscalYear < 1998 ==>
      s.outlaySubcategory != "Defense Discretionary" && s.outlaySubcategory != "Nondefense Discretionary" by {
      forall s | s in r && s.fiscalYear < 1998
        ensures s.outlaySubcategory != "Defense Discretionary" && s.outlaySubcategory != "Nondefense Discretionary"
      {
        assert NotEarlyDiscretionary(s);
        assert DiscretionarySubcategories[0] == "Defense Discretionary";
        assert DiscretionarySubcategories[1] == "Nondefense Discretionary";
      }
    }
    assert forall a, g :: a in outlays && Reported(a) && g in gdp && g.fiscalYear == a.fiscalYear ==>
      ScaledRow(a, Some(g.gdp)) in r by {
      forall a, g | a in outlays && Reported(a) && g in gdp && g.fiscalYear == a.fiscalYear
        ensures ScaledRow(a, Some(g.gdp)) in r
      {
        var s := ScaledRow(a, Some(g.gdp));
        assert s in joined;
        assert s.fiscalYear == a.fiscalYear && s.outlaySubcategory == a.outlaySubcategory;
        assert InReportedYears(s) && NotFannieFreddie(s) && NotEarlyDiscretionary(s);
      }
    }
    assert forall a :: a in outlays && Reported(a) && !HasGdp(a.fiscalYear, gdp) ==> ScaledRow(a, None) in r by {
      forall a | a in outlays && Reported(a) && !HasGdp(a.fiscalYear, gdp)
        ensures ScaledRow(a, None) in r
      {
        var s := ScaledRow(a, None);
        assert s in joined;
        assert s.fiscalYear == a.fiscalYear && s.outlaySubcategory == a.outlaySubcategory;
        assert InReportedYears(s) && NotFannieFreddie(s) && NotEarlyDiscretionary(s);
      }
    }
    r
  }

  /** An outlay appears in the output, with its value unchanged, exactly when
      it is from 1993 on, is not Fannie Freddie, and is not a Defense or
      Nondefense Discretionary outlay before 1998. */
  lemma {:induction false} OutlayRetained(outlays: seq<OutlayActual>, gdp: seq<GdpRow>, a: OutlayActual)
    requires a in outlays
    ensures (exists s :: s in ScaleActuals(outlays, gdp) && OutlayOf(s) == a) <==> Reported(a)
  {
    if Reported(a) {
      if HasGdp(a.fiscalYear, gdp) {
        var g :| g in gdp && g.fiscalYear == a.fiscalYear;
        assert OutlayOf(ScaledRow(a, Some(g.gdp))) == a;
      } else {
        assert OutlayOf(ScaledRow(a, None)) == a;
      }
    }
  }

  /** Between 1993 and 1997 only the Defense and Nondefense Discretionary
      outlays (and Fannie Freddie) are dropped; every other subcategory of
      those years is kept. */
  lemma EarlyYears(outlays: seq<OutlayActual>, gdp: seq<GdpRow>, a: OutlayActual)
    requires a in outlays && 1993 <= a.fiscalYear < 1998
    ensures (exists s :: s in ScaleActuals(outlays, gdp) && OutlayOf(s) == a)
      <==> a.outlaySubcategory !in ["Defense Discretionary", "Nondefense Discretionary", "Fannie Freddie"]
  {
    OutlayRetained(outlays, gdp, a);
  }
}

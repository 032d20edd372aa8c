/** The fixed presentation order of merged rows (`sort_data`): by
    component, then by the position of the category and of the subcategory in
    the component's fixed lists, then by projection year number. A value
    missing from its list sorts after every listed value. */
module Ordering {
  import opened Tables
  import Seqs

  const RevenueCategories := [
    "Total", "Individual Income Taxes", "Payroll Taxes", "Corporate Income Taxes",
    "Customs Duties", "Excise Taxes", "Estate and Gift Taxes", "Miscellaneous Receipts"]

  const OutlaySubcategories := [
    "Total", "Total Mandatory", "Social Security", "Medicare", "Medicaid", "Fannie Freddie",
    "Other Mandatory", "Total Discretionary", "Defense Discretionary",
    "Nondefense Discretionary", "Net Interest"]

  /** The category order of component `c` (`cats`). */
  function Categories(c: Component): (order: seq<string>)
    ensures order != [] && order[0] == "Total"
    ensures Seqs.NoDuplicates(order)
  {
    match c
    case Revenue => RevenueCategories
    case Outlay => ["Total", "Mandatory", "Discretionary", "Net Interest"]
    case Deficit => ["Total"]
    case Debt => ["Total"]
  }

  /** The subcategory order of component `c` (`subcats`); revenue uses its
      category list again. */
  function Subcategories(c: Component): (order: seq<string>)
    ensures order != [] && order[0] == "Total"
    ensures Seqs.NoDuplicates(order)
    ensures c == Revenue ==> order == Categories(c)
  {
    match c
    case Revenue => RevenueCategories
    case Outlay => OutlaySubcategories
    case Deficit => ["Total"]
    case Debt => ["Total"]
  }

  /** The position of `x` in `order`, or `|order|` when it is not listed. */
  function Rank(order: seq<string>, x: string): (r: nat)
    ensures r <= |order|
    ensures r < |order| ==> order[r] == x
    ensures forall k :: 0 <= k < r ==> order[k] != x
  {
    if order == [] then 0
    else if order[0] == x then 0
    else 1 + Rank(order[1..], x)
  }

  /** Components sort by their names: debt, deficit, outlay, revenue. */
  function ComponentRank(c: Component): nat
  {
    match c
    case Debt => 0
    case Deficit => 1
    case Outlay => 2
    case Revenue => 3
  }

  datatype SortKey = SortKey(component: nat, category: nat, subcategory: nat, yearNumber: int)

  function KeyOf(m: MergedRow, c: Component): SortKey
  {
    var b := m.fact.baseline;
    SortKey(ComponentRank(b.component), Rank(Categories(c), b.category),
            Rank(Subcategories(c), b.subcategory), b.projectedYearNumber)
  }

  /** Lexicographic order on sort keys. */
  predicate KeyLeq(x: SortKey, y: SortKey)
  {
    x.component < y.component
    || (x.component == y.component
        && (x.category < y.category
            || (x.category == y.category
                && (x.subcategory < y.subcategory
                    || (x.subcategory == y.subcategory && x.yearNumber <= y.yearNumber)))))
  }

  predicate RowLeq(x: MergedRow, y: MergedRow, c: Component)
  {
    KeyLeq(KeyOf(x, c), KeyOf(y, c))
  }

  predicate IsSorted(rows: seq<MergedRow>, c: Component)
  {
    forall i, j :: 0 <= i < j < |rows| ==> RowLeq(rows[i], rows[j], c)
  }

  /** The row order is total and transitive, so sorting by it is well defined. */
  lemma RowLeqIsTotalPreorder(x: MergedRow, y: MergedRow, z: MergedRow, c: Component)
    ensures RowLeq(x, y, c) || RowLeq(y, x, c)
    ensures RowLeq(x, y, c) && RowLeq(y, z, c) ==> RowLeq(x, z, c)
  {
  }

  /** A row with its recoded sort columns. */
  type Keyed = (SortKey, MergedRow)

  predicate KeysSorted(s: seq<Keyed>)
  {
    forall p, q :: 0 <= p < q < |s| ==> KeyLeq(s[p].0, s[q].0)
  }

  method Swap(a: array<Keyed>, i: nat, j: nat)
    requires i < a.Length && j < a.Length
    modifies a
    ensures a[i] == old(a[j]) && a[j] == old(a[i])
    ensures forall k :: 0 <= k < a.Length && k != i && k != j ==> a[k] == old(a[k])
    ensures multiset(a[..]) == multiset(old(a[..]))
  {
    a[i], a[j] := a[j], a[i];
  }

  /** Moves `a[i]` left past every element whose key is greater, so that the
      sorted prefix grows by one. */
  method InsertAt(a: array<Keyed>, i: nat)
    requires i < a.Length
    requires forall p, q :: 0 <= p < q < i ==> KeyLeq(a[p].0, a[q].0)
    modifies a
    ensures forall p, q :: 0 <= p < q <= i ==> KeyLeq(a[p].0, a[q].0)
    ensures multiset(a[..]) == multiset(old(a[..]))
  {
    var j := i;
    while j > 0 && !KeyLeq(a[j - 1].0, a[j].0)
      invariant 0 <= j <= i
      invariant forall p, q :: 0 <= p < q <= i && p != j && q != j ==> KeyLeq(a[p].0, a[q].0)
      invariant forall q :: j < q <= i ==> KeyLeq(a[j].0, a[q].0)
      invariant multiset(a[..]) == multiset(old(a[..]))
    {
      Swap(a, j - 1, j);
      j := j - 1;
    }
  }

  /** Sorts the keyed rows in place by their keys (an insertion sort stands
      for the library sort). */
  method SortByKey(a: array<Keyed>)
    modifies a
    ensures KeysSorted(a[..])
    ensures multiset(a[..]) == multiset(old(a[..]))
  {
    for i := 0 to a.Length
      invariant forall p, q :: 0 <= p < q < i ==> KeyLeq(a[p].0, a[q].0)
      invariant multiset(a[..]) == multiset(old(a[..]))
    {
      InsertAt(a, i);
    }
  }

  /** `sort_data`: copies the rows, recodes the category and subcategory
      columns as positions in the component's fixed lists, and sorts the copy
      in place. */
  method SortData(rows: seq<MergedRow>, c: Component) returns (sorted: seq<MergedRow>)
    ensures IsSorted(sorted, c)
    ensures multiset(sorted) == multiset(rows)
  {
    var n := |rows|;
    var a := new Keyed[n](k requires 0 <= k < n => (KeyOf(rows[k], c), rows[k]));
    ghost var tagged := a[..];
    SortByKey(a);
    sorted := Rows(a[..]);
    SortedRowsOfKeyed(a[..], tagged, rows, c);
  }

  /** Sorting the keyed rows by key sorts the rows by the fixed order. */
  lemma SortedRowsOfKeyed(s: seq<Keyed>, tagged: seq<Keyed>, rows: seq<MergedRow>, c: Component)
    requires |tagged| == |rows| && forall k :: 0 <= k < |rows| ==> tagged[k] == (KeyOf(rows[k], c), rows[k])
    requires multiset(s) == multiset(tagged)
    requires KeysSorted(s)
    ensures IsSorted(Rows(s), c)
    ensures multiset(Rows(s)) == multiset(rows)
  {
    assert forall k :: 0 <= k < |s| ==> s[k].0 == KeyOf(s[k].1, c) by {
      forall k | 0 <= k < |s| ensures s[k].0 == KeyOf(s[k].1, c) {
        assert s[k] in multiset(tagged);
        var m :| 0 <= m < |tagged| && tagged[m] == s[k];
      }
    }
    var sorted := Rows(s);
    forall p, q | 0 <= p < q < |sorted| ensures RowLeq(sorted[p], sorted[q], c) {
      assert KeyLeq(s[p].0, s[q].0);
    }
    assert multiset(Rows(s)) == multiset(rows) by {
      SecondsPermuted(s, tagged);
      assert Rows(tagged) == rows;
    }
  }

  function Rows(s: seq<Keyed>): (r: seq<MergedRow>)
    ensures |r| == |s| && forall k :: 0 <= k < |s| ==> r[k] == s[k].1
  {
    if s == [] then [] else [s[0].1] + Rows(s[1..])
  }

  /** Removing the `k`-th keyed row removes its row. */
  lemma {:induction false} RowsRemove(t: seq<Keyed>, k: nat)
    requires k < |t|
    ensures multiset(Rows(t)) == multiset(Rows(t[..k] + t[k + 1..])) + multiset{t[k].1}
  {
    var r := Rows(t);
    var u := t[..k] + t[k + 1..];
    assert Rows(u) == r[..k] + r[k + 1..] by {
      assert |Rows(u)| == |r[..k] + r[k + 1..]|;
      forall i | 0 <= i < |u| ensures Rows(u)[i] == (r[..k] + r[k + 1..])[i] {
        if i < k { assert u[i] == t[i]; } else { assert u[i] == t[i + 1]; }
      }
    }
    assert r == r[..k + 1] + r[k + 1..];
    assert r[..k + 1] == r[..k] + [r[k]];
    assert multiset(r) == multiset(r[..k]) + multiset{r[k]} + multiset(r[k + 1..]);
  }

  /** Removing the same element from two equal multisets leaves them equal. */
  lemma {:induction false} RemoveMatching(s: seq<Keyed>, t: seq<Keyed>, k: nat)
    requires multiset(s) == multiset(t) && s != [] && k < |t| && t[k] == s[0]
    ensures multiset(s[1..]) == multiset(t[..k] + t[k + 1..])
  {
    assert t == t[..k] + [t[k]] + t[k + 1..];
    assert s == [s[0]] + s[1..];
    assert multiset(t) == multiset(t[..k]) + multiset{t[k]} + multiset(t[k + 1..]);
    assert multiset(s) == multiset{s[0]} + multiset(s[1..]);
    assert multiset(t[..k] + t[k + 1..]) == multiset(t[..k]) + multiset(t[k + 1..]);
    forall x ensures multiset(s[1..])[x] == multiset(t[..k] + t[k + 1..])[x] {
      assert multiset(s)[x] == multiset(t)[x];
    }
  }

  /** Permuting keyed rows permutes their rows. */
  lemma {:induction false} SecondsPermuted(s: seq<Keyed>, t: seq<Keyed>)
    requires multiset(s) == multiset(t)
    ensures multiset(Rows(s)) == multiset(Rows(t))
    decreases |s|
  {
    if s != [] {
      assert s[0] in multiset(t);
      var k :| 0 <= k < |t| && t[k] == s[0];
      RemoveMatching(s, t, k);
      SecondsPermuted(s[1..], t[..k] + t[k + 1..]);
      RowsRemove(t, k);
      assert Rows(s) == [s[0].1] + Rows(s[1..]);
    }
  }
}

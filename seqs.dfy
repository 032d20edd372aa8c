/** Generic sequence operations the table stages are built from: a
    row filter that keeps order (a boolean row mask), distinct keys in order
    of first occurrence (the observed groups of a group-by). */
module Seqs {

  /** `r` can be obtained from `s` by deleting elements, keeping order. */
  predicate IsSubsequence<T(==)>(r: seq<T>, s: seq<T>)
    decreases |s|
  {
    if r == [] then true
    else if s == [] then false
    else if r[0] == s[0] then IsSubsequence(r[1..], s[1..])
    else IsSubsequence(r, s[1..])
  }

  predicate NoDuplicates<T(==)>(s: seq<T>)
  {
    forall i, j :: 0 <= i < j < |s| ==> s[i] != s[j]
  }

  /** The elements of `s` that satisfy `keep`, in their original order. */
  function Filter<T(==, !new)>(s: seq<T>, keep: T -> bool): (r: seq<T>)
    ensures forall x :: multiset(r)[x] == if keep(x) then multiset(s)[x] else 0
    ensures forall x :: x in r <==> x in s && keep(x)
    ensures IsSubsequence(r, s)
  {
    if s == [] then []
    else
      var rest := Filter(s[1..], keep);
      assert s == [s[0]] + s[1..];
      assert multiset(s) == multiset{s[0]} + multiset(s[1..]);
      if keep(s[0]) then
        assert ([s[0]] + rest)[1..] == rest;
        [s[0]] + rest
      else
        assert rest != [] ==> rest[0] != s[0] by {
          if rest != [] { assert rest[0] in rest; }
        }
        rest
  }

  lemma TailOfAppend<T>(a: seq<T>, b: seq<T>)
    requires a != []
    ensures (a + b)[0] == a[0] && (a + b)[1..] == a[1..] + b
  {
  }

  /** The filter of a non-empty sequence: its head if kept, then the filter
      of its tail. */
  lemma FilterCons<T(!new)>(s: seq<T>, keep: T -> bool)
    requires s != []
    ensures Filter(s, keep) == (if keep(s[0]) then [s[0]] else []) + Filter(s[1..], keep)
  {
  }

  lemma {:induction false} FilterAppend<T(!new)>(a: seq<T>, b: seq<T>, keep: T -> bool)
    ensures Filter(a + b, keep) == Filter(a, keep) + Filter(b, keep)
  {
    if a != [] {
      FilterAppend(a[1..], b, keep);
      TailOfAppend(a, b);
      FilterCons(a + b, keep);
      FilterCons(a, keep);
    } else {
      assert a + b == b;
    }
  }

  /** The occurrences of `x` in a non-empty sequence: those at its head and
      those in its tail. */
  lemma CountOfCons<T>(s: seq<T>, x: T)
    requires s != []
    ensures multiset(s)[x] == (if s[0] == x then 1 else 0) + multiset(s[1..])[x]
  {
    assert s == [s[0]] + s[1..];
  }

  /** `f` applied to every element of `s`, in order. */
  function Map<T, U>(s: seq<T>, f: T -> U): (r: seq<U>)
    ensures |r| == |s|
    ensures forall t :: t in s ==> f(t) in r
    ensures forall y :: y in r ==> exists t :: t in s && y == f(t)
  {
    if s == [] then []
    else
      assert s == [s[0]] + s[1..];
      [f(s[0])] + Map(s[1..], f)
  }

  /** When `key` recovers the argument of `f`, an element `y` occurs in the
      image as often as `key(y)` occurs in `s`, and not at all when `f` does
      not produce it. */
  lemma {:induction false} MapCount<T, U>(s: seq<T>, f: T -> U, key: U -> T, y: U)
    requires forall t :: key(f(t)) == t
    ensures multiset(Map(s, f))[y] == if f(key(y)) == y then multiset(s)[key(y)] else 0
  {
    if s != [] {
      MapCount(s[1..], f, key, y);
      CountOfCons(s, key(y));
      CountOfCons(Map(s, f), y);
      assert Map(s, f)[1..] == Map(s[1..], f);
    }
  }

  /** The counting step of the join lemmas: the `n` or no rows the first
      left row yields and the `k * n` rows of the remaining left rows
      together make `(1 or 0) + k` times `n`. */
  lemma AddCopies(total: nat, here: nat, rest: nat, first: bool, k: nat, n: nat)
    requires total == here + rest && here == (if first then n else 0) && rest == k * n
    ensures total == ((if first then 1 else 0) + k) * n
  {
  }

  /** The distinct elements of `s`, in order of first occurrence. */
  function Distinct<T(==, !new)>(s: seq<T>): (r: seq<T>)
    ensures NoDuplicates(r)
    ensures forall x :: x in r <==> x in s
  {
    if s == [] then []
    else
      var init := s[..|s| - 1];
      var rest := Distinct(init);
      assert forall x :: x in s <==> x in init || x == s[|s| - 1] by {
        assert s == init + [s[|s| - 1]];
      }
      if s[|s| - 1] in rest then rest else rest + [s[|s| - 1]]
  }
}

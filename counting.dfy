/**
 Multiplicity counting over sequences: the meaning of pandas' `value_counts`
 as used by both `zlicz_wydarzenia` and `oblicz_frekwencje` in kalendarz.py.

 A value-count table is a sequence of (value, count) pairs with one pair per
 distinct value of the input. pandas sorts the table by descending count; the
 order here is that of first appearance, and nothing below depends on order.
 */
module Counting {

  /** No value occurs twice in `ks`. */
  predicate Distinct<T(==)>(ks: seq<T>) {
    forall i, j :: 0 <= i < j < |ks| ==> ks[i] != ks[j]
  }

  /** The number of occurrences of `k` in `xs`, counted one element at a time. */
  function Tally<T(==)>(xs: seq<T>, k: T): (n: nat)
    ensures n == multiset(xs)[k]
  {
    if xs == [] then 0
    else
      var init, last := xs[..|xs| - 1], xs[|xs| - 1];
      assert xs == init + [last];
      Tally(init, k) + (if last == k then 1 else 0)
  }

  /** No value occurs more often than there are values. */
  lemma {:induction false} MultiplicityBound<T>(xs: seq<T>, x: T)
    ensures multiset(xs)[x] <= |xs|
  {
    if xs != [] {
      var init := xs[..|xs| - 1];
      assert xs == init + [xs[|xs| - 1]];
      MultiplicityBound(init, x);
    }
  }

  /** The distinct values of `xs`, in order of first appearance. */
  function Unique<T(==)>(xs: seq<T>): (ks: seq<T>)
    ensures Distinct(ks)
    ensures forall i :: 0 <= i < |ks| ==> ks[i] in xs
    ensures forall i :: 0 <= i < |xs| ==> xs[i] in ks
  {
    if xs == [] then []
    else
      var init, last := xs[..|xs| - 1], xs[|xs| - 1];
      assert xs == init + [last];
      var ks := Unique(init);
      if last in ks then ks else ks + [last]
  }

  /** The first components of a table. */
  function Firsts<T>(t: seq<(T, nat)>): (ks: seq<T>)
    ensures |ks| == |t| && forall i :: 0 <= i < |t| ==> ks[i] == t[i].0
  {
    seq(|t|, i requires 0 <= i < |t| => t[i].0)
  }

  /** The sum of the count column of a table (`podsumowanie['Liczba'].sum()`). */
  function Total<T>(t: seq<(T, nat)>): nat {
    if t == [] then 0 else Total(t[..|t| - 1]) + t[|t| - 1].1
  }

  /** Pairs each of `ks` with its multiplicity in `xs`. */
  function Tabulate<T(==)>(ks: seq<T>, xs: seq<T>): (t: seq<(T, nat)>)
    ensures |t| == |ks|
    ensures forall i :: 0 <= i < |ks| ==> t[i] == (ks[i], multiset(xs)[ks[i]])
  {
    if ks == [] then []
    else Tabulate(ks[..|ks| - 1], xs) + [(ks[|ks| - 1], Tally(xs, ks[|ks| - 1]))]
  }

  /** `values.value_counts()`: one row per distinct value, with its number of occurrences. */
  function ValueCounts<T(==)>(xs: seq<T>): (t: seq<(T, nat)>)
    ensures Distinct(Firsts(t))
    ensures forall i :: 0 <= i < |t| ==> t[i].0 in xs
    ensures forall i :: 0 <= i < |xs| ==> xs[i] in Firsts(t)
    ensures forall i :: 0 <= i < |t| ==> t[i].1 == multiset(xs)[t[i].0] && t[i].1 > 0
  {
    Tabulate(Unique(xs), xs)
  }

  lemma {:induction false} TotalSnoc<T>(t: seq<(T, nat)>, e: (T, nat))
    ensures Total(t + [e]) == Total(t) + e.1
  {
    assert (t + [e])[..|t|] == t;
  }

  /** Over an empty input every multiplicity is zero, and so is the table's total. */
  lemma {:induction false} TabulateNothing<T>(ks: seq<T>)
    ensures Total(Tabulate(ks, [])) == 0
  {
    if ks != [] {
      var init := ks[..|ks| - 1];
      TabulateNothing(init);
      TotalSnoc(Tabulate(init, []), (ks[|ks| - 1], 0));
    }
  }

  /** Appending one value to the input raises the total by one exactly when the value is tabulated. */
  lemma {:induction false} TabulateSnoc<T>(ks: seq<T>, xs: seq<T>, x: T)
    requires Distinct(ks)
    ensures Total(Tabulate(ks, xs + [x])) == Total(Tabulate(ks, xs)) + (if x in ks then 1 else 0)
  {
    if ks != [] {
      var init, k := ks[..|ks| - 1], ks[|ks| - 1];
      assert ks == init + [k];
      assert Distinct(init);
      TabulateSnoc(init, xs, x);
      TotalSnoc(Tabulate(init, xs + [x]), (k, Tally(xs + [x], k)));
      TotalSnoc(Tabulate(init, xs), (k, Tally(xs, k)));
      assert x in ks <==> x in init || x == k;
      assert x == k ==> x !in init;
    }
  }

  /** A table over distinct keys that cover every input value accounts for every input value once. */
  lemma {:induction false} TabulateCovering<T>(ks: seq<T>, xs: seq<T>)
    requires Distinct(ks)
    requires forall x :: x in xs ==> x in ks
    ensures Total(Tabulate(ks, xs)) == |xs|
  {
    if xs == [] {
      TabulateNothing(ks);
    } else {
      var init, last := xs[..|xs| - 1], xs[|xs| - 1];
      assert xs == init + [last];
      TabulateCovering(ks, init);
      TabulateSnoc(ks, init, last);
    }
  }

  /** The counts of `value_counts` sum to the number of input values. */
  lemma ValueCountsTotal<T>(xs: seq<T>)
    ensures Total(ValueCounts(xs)) == |xs|
  {
    TabulateCovering(Unique(xs), xs);
  }
}

/** Sorting over any strict weak order, and `Uniquefy`: sort and drop duplicates, over any strict total order. */
module Sorting {

  ghost predicate StrictTotalOrder<T(!new)>(less: (T, T) -> bool) {
    && (forall a :: !less(a, a))
    && (forall a, b, c :: less(a, b) && less(b, c) ==> less(a, c))
    && (forall a, b :: less(a, b) || less(b, a) || a == b)
  }

  /** Ties are allowed: neither of two equivalent elements is less. */
  ghost predicate StrictWeakOrder<T(!new)>(less: (T, T) -> bool) {
    && (forall a :: !less(a, a))
    && (forall a, b, c :: less(a, b) && less(b, c) ==> less(a, c))
    && (forall a, b, c :: !less(a, b) && !less(b, c) ==> !less(a, c))
  }

  ghost predicate Ascending<T>(less: (T, T) -> bool, s: seq<T>) {
    forall i, j :: 0 <= i < j < |s| ==> !less(s[j], s[i])
  }

  ghost predicate StrictlyAscending<T>(less: (T, T) -> bool, s: seq<T>) {
    forall i, j :: 0 <= i < j < |s| ==> less(s[i], s[j])
  }

  /** `std::sort`, as an insertion sort. */
  method Sort<T(!new)>(items: seq<T>, less: (T, T) -> bool) returns (r: seq<T>)
    requires StrictWeakOrder(less)
    ensures Ascending(less, r) && multiset(r) == multiset(items)
  {
    hide Ascending, StrictWeakOrder;
    r := [];
    NothingIsAscending(less);
    var i := 0;
    while i < |items|
      invariant 0 <= i <= |items|
      invariant Ascending(less, r) && multiset(r) == multiset(items[..i])
    {
      var at := |r|;
      while at > 0 && less(items[i], r[at - 1])
        invariant 0 <= at <= |r|
        invariant forall j :: at <= j < |r| ==> less(items[i], r[j])
      {
        at := at - 1;
      }
      InsertKeepsAscending(less, r, at, items[i]);
      InsertAddsOne(r, at, items[i]);
      assert items[..i + 1] == items[..i] + [items[i]];
      r := r[..at] + [items[i]] + r[at..];
      i := i + 1;
    }
    assert items[..i] == items;
  }

  lemma NothingIsAscending<T>(less: (T, T) -> bool)
    ensures Ascending(less, [])
  {
  }

  lemma InsertAddsOne<T>(r: seq<T>, at: nat, x: T)
    requires at <= |r|
    ensures multiset(r[..at] + [x] + r[at..]) == multiset(r) + multiset{x}
  {
    assert r == r[..at] + r[at..];
  }

  lemma InsertKeepsAscending<T(!new)>(less: (T, T) -> bool, r: seq<T>, at: nat, x: T)
    requires StrictWeakOrder(less) && Ascending(less, r) && at <= |r|
    requires forall j :: at <= j < |r| ==> less(x, r[j])
    requires at > 0 ==> !less(x, r[at - 1])
    ensures Ascending(less, r[..at] + [x] + r[at..])
  {
    var n := r[..at] + [x] + r[at..];
    forall i, j | 0 <= i < j < |n| ensures !less(n[j], n[i]) {
      var i' := if i <= at then i else i - 1;
      var j' := if j <= at then j else j - 1;
      assert n[i] == if i == at then x else r[i'];
      assert n[j] == if j == at then x else r[j'];
      if j == at && i < at - 1 {
        assert !less(r[at - 1], r[i]);
      }
    }
  }

  /** `std::unique` after `std::sort`: strictly ascending, with the same elements. */
  method Uniquefy<T(==,!new)>(items: seq<T>, less: (T, T) -> bool) returns (r: seq<T>)
    requires StrictTotalOrder(less)
    ensures StrictlyAscending(less, r)
    ensures forall x :: x in r <==> x in items
  {
    var sorted := Sort(items, less);
    assert forall x :: x in items <==> x in multiset(sorted);
    r := [];
    var i := 0;
    while i < |sorted|
      invariant 0 <= i <= |sorted|
      invariant StrictlyAscending(less, r)
      invariant forall x :: x in r <==> x in sorted[..i]
      invariant r == [] <==> i == 0
      invariant i > 0 ==> r[|r| - 1] == sorted[i - 1]
    {
      assert sorted[..i + 1] == sorted[..i] + [sorted[i]];
      if r == [] || r[|r| - 1] != sorted[i] {
        if r != [] {
          assert !less(sorted[i], sorted[i - 1]);
          assert less(r[|r| - 1], sorted[i]);
          assert forall j :: 0 <= j < |r| - 1 ==> less(r[j], r[|r| - 1]);
        }
        r := r + [sorted[i]];
      }
      i := i + 1;
    }
    assert sorted[..i] == sorted;
  }
}

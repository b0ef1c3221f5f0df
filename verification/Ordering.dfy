/** Strictly ascending sequences and the stable insertion sort that the model uses for
    Rust's `sort_by_key`, `BTreeMap` iteration and hash-set iteration. */
module Ordering {
  ghost predicate Asymmetric<T(!new)>(less: (T, T) -> bool) {
    forall x, y :: less(x, y) ==> !less(y, x)
  }

  ghost predicate Transitive<T(!new)>(less: (T, T) -> bool) {
    forall x, y, z :: less(x, y) && less(y, z) ==> less(x, z)
  }

  ghost predicate Ascending<T>(less: (T, T) -> bool, s: seq<T>) {
    forall i, j | 0 <= i < j < |s| :: less(s[i], s[j])
  }

  ghost predicate NoDuplicates<T>(s: seq<T>) {
    forall i, j | 0 <= i < j < |s| :: s[i] != s[j]
  }

  ghost predicate SameElements<T>(a: seq<T>, b: seq<T>) {
    && (forall x | x in a :: x in b)
    && (forall x | x in b :: x in a)
  }

  /** A set of values has at most one strictly ascending listing. */
  lemma {:induction false} AscendingUnique<T(!new)>(less: (T, T) -> bool, a: seq<T>, b: seq<T>)
    requires Asymmetric(less)
    requires Ascending(less, a) && Ascending(less, b) && SameElements(a, b)
    ensures a == b
  {
    assert b == [] || b[0] in b;
    if a == [] {
    } else {
      assert a[0] in b;
      assert b[0] in a;
      assert a[0] == b[0];
      forall x | x in a[1..] ensures x in b[1..] { assert x in b; }
      forall x | x in b[1..] ensures x in a[1..] { assert x in a; }
      AscendingUnique(less, a[1..], b[1..]);
    }
  }

  lemma {:induction false} ListingSize<T>(s: seq<T>, elements: set<T>)
    requires NoDuplicates(s) && forall x :: x in s <==> x in elements
    ensures |s| == |elements|
  {
    if s == [] {
      assert elements == {};
    } else {
      assert s[0] in elements && s == [s[0]] + s[1..];
      ListingSize(s[1..], elements - {s[0]});
    }
  }

  /** In an ascending listing, what is less than the j-th element is listed before it. */
  lemma AscendingPosition<T(!new)>(less: (T, T) -> bool, s: seq<T>, x: T, j: nat)
    requires Asymmetric(less) && Ascending(less, s)
    requires j < |s| && x in s && less(x, s[j])
    ensures exists i :: 0 <= i < j && s[i] == x
    ensures forall i | 0 <= i < |s| && i != j :: s[i] != s[j]
  {
    var i :| 0 <= i < |s| && s[i] == x;
  }

  function Insert<T>(less: (T, T) -> bool, x: T, s: seq<T>): (r: seq<T>)
    ensures multiset(r) == multiset(s) + multiset{x}
  {
    if s == [] then [x]
    else if less(s[0], x) then
      assert s == [s[0]] + s[1..];
      [s[0]] + Insert(less, x, s[1..])
    else [x] + s
  }

  /** Stable sort: equal elements keep their order. */
  function Sort<T>(less: (T, T) -> bool, s: seq<T>): (r: seq<T>)
    ensures multiset(r) == multiset(s)
  {
    if s == [] then []
    else
      assert s == [s[0]] + s[1..];
      Insert(less, s[0], Sort(less, s[1..]))
  }

  lemma MultisetElements<T>(a: seq<T>, b: seq<T>)
    requires multiset(a) == multiset(b)
    ensures SameElements(a, b)
  {
    forall x | x in a ensures x in b { assert x in multiset(b); }
    forall x | x in b ensures x in a { assert x in multiset(a); }
  }

  lemma {:induction false} InsertAscending<T(!new)>(less: (T, T) -> bool, x: T, s: seq<T>)
    requires Transitive(less) && Ascending(less, s)
    requires forall y | y in s :: less(x, y) || less(y, x)
    ensures Ascending(less, Insert(less, x, s))
  {
    var r := Insert(less, x, s);
    if s == [] {
    } else if less(s[0], x) {
      var t := Insert(less, x, s[1..]);
      InsertAscending(less, x, s[1..]);
      forall y | y in t ensures less(s[0], y) {
        assert y in multiset(t);
        assert y == x || y in s[1..];
      }
      assert r == [s[0]] + t;
    } else {
      assert less(x, s[0]);
    }
  }

  /** Sorting distinct, pairwise comparable elements gives a strictly ascending listing. */
  lemma {:induction false} SortAscending<T(!new)>(less: (T, T) -> bool, s: seq<T>)
    requires Transitive(less) && NoDuplicates(s)
    requires forall x, y | x in s && y in s && x != y :: less(x, y) || less(y, x)
    ensures Ascending(less, Sort(less, s))
  {
    if s == [] {
    } else {
      var t := Sort(less, s[1..]);
      SortAscending(less, s[1..]);
      MultisetElements(t, s[1..]);
      forall y | y in t ensures less(s[0], y) || less(y, s[0]) {
        assert y in s[1..];
      }
      InsertAscending(less, s[0], t);
    }
  }

  lemma NoDuplicatesCounts<T>(s: seq<T>)
    ensures NoDuplicates(s) <==> forall x | x in s :: multiset(s)[x] == 1
  {
    if NoDuplicates(s) {
      forall i | 0 <= i < |s| ensures multiset(s)[s[i]] == 1 {
        assert s == s[..i] + [s[i]] + s[i + 1..];
        assert s[i] !in s[..i] && s[i] !in s[i + 1..];
      }
    } else {
      var i, j :| 0 <= i < j < |s| && s[i] == s[j];
      assert s == s[..j] + s[j..];
      assert s[i] in s[..j] && s[j] in s[j..];
      assert multiset(s)[s[i]] == multiset(s[..j])[s[i]] + multiset(s[j..])[s[i]];
    }
  }

  /** Sorting any permutation of a strictly ascending list restores the list. */
  lemma SortOfPermutation<T(!new)>(less: (T, T) -> bool, sorted: seq<T>, shuffled: seq<T>)
    requires Asymmetric(less) && Transitive(less) && Ascending(less, sorted)
    requires multiset(shuffled) == multiset(sorted)
    ensures Sort(less, shuffled) == sorted
  {
    MultisetElements(shuffled, sorted);
    NoDuplicatesCounts(sorted);
    NoDuplicatesCounts(shuffled);
    forall x, y | x in shuffled && y in shuffled && x != y ensures less(x, y) || less(y, x) {
      assert x in sorted && y in sorted;
      var i, j :| 0 <= i < |sorted| && 0 <= j < |sorted| && sorted[i] == x && sorted[j] == y;
    }
    SortAscending(less, shuffled);
    MultisetElements(Sort(less, shuffled), shuffled);
    AscendingUnique(less, Sort(less, shuffled), sorted);
  }

  /** The elements of `s` that are in `keep`, in the order of `s`. */
  function Restrict<T(==)>(s: seq<T>, keep: set<T>): seq<T> {
    if s == [] then []
    else (if s[0] in keep then [s[0]] else []) + Restrict(s[1..], keep)
  }

  lemma {:induction false} RestrictAscending<T(!new)>(less: (T, T) -> bool, s: seq<T>, keep: set<T>)
    requires Ascending(less, s)
    ensures Ascending(less, Restrict(s, keep))
    ensures forall x :: x in Restrict(s, keep) <==> x in s && x in keep
  {
    if s == [] {
    } else {
      var rest := Restrict(s[1..], keep);
      RestrictAscending(less, s[1..], keep);
      assert s == [s[0]] + s[1..];
      forall x | x in rest ensures less(s[0], x) {
        assert x in s[1..];
      }
    }
  }

  // ---- stability ----

  /** The elements of `s` at the positions `at`. */
  function Picked<T>(s: seq<T>, at: seq<nat>): (r: seq<T>)
    requires forall i | 0 <= i < |at| :: at[i] < |s|
    ensures |r| == |at| && forall i | 0 <= i < |r| :: r[i] == s[at[i]]
  {
    seq(|at|, i requires 0 <= i < |at| => s[at[i]])
  }

  /** Comparing is comparing keys: what is less than `z` or not than `y` decides between the two. */
  ghost predicate IsWeakOrder<T(!new)>(less: (T, T) -> bool) {
    Asymmetric(less) && forall x, y, z :: less(x, z) ==> less(x, y) || less(y, z)
  }

  /** Position `p` comes before `q` in a stable sort: it holds the lesser element, or an equal one earlier. */
  ghost predicate Precedes<T>(less: (T, T) -> bool, s: seq<T>, p: nat, q: nat)
    requires p < |s| && q < |s|
  {
    less(s[p], s[q]) || (!less(s[q], s[p]) && p < q)
  }

  ghost predicate Positions<T>(s: seq<T>, at: seq<nat>) {
    forall i | 0 <= i < |at| :: at[i] < |s|
  }

  ghost predicate ListsAll(n: nat, at: seq<nat>) {
    forall p: nat | p < n :: p in at
  }

  /** `at` lists the positions of `s`, the lesser elements first and of equal elements the earlier. */
  ghost predicate SortsStably<T>(less: (T, T) -> bool, s: seq<T>, at: seq<nat>) {
    && Positions(s, at) && ListsAll(|s|, at)
    && forall i, j | 0 <= i < j < |at| :: Precedes(less, s, at[i], at[j])
  }

  /** Where `Insert` puts an element: after the leading lesser ones. */
  function InsertPosition<T>(less: (T, T) -> bool, x: T, s: seq<T>): (k: nat)
    ensures k <= |s|
  {
    if s == [] || !less(s[0], x) then 0 else 1 + InsertPosition(less, x, s[1..])
  }

  lemma PutBack<T>(s: seq<T>, x: T, k: nat)
    requires k < |s|
    ensures s[..k + 1] + [x] + s[k + 1..] == [s[0]] + (s[1..][..k] + [x] + s[1..][k..])
  {
    assert s[..k + 1] == [s[0]] + s[1..][..k] && s[k + 1..] == s[1..][k..];
  }

  lemma InsertUnfold<T>(less: (T, T) -> bool, x: T, s: seq<T>)
    ensures s == [] || !less(s[0], x) ==> Insert(less, x, s) == s[..0] + [x] + s[0..]
    ensures s != [] && less(s[0], x) ==> Insert(less, x, s) == [s[0]] + Insert(less, x, s[1..])
  {
  }

  lemma {:induction false} InsertAtPosition<T>(less: (T, T) -> bool, x: T, s: seq<T>)
    ensures var k := InsertPosition(less, x, s); Insert(less, x, s) == s[..k] + [x] + s[k..]
  {
    hide Insert;
    InsertUnfold(less, x, s);
    if s == [] || !less(s[0], x) {
    } else {
      assert InsertPosition(less, x, s) == 1 + InsertPosition(less, x, s[1..]);
      hide InsertPosition;
      InsertAtPosition(less, x, s[1..]);
      PutBack(s, x, InsertPosition(less, x, s[1..]));
    }
  }

  lemma {:induction false} PositionSplits<T>(less: (T, T) -> bool, x: T, s: seq<T>, i: nat)
    requires i < |s|
    ensures i < InsertPosition(less, x, s) ==> less(s[i], x)
    ensures i == InsertPosition(less, x, s) ==> !less(s[i], x)
  {
    if less(s[0], x) && i > 0 {
      PositionSplits(less, x, s[1..], i - 1);
    }
  }

  /** The positions of a tail, seen from the whole. */
  function Shifted(at: seq<nat>): (r: seq<nat>)
    ensures |r| == |at| && forall i | 0 <= i < |r| :: r[i] == at[i] + 1
  {
    seq(|at|, i requires 0 <= i < |at| => at[i] + 1)
  }

  lemma ShiftedElements(rest: seq<nat>, p: nat)
    ensures p in Shifted(rest) <==> p > 0 && (p - 1) as nat in rest
  {
    if p in Shifted(rest) {
      var i :| 0 <= i < |rest| && Shifted(rest)[i] == p;
      assert rest[i] == p - 1;
    }
    if p > 0 && (p - 1) as nat in rest {
      var i :| 0 <= i < |rest| && rest[i] == p - 1;
      assert Shifted(rest)[i] == p;
    }
  }

  lemma PickedFront<T>(s: seq<T>, rest: seq<nat>, first: bool)
    requires s != [] && forall i | 0 <= i < |rest| :: rest[i] < |s| - 1
    ensures var at := (if first then [0] else []) + Shifted(rest);
            && (forall i | 0 <= i < |at| :: at[i] < |s|)
            && Picked(s, at) == (if first then [s[0]] else []) + Picked(s[1..], rest)
  {
    var at := (if first then [0] else []) + Shifted(rest);
    var picked := (if first then [s[0]] else []) + Picked(s[1..], rest);
    assert forall i | 0 <= i < |at| :: at[i] < |s| && s[at[i]] == picked[i];
  }

  lemma ListsAllAfterInsert(n: nat, rest: seq<nat>, k: nat, at: seq<nat>)
    requires ListsAll(n, rest) && k <= |rest| && at == Shifted(rest)[..k] + [0] + Shifted(rest)[k..]
    ensures ListsAll(n + 1, at)
  {
    forall p: nat | p < n + 1 ensures p in at {
      if p == 0 {
        assert at[k] == 0;
      } else {
        var tail: nat := p - 1;
        assert tail in rest;
        var i :| 0 <= i < |rest| && rest[i] == tail;
        assert at[if i < k then i else i + 1] == p;
      }
    }
  }

  lemma PrecedesShifted<T>(less: (T, T) -> bool, s: seq<T>, p: nat, q: nat)
    requires s != [] && p < |s| - 1 && q < |s| - 1
    ensures Precedes(less, s[1..], p, q) <==> Precedes(less, s, p + 1, q + 1)
  {
  }

  /** Of two elements of a sorted list after the insertion point, neither is less than the new one. */
  lemma NotLessAfter<T(!new)>(less: (T, T) -> bool, x: T, y: T, z: T)
    requires IsWeakOrder(less) && !less(y, x) && !less(z, y)
    ensures !less(z, x)
  {
  }

  lemma LessIsBefore<T>(less: (T, T) -> bool, s: seq<T>, p: nat)
    requires p < |s| - 1 && less(s[1..][p], s[0])
    ensures Precedes(less, s, p + 1, 0)
  {
  }

  lemma NotLessThan<T(!new)>(less: (T, T) -> bool, s: seq<T>, p: nat, q: nat)
    requires IsWeakOrder(less) && p < |s| - 1 && q < |s| - 1
    requires !less(s[1..][p], s[0]) && (p == q || Precedes(less, s[1..], p, q))
    ensures Precedes(less, s, 0, q + 1)
  {
    if p != q { NotLessAfter(less, s[0], s[1..][p], s[1..][q]); }
  }

  lemma PositionAfterInsert(rest: seq<nat>, k: nat, at: seq<nat>, i: nat)
    requires k <= |rest| && at == Shifted(rest)[..k] + [0] + Shifted(rest)[k..] && i < |at|
    ensures |at| == |rest| + 1
    ensures at[i] == if i < k then rest[i] + 1 else if i == k then 0 else rest[i - 1] + 1
  {
  }

  lemma InsertedFirst<T(!new)>(less: (T, T) -> bool, s: seq<T>, rest: seq<nat>, k: nat, j: nat)
    requires IsWeakOrder(less) && s != [] && SortsStably(less, s[1..], rest)
    requires k == InsertPosition(less, s[0], Picked(s[1..], rest)) && k <= j < |rest|
    ensures Precedes(less, s, 0, rest[j] + 1)
  {
    hide InsertPosition, IsWeakOrder, Precedes, ListsAll;
    PositionSplits(less, s[0], Picked(s[1..], rest), k);
    NotLessThan(less, s, rest[k], rest[j]);
  }

  lemma StableAfterInsert<T(!new)>(less: (T, T) -> bool, s: seq<T>, rest: seq<nat>, k: nat, at: seq<nat>, i: nat, j: nat)
    requires IsWeakOrder(less) && s != [] && SortsStably(less, s[1..], rest)
    requires k == InsertPosition(less, s[0], Picked(s[1..], rest))
    requires at == Shifted(rest)[..k] + [0] + Shifted(rest)[k..]
    requires i < j < |at|
    ensures at[i] < |s| && at[j] < |s| && Precedes(less, s, at[i], at[j])
  {
    hide InsertPosition, IsWeakOrder, Precedes, ListsAll, Shifted;
    PositionAfterInsert(rest, k, at, i);
    PositionAfterInsert(rest, k, at, j);
    if i == k {
      InsertedFirst(less, s, rest, k, j - 1);
    } else if j == k {
      PositionSplits(less, s[0], Picked(s[1..], rest), i);
      LessIsBefore(less, s, rest[i]);
    } else {
      PrecedesShifted(less, s, rest[if i < k then i else i - 1], rest[if j < k then j else j - 1]);
    }
  }

  lemma PickedAfterInsert<T>(s: seq<T>, rest: seq<nat>, k: nat, at: seq<nat>)
    requires s != [] && Positions(s[1..], rest) && k <= |rest|
    requires at == Shifted(rest)[..k] + [0] + Shifted(rest)[k..]
    ensures Positions(s, at)
    ensures var sorted := Picked(s[1..], rest); Picked(s, at) == sorted[..k] + [s[0]] + sorted[k..]
  {
    var sorted := Picked(s[1..], rest);
    var all := sorted[..k] + [s[0]] + sorted[k..];
    forall i | 0 <= i < |at| ensures at[i] < |s| && s[at[i]] == all[i] {
    }
  }

  /** `Sort` is stable. */
  lemma {:induction false} StableSort<T(!new)>(less: (T, T) -> bool, s: seq<T>) returns (at: seq<nat>)
    requires IsWeakOrder(less)
    ensures SortsStably(less, s, at) && Sort(less, s) == Picked(s, at)
  {
    if s == [] {
      at := [];
    } else {
      var tail := s[1..];
      var rest := StableSort(less, tail);
      var sorted := Sort(less, tail);
      assert Sort(less, s) == Insert(less, s[0], sorted);
      hide Sort, Insert, InsertPosition, IsWeakOrder, Precedes;
      var k := InsertPosition(less, s[0], sorted);
      at := Shifted(rest)[..k] + [0] + Shifted(rest)[k..];
      InsertAtPosition(less, s[0], sorted);
      PickedAfterInsert(s, rest, k, at);
      ListsAllAfterInsert(|tail|, rest, k, at);
      hide ListsAll, Positions, Picked;
      forall i: nat, j: nat | i < j < |at| ensures at[i] < |s| && at[j] < |s| && Precedes(less, s, at[i], at[j]) {
        StableAfterInsert(less, s, rest, k, at, i, j);
      }
    }
  }

  /** Lists a finite set in an arbitrary order, as hash-set iteration does. */
  method ListInAnyOrder<T(==)>(s: set<T>) returns (q: seq<T>)
    ensures NoDuplicates(q)
    ensures forall x :: x in q <==> x in s
  {
    q := [];
    var rest := s;
    while rest != {}
      invariant rest <= s && NoDuplicates(q)
      invariant forall x :: x in q <==> x in s && x !in rest
      decreases rest
    {
      var x :| x in rest;
      q := q + [x];
      rest := rest - {x};
    }
  }
}

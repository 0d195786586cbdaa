/** A stable insertion sort by any strict order, standing for the library's sort. */
module Sorting {
  import opened Segments

  function Insert<T>(x: T, sorted: seq<T>, before: (T, T) -> bool): seq<T> {
    if sorted == [] || before(x, sorted[0]) then [x] + sorted else [sorted[0]] + Insert(x, sorted[1..], before)
  }

  function Sort<T>(s: seq<T>, before: (T, T) -> bool): seq<T> {
    if s == [] then [] else Insert(Last(s), Sort(s[..|s| - 1], before), before)
  }

  predicate InOrder<T>(s: seq<T>, before: (T, T) -> bool) {
    forall i, j | 0 <= i < j < |s| :: !before(s[j], s[i])
  }

  ghost predicate Strict<T(!new)>(before: (T, T) -> bool) {
    && (forall x :: !before(x, x))
    && (forall x, y, z | before(x, y) && before(y, z) :: before(x, z))
  }

  lemma InOrderCons<T>(x: T, rest: seq<T>, before: (T, T) -> bool)
    requires InOrder(rest, before) && forall y | y in rest :: !before(y, x)
    ensures InOrder([x] + rest, before)
  {
    var all := [x] + rest;
    forall i, j | 0 <= i < j < |all| ensures !before(all[j], all[i]) {
      assert all[j] == rest[j - 1];
    }
  }

  lemma {:induction false} InsertAdds<T>(x: T, sorted: seq<T>, before: (T, T) -> bool)
    ensures multiset(Insert(x, sorted, before)) == multiset(sorted) + multiset{x}
    ensures forall y | y in Insert(x, sorted, before) :: y == x || y in sorted
  {
    if sorted == [] || before(x, sorted[0]) {
    } else {
      InsertAdds(x, sorted[1..], before);
      assert sorted == [sorted[0]] + sorted[1..];
    }
  }

  lemma {:induction false} InsertSorts<T(!new)>(x: T, sorted: seq<T>, before: (T, T) -> bool)
    requires Strict(before) && InOrder(sorted, before)
    ensures InOrder(Insert(x, sorted, before), before)
  {
    if sorted == [] {
    } else if before(x, sorted[0]) {
      assert forall i | 0 <= i < |sorted| :: i == 0 || !before(sorted[i], sorted[0]);
      InOrderCons(x, sorted, before);
    } else {
      var rest := sorted[1..];
      InsertSorts(x, rest, before);
      InsertAdds(x, rest, before);
      assert forall i | 0 <= i < |rest| :: !before(sorted[i + 1], sorted[0]) && rest[i] == sorted[i + 1];
      InOrderCons(sorted[0], Insert(x, rest, before), before);
    }
  }

  /** The result is a permutation in order. */
  lemma {:induction false} SortSorts<T(!new)>(s: seq<T>, before: (T, T) -> bool)
    requires Strict(before)
    ensures InOrder(Sort(s, before), before) && multiset(Sort(s, before)) == multiset(s)
  {
    if s == [] {
    } else {
      var front := s[..|s| - 1];
      SortSorts(front, before);
      hide InOrder, Insert, Strict;
      InsertSorts(Last(s), Sort(front, before), before);
      InsertAdds(Last(s), Sort(front, before), before);
      assert s == front + [Last(s)];
    }
  }
}

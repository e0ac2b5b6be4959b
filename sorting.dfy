/** Sorting rows by `Fecha`, as `sort_values('Fecha')` and `sorted(...)` do. The
    model sorts by insertion, which keeps equal dates in input order. */
module Sorting {
  import opened Dates

  predicate SortedBy<T>(s: seq<T>, key: T -> Date) {
    forall i, j :: 0 <= i < j < |s| ==> DateLe(key(s[i]), key(s[j]))
  }

  function Insert<T>(x: T, s: seq<T>, key: T -> Date): (r: seq<T>)
    ensures multiset(r) == multiset(s) + multiset{x}
  {
    if s == [] then [x]
    else if DateLe(key(x), key(s[0])) then [x] + s
    else
      assert s == [s[0]] + s[1..];
      [s[0]] + Insert(x, s[1..], key)
  }

  /** The elements of an insertion are the new one and the old ones. */
  lemma {:induction false} InsertMembers<T>(x: T, s: seq<T>, key: T -> Date, y: T)
    requires y in Insert(x, s, key)
    ensures y == x || y in s
  {
    if s != [] && !DateLe(key(x), key(s[0])) && y != s[0] {
      InsertMembers(x, s[1..], key, y);
    }
  }

  /** A sorted sequence stays sorted behind an element no later than any
      of its own. */
  lemma ConsSorted<T>(h: T, rest: seq<T>, key: T -> Date)
    requires SortedBy(rest, key)
    requires forall y :: y in rest ==> DateLe(key(h), key(y))
    ensures SortedBy([h] + rest, key)
  {
    var r := [h] + rest;
    forall i, j | 0 <= i < j < |r| ensures DateLe(key(r[i]), key(r[j])) {
      assert r[j] == rest[j - 1];
      if i == 0 {
        assert rest[j - 1] in rest;
      } else {
        assert r[i] == rest[i - 1];
      }
    }
  }

  lemma {:induction false} InsertSorted<T>(x: T, s: seq<T>, key: T -> Date)
    requires SortedBy(s, key)
    ensures SortedBy(Insert(x, s, key), key)
  {
    if s != [] && !DateLe(key(x), key(s[0])) {
      var rest := Insert(x, s[1..], key);
      assert SortedBy(s[1..], key);
      InsertSorted(x, s[1..], key);
      forall y | y in rest ensures DateLe(key(s[0]), key(y)) {
        InsertMembers(x, s[1..], key, y);
        if y != x {
          var j :| 0 <= j < |s[1..]| && s[1..][j] == y;
          assert s[j + 1] == y;
        }
      }
      ConsSorted(s[0], rest, key);
    }
  }

  function SortBy<T>(s: seq<T>, key: T -> Date): (r: seq<T>)
    ensures multiset(r) == multiset(s)
    ensures SortedBy(r, key)
  {
    if s == [] then []
    else
      assert s == [s[0]] + s[1..];
      InsertSorted(s[0], SortBy(s[1..], key), key);
      Insert(s[0], SortBy(s[1..], key), key)
  }

  /** A sequence already in date order is left as it is. */
  lemma {:induction false} SortByOfSorted<T>(s: seq<T>, key: T -> Date)
    requires SortedBy(s, key)
    ensures SortBy(s, key) == s
  {
    if s != [] {
      assert SortedBy(s[1..], key);
      SortByOfSorted(s[1..], key);
      assert s == [s[0]] + s[1..];
    }
  }

  /** The date of position `p` in a table whose date column is `dates`. */
  function DateOfRow(dates: seq<Date>): nat -> Date {
    (p: nat) => if p < |dates| then dates[p] else Date(0, 0, 0)
  }

  /** Row positions in `Fecha` order. */
  function SortPositions(ps: seq<nat>, dates: seq<Date>): (r: seq<nat>)
    ensures multiset(r) == multiset(ps)
    ensures SortedBy(r, DateOfRow(dates))
  {
    SortBy(ps, DateOfRow(dates))
  }

  /** Dates in increasing order. */
  function SortDates(ds: seq<Date>): (r: seq<Date>)
    ensures multiset(r) == multiset(ds)
    ensures forall i, j :: 0 <= i < j < |r| ==> DateLe(r[i], r[j])
  {
    var r := SortBy(ds, (d: Date) => d);
    assert SortedBy(r, (d: Date) => d);
    r
  }
}

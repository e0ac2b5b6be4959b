/** pandas' `median` on the non-null values of a column. */
module Stats {
  import opened Wrappers
  import opened Tables

  predicate Sorted(s: seq<real>) {
    forall i, j :: 0 <= i < j < |s| ==> s[i] <= s[j]
  }

  function InsertReal(x: real, s: seq<real>): (r: seq<real>)
    ensures multiset(r) == multiset(s) + multiset{x}
  {
    if s == [] then [x]
    else if x <= s[0] then [x] + s
    else
      assert s == [s[0]] + s[1..];
      [s[0]] + InsertReal(x, s[1..])
  }

  /** The elements of an insertion are the new one and the old ones. */
  lemma {:induction false} InsertRealMembers(x: real, s: seq<real>, y: real)
    requires y in InsertReal(x, s)
    ensures y == x || y in s
  {
    if s != [] && !(x <= s[0]) && y != s[0] {
      InsertRealMembers(x, s[1..], y);
    }
  }

  /** A sorted sequence stays sorted behind a value no larger than any of
      its own. */
  lemma ConsSortedReal(h: real, rest: seq<real>)
    requires Sorted(rest)
    requires forall y :: y in rest ==> h <= y
    ensures Sorted([h] + rest)
  {
    var r := [h] + rest;
    forall i, j | 0 <= i < j < |r| ensures r[i] <= r[j] {
      assert r[j] == rest[j - 1];
      if i == 0 {
        assert rest[j - 1] in rest;
      } else {
        assert r[i] == rest[i - 1];
      }
    }
  }

  lemma {:induction false} InsertRealSorted(x: real, s: seq<real>)
    requires Sorted(s)
    ensures Sorted(InsertReal(x, s))
  {
    if s != [] && !(x <= s[0]) {
      var rest := InsertReal(x, s[1..]);
      assert Sorted(s[1..]);
      InsertRealSorted(x, s[1..]);
      forall y | y in rest ensures s[0] <= y {
        InsertRealMembers(x, s[1..], y);
        if y != x {
          var j :| 0 <= j < |s[1..]| && s[1..][j] == y;
          assert s[j + 1] == y;
        }
      }
      ConsSortedReal(s[0], rest);
    }
  }

  function SortReals(s: seq<real>): (r: seq<real>)
    ensures multiset(r) == multiset(s)
    ensures Sorted(r)
  {
    if s == [] then []
    else
      assert s == [s[0]] + s[1..];
      InsertRealSorted(s[0], SortReals(s[1..]));
      InsertReal(s[0], SortReals(s[1..]))
  }

  /** The middle value of sorted values; the mean of the two middle ones
      when there is an even number of them. It lies between the first and
      the last value. */
  function MiddleOf(t: seq<real>): (m: real)
    requires |t| > 0 && Sorted(t)
    ensures t[0] <= m <= t[|t| - 1]
  {
    var n := |t|;
    assert t[0] <= t[n / 2] <= t[n - 1];
    assert n % 2 == 0 ==> t[0] <= t[n / 2 - 1] <= t[n - 1];
    if n % 2 == 1 then t[n / 2]
    else (t[n / 2 - 1] + t[n / 2]) / 2.0
  }

  /** The median: the middle of the sorted values. It lies between the
      smallest and the largest value. */
  function Median(s: seq<real>): (m: real)
    requires |s| > 0
    ensures exists x :: x in s && x <= m
    ensures exists y :: y in s && m <= y
  {
    var t := SortReals(s);
    var n := |t|;
    assert |t| == |multiset(t)| == |s|;
    assert t[0] in multiset(s) && t[n - 1] in multiset(s);
    assert t[0] in s && t[n - 1] in s;
    MiddleOf(t)
  }

  /** A sorted sequence starts with its smallest element. */
  lemma SortedFirst(s: seq<real>, x: real)
    requires Sorted(s) && x in s
    ensures s[0] <= x
  {
    var i :| 0 <= i < |s| && s[i] == x;
    if i > 0 {
      assert s[0] <= s[i];
    }
  }

  /** Sorted sequences with the same elements start with the same value. */
  lemma SortedHeads(a: seq<real>, b: seq<real>)
    requires Sorted(a) && Sorted(b) && multiset(a) == multiset(b) && a != []
    ensures b != [] && a[0] == b[0]
  {
    assert |a| == |multiset(a)| == |b|;
    assert a[0] in multiset(b) && b[0] in multiset(a);
    SortedFirst(b, a[0]);
    SortedFirst(a, b[0]);
  }

  /** Equal heads and equal elements leave tails with equal elements. */
  lemma TailElements(a: seq<real>, b: seq<real>)
    requires a != [] && b != [] && a[0] == b[0] && multiset(a) == multiset(b)
    ensures multiset(a[1..]) == multiset(b[1..])
  {
    assert a == [a[0]] + a[1..];
    assert b == [b[0]] + b[1..];
    assert multiset(a) == multiset{a[0]} + multiset(a[1..]);
    assert multiset(b) == multiset{b[0]} + multiset(b[1..]);
    assert multiset(a[1..]) == multiset(a) - multiset{a[0]};
    assert multiset(b[1..]) == multiset(b) - multiset{b[0]};
  }

  /** Two sorted sequences with the same elements are equal. */
  lemma {:induction false} SortedUnique(a: seq<real>, b: seq<real>)
    requires Sorted(a) && Sorted(b) && multiset(a) == multiset(b)
    ensures a == b
  {
    if a != [] {
      SortedHeads(a, b);
      TailElements(a, b);
      assert Sorted(a[1..]) && Sorted(b[1..]);
      SortedUnique(a[1..], b[1..]);
      assert a == [a[0]] + a[1..] && b == [b[0]] + b[1..];
    } else {
      assert |b| == |multiset(b)| == 0;
    }
  }

  /** The median depends on the values only, not on their order. */
  lemma MedianOfPermutation(a: seq<real>, b: seq<real>)
    requires |a| > 0 && multiset(a) == multiset(b)
    ensures |b| > 0 && Median(a) == Median(b)
  {
    assert |a| == |multiset(a)| == |b|;
    SortedUnique(SortReals(a), SortReals(b));
  }

  /** `notna()`: which entries are known. */
  function KnownMask(v: seq<Option<real>>): (m: seq<bool>)
    ensures |m| == |v| && forall i :: 0 <= i < |v| ==> m[i] == v[i].Some?
  {
    seq(|v|, i requires 0 <= i < |v| => v[i].Some?)
  }

  /** The non-null values, in order (`KnownsInOrder`). */
  function Knowns(v: seq<Option<real>>): (r: seq<real>)
    ensures |r| <= |v|
    ensures forall x :: x in r <==> Some(x) in v
  {
    if v == [] then []
    else
      var init := Knowns(v[..|v| - 1]);
      assert v == v[..|v| - 1] + [v[|v| - 1]];
      match v[|v| - 1]
      case None => init
      case Some(x) => init + [x]
  }

  /** `Knowns` keeps repeats and order: its k-th value is the one at the k-th
      known position. */
  lemma {:induction false} KnownsInOrder(v: seq<Option<real>>)
    ensures var ps := Positions(KnownMask(v), true);
      |Knowns(v)| == |ps| && forall k :: 0 <= k < |ps| ==> ps[k] < |v| && v[ps[k]] == Some(Knowns(v)[k])
  {
    if v != [] {
      var n := |v| - 1;
      KnownsInOrder(v[..n]);
      assert KnownMask(v)[..n] == KnownMask(v[..n]);
      var ps := Positions(KnownMask(v[..n]), true);
      var r0 := Knowns(v[..n]);
      var ps1 := Positions(KnownMask(v), true);
      var r1 := Knowns(v);
      assert ps1 == if v[n].Some? then ps + [n] else ps;
      assert r1 == if v[n].Some? then r0 + [v[n].value] else r0;
      forall k | 0 <= k < |ps1| ensures ps1[k] < |v| && v[ps1[k]] == Some(r1[k]) {
        if k < |ps| {
          assert ps[k] in ps;
          assert v[..n][ps[k]] == v[ps[k]];
        }
      }
    }
  }

  /** `Series.median()` with NaN skipped: NaN (None) when no value is known. */
  function MedianOf(v: seq<Option<real>>): (r: Option<real>)
    ensures r.Some? <==> exists k :: 0 <= k < |v| && v[k].Some?
    ensures r.Some? ==> exists x :: Some(x) in v && x <= r.value
    ensures r.Some? ==> exists y :: Some(y) in v && r.value <= y
  {
    var xs := Knowns(v);
    if xs == [] then
      assert forall k :: 0 <= k < |v| ==> v[k].None? by {
        forall k | 0 <= k < |v| ensures v[k].None? {
          assert v[k] in v;
        }
      }
      None
    else
      assert Some(xs[0]) in v;
      Some(Median(xs))
  }

  lemma KnownsExample()
    ensures Knowns([Some(1.0), Some(1.0), None, Some(5.0)]) == [1.0, 1.0, 5.0]
  {
    var v := [Some(1.0), Some(1.0), None, Some(5.0)];
    assert v[..3] == [Some(1.0), Some(1.0), None];
    assert v[..3][..2] == [Some(1.0), Some(1.0)];
    assert v[..3][..2][..1] == [Some(1.0)];
    assert Knowns([Some(1.0)]) == [1.0];
    assert Knowns([Some(1.0), Some(1.0)]) == [1.0, 1.0];
    assert Knowns([Some(1.0), Some(1.0), None]) == [1.0, 1.0];
  }

  lemma SortExample()
    ensures SortReals([1.0, 1.0, 5.0]) == [1.0, 1.0, 5.0]
  {
    assert SortReals([5.0]) == [5.0];
    assert [1.0, 5.0][1..] == [5.0];
    assert InsertReal(1.0, [5.0]) == [1.0, 5.0];
    assert SortReals([1.0, 5.0]) == [1.0, 5.0];
    assert [1.0, 1.0, 5.0][1..] == [1.0, 5.0];
    assert InsertReal(1.0, [1.0, 5.0]) == [1.0, 1.0, 5.0];
  }

  /** Repeated values count: the median of 1, 1, 5 is 1, not 3. */
  lemma MedianRepeatsExample()
    ensures MedianOf([Some(1.0), Some(1.0), None, Some(5.0)]) == Some(1.0)
  {
    KnownsExample();
    SortExample();
    var t := [1.0, 1.0, 5.0];
    assert Sorted(t);
    assert MiddleOf(t) == t[1] == 1.0;
    assert Median(t) == 1.0;
  }
}

/** The `'estacional'` strategy (`_interpolacion_estacional`): per comuna, a
    missing day takes the median of the known values on the same day of the
    year; failing that, the median of the comuna's series as filled so far. */
module SeasonalFill {
  import opened Wrappers
  import opened Dates
  import opened Stats
  import opened Tables
  import opened ComunaFill

  /** Which rows have a date satisfying `keep`. */
  function KeepMask(dates: seq<Date>, keep: Date -> bool): (m: seq<bool>)
    ensures |m| == |dates| && forall i :: 0 <= i < |dates| ==> m[i] == keep(dates[i])
  {
    seq(|dates|, i requires 0 <= i < |dates| => keep(dates[i]))
  }

  /** The values of the rows whose date satisfies `keep`, in order
      (`SelectInOrder`). */
  function Select(dates: seq<Date>, v: seq<Option<real>>, keep: Date -> bool): (r: seq<Option<real>>)
    requires |dates| == |v|
    ensures forall x :: x in r <==> exists k :: 0 <= k < |v| && keep(dates[k]) && v[k] == x
  {
    if v == [] then []
    else
      var n := |v| - 1;
      var init := Select(dates[..n], v[..n], keep);
      assert forall k :: 0 <= k < n ==> dates[..n][k] == dates[k] && v[..n][k] == v[k];
      if keep(dates[n]) then init + [v[n]] else init
  }

  /** `Select` keeps repeats and order: its k-th value is the one at the k-th
      kept position. */
  lemma {:induction false} SelectInOrder(dates: seq<Date>, v: seq<Option<real>>, keep: Date -> bool)
    requires |dates| == |v|
    ensures var ps := Positions(KeepMask(dates, keep), true);
      |Select(dates, v, keep)| == |ps| &&
      forall k :: 0 <= k < |ps| ==> ps[k] < |v| && Select(dates, v, keep)[k] == v[ps[k]]
  {
    if v != [] {
      var n := |v| - 1;
      SelectInOrder(dates[..n], v[..n], keep);
      assert forall k :: 0 <= k < n ==> dates[..n][k] == dates[k] && v[..n][k] == v[k];
      assert KeepMask(dates, keep)[..n] == KeepMask(dates[..n], keep);
      var ps := Positions(KeepMask(dates[..n], keep), true);
      assert forall k :: 0 <= k < |ps| ==> ps[k] in ps;
    }
  }

  /** `dia_año`: the rows on day of the year `d`. */
  function OnDay(d: int): Date -> bool {
    (x: Date) => DayOfYear(x) == d
  }

  /** `mes`: the rows in month `m`. */
  function InMonth(m: int): Date -> bool {
    (x: Date) => x.month == m
  }

  /** The days of the year the series covers. */
  function Days(dates: seq<Date>): set<int> {
    set k | 0 <= k < |dates| :: DayOfYear(dates[k])
  }

  /** `patron_estacional`: `groupby('dia_año').median()` over the values as
      they were before any filling; a day with no known value maps to NaN. */
  function Pattern(dates: seq<Date>, v: seq<Option<real>>): (pat: map<int, Option<real>>)
    requires |dates| == |v|
    ensures forall d :: d in pat <==> d in Days(dates)
  {
    map d | d in Days(dates) :: MedianOf(Select(dates, v, OnDay(d)))
  }

  /** `temp_base` for position `k` of the current series `cur`: the day's
      pattern value if the day is a key, the month's median otherwise, and the
      median of the whole current series when that is NaN. */
  function Base(dates: seq<Date>, pat: map<int, Option<real>>, cur: seq<Option<real>>, k: nat): Option<real>
    requires k < |dates| == |cur|
  {
    var d := DayOfYear(dates[k]);
    var b := if d in pat then pat[d] else MedianOf(Select(dates, cur, InMonth(dates[k].month)));
    if b.Some? then b else MedianOf(cur)
  }

  /** The loop over the positions missing in `v`, from position `k` on, with
      the series as `cur` so far. */
  function SeasonalFrom(dates: seq<Date>, v: seq<Option<real>>, pat: map<int, Option<real>>,
                        cur: seq<Option<real>>, k: nat): (r: seq<Option<real>>)
    requires |dates| == |v| == |cur| && k <= |v|
    ensures |r| == |v|
    decreases |v| - k
  {
    if k == |v| then cur
    else
      var next := if v[k].None? then cur[k := Base(dates, pat, cur, k)] else cur;
      SeasonalFrom(dates, v, pat, next, k + 1)
  }

  /** The comuna's filled series. */
  function SeasonalSeries(dates: seq<Date>, v: seq<Option<real>>): (r: seq<Option<real>>)
    requires |dates| == |v|
    ensures |r| == |v|
  {
    SeasonalFrom(dates, v, Pattern(dates, v), v, 0)
  }

  /** The inner loop, `for idx in comuna_data[missing_mask].index`, over the
      date-ordered series. */
  method FillSeasonalSeries(dates: seq<Date>, v: seq<Option<real>>) returns (r: seq<Option<real>>)
    requires |dates| == |v|
    ensures r == SeasonalSeries(dates, v)
  {
    var pat := Pattern(dates, v);
    r := v;
    for k := 0 to |v|
      invariant |r| == |v|
      invariant SeasonalFrom(dates, v, pat, r, k) == SeasonalSeries(dates, v)
    {
      if v[k].None? {
        var base := Base(dates, pat, r, k);
        r := r[k := base];
      }
    }
  }

  /** What the loop has done when it reaches each position: a known value is
      kept, and a missing one receives the base value computed from the
      series as it stands then, filled before `j` and original from `j` on. */
  lemma {:induction false} SeasonalFromSteps(dates: seq<Date>, v: seq<Option<real>>,
                                             pat: map<int, Option<real>>, cur: seq<Option<real>>, k: nat)
    requires |dates| == |v| == |cur| && k <= |v|
    requires cur[k..] == v[k..]
    ensures var r := SeasonalFrom(dates, v, pat, cur, k);
      r[..k] == cur[..k] &&
      forall j :: k <= j < |v| ==>
        r[j] == if v[j].Some? then v[j] else Base(dates, pat, r[..j] + v[j..], j)
    decreases |v| - k
  {
    if k < |v| {
      var next := if v[k].None? then cur[k := Base(dates, pat, cur, k)] else cur;
      NextUnchanged(v, cur, next, k);
      SeasonalFromSteps(dates, v, pat, next, k + 1);
      StepCombine(dates, v, pat, cur, next, SeasonalFrom(dates, v, pat, next, k + 1), k);
    }
  }

  /** The positions after `k` are untouched by step `k`. */
  lemma NextUnchanged(v: seq<Option<real>>, cur: seq<Option<real>>, next: seq<Option<real>>, k: nat)
    requires |v| == |cur| == |next| && k < |v|
    requires cur[k..] == v[k..]
    requires forall j :: k < j < |v| ==> next[j] == cur[j]
    ensures next[k + 1..] == v[k + 1..]
  {
    forall j | k + 1 <= j < |v| ensures next[j] == v[j] {
      assert cur[k..][j - k] == v[k..][j - k];
    }
  }

  /** Step `k` followed by the rest of the loop. */
  lemma StepCombine(dates: seq<Date>, v: seq<Option<real>>, pat: map<int, Option<real>>,
                    cur: seq<Option<real>>, next: seq<Option<real>>, r: seq<Option<real>>, k: nat)
    requires |dates| == |v| == |cur| == |r| && k < |v|
    requires cur[k..] == v[k..]
    requires next == if v[k].None? then cur[k := Base(dates, pat, cur, k)] else cur
    requires r[..k + 1] == next[..k + 1]
    requires forall j :: k + 1 <= j < |v| ==>
      r[j] == if v[j].Some? then v[j] else Base(dates, pat, r[..j] + v[j..], j)
    ensures r[..k] == cur[..k]
    ensures forall j :: k <= j < |v| ==>
      r[j] == if v[j].Some? then v[j] else Base(dates, pat, r[..j] + v[j..], j)
  {
    assert r[..k] == cur[..k] by {
      assert r[..k] == r[..k + 1][..k] && cur[..k] == next[..k + 1][..k];
    }
    assert cur == r[..k] + v[k..] by {
      assert cur == cur[..k] + cur[k..];
    }
    assert cur[k] == v[k] by {
      assert cur[k..][0] == v[k..][0];
    }
    assert r[k] == next[k] by {
      assert r[k] == r[..k + 1][k];
    }
  }

  /** The loop seen from its result `r`. */
  lemma SeasonalSteps(dates: seq<Date>, v: seq<Option<real>>, j: nat)
    requires |dates| == |v| && j < |v|
    ensures var r := SeasonalSeries(dates, v);
      r[j] == if v[j].Some? then v[j] else Base(dates, Pattern(dates, v), r[..j] + v[j..], j)
  {
    SeasonalFromSteps(dates, v, Pattern(dates, v), v, 0);
  }

  /** Every date's day of the year is a key of the pattern, so the month
      branch is never taken. */
  lemma PatternCoversDates(dates: seq<Date>, v: seq<Option<real>>, k: nat)
    requires |dates| == |v| && k < |dates|
    ensures DayOfYear(dates[k]) in Pattern(dates, v)
    ensures Pattern(dates, v)[DayOfYear(dates[k])] == MedianOf(Select(dates, v, OnDay(DayOfYear(dates[k]))))
  {
    assert DayOfYear(dates[k]) in Days(dates);
  }

  /** Known values are kept. */
  lemma SeasonalKeepsKnown(dates: seq<Date>, v: seq<Option<real>>, k: nat)
    requires |dates| == |v| && k < |v| && v[k].Some?
    ensures SeasonalSeries(dates, v)[k] == v[k]
  {
    SeasonalSteps(dates, v, k);
  }

  /** Some value is known on the same day of the year as `k`, in any year. */
  predicate KnownOnDay(dates: seq<Date>, v: seq<Option<real>>, k: nat)
    requires |dates| == |v| && k < |v|
  {
    exists j :: 0 <= j < |v| && DayOfYear(dates[j]) == DayOfYear(dates[k]) && v[j].Some?
  }

  /** A missing value with known values on its day of the year takes their
      median. */
  lemma SeasonalDayMedian(dates: seq<Date>, v: seq<Option<real>>, k: nat)
    requires |dates| == |v| && k < |v| && v[k].None?
    requires KnownOnDay(dates, v, k)
    ensures SeasonalSeries(dates, v)[k] == MedianOf(Select(dates, v, OnDay(DayOfYear(dates[k]))))
    ensures SeasonalSeries(dates, v)[k].Some?
  {
    var d := DayOfYear(dates[k]);
    var j :| 0 <= j < |v| && DayOfYear(dates[j]) == d && v[j].Some?;
    var day := Select(dates, v, OnDay(d));
    assert OnDay(d)(dates[j]);
    assert v[j] in day;
    var m :| 0 <= m < |day| && day[m] == v[j];
    assert MedianOf(day).Some?;
    SeasonalSteps(dates, v, k);
    PatternCoversDates(dates, v, k);
  }

  /** A missing value with nothing known on its day of the year takes the
      median of the series as it stands: the values filled before it count. */
  lemma SeasonalFallback(dates: seq<Date>, v: seq<Option<real>>, k: nat)
    requires |dates| == |v| && k < |v| && v[k].None?
    requires !KnownOnDay(dates, v, k)
    ensures var r := SeasonalSeries(dates, v);
      r[k] == MedianOf(r[..k] + v[k..])
  {
    var d := DayOfYear(dates[k]);
    var day := Select(dates, v, OnDay(d));
    forall m | 0 <= m < |day| ensures day[m].None? {
      assert day[m] in day;
    }
    assert MedianOf(day).None?;
    SeasonalSteps(dates, v, k);
    PatternCoversDates(dates, v, k);
  }

  /** `x` lies between two known values of `v`. */
  ghost predicate Bracketed(v: seq<Option<real>>, x: real) {
    (exists a :: Some(a) in v && a <= x) && (exists b :: Some(b) in v && x <= b)
  }

  lemma BracketedBetween(v: seq<Option<real>>, a: real, x: real, b: real)
    requires Bracketed(v, a) && Bracketed(v, b) && a <= x <= b
    ensures Bracketed(v, x)
  {
    var a' :| Some(a') in v && a' <= a;
    var b' :| Some(b') in v && b <= b';
  }

  /** A known value of the series as it stands at step `j` is bracketed by the
      original known values, given that the values filled before `j` are. */
  lemma {:induction false} CurrentBracketed(v: seq<Option<real>>, r: seq<Option<real>>, j: nat, x: real)
    requires |r| == |v| && j <= |v|
    requires forall i :: 0 <= i < j && r[i].Some? ==> Bracketed(v, r[i].value)
    requires Some(x) in r[..j] + v[j..]
    ensures Bracketed(v, x)
  {
    var cur := r[..j] + v[j..];
    var i :| 0 <= i < |cur| && cur[i] == Some(x);
    if i < j {
      assert r[i] == Some(x);
    } else {
      assert v[i] == Some(x);
    }
  }

  /** Every value of the result lies between the smallest and the largest
      known value of its comuna's original series: the medians never leave
      that range. */
  lemma {:induction false} SeasonalWithinRange(dates: seq<Date>, v: seq<Option<real>>, k: nat)
    requires |dates| == |v| && k < |v|
    requires SeasonalSeries(dates, v)[k].Some?
    ensures Bracketed(v, SeasonalSeries(dates, v)[k].value)
    decreases k
  {
    var r := SeasonalSeries(dates, v);
    SeasonalSteps(dates, v, k);
    if v[k].Some? {
      assert Some(v[k].value) in v;
    } else {
      var d := DayOfYear(dates[k]);
      var day := Select(dates, v, OnDay(d));
      PatternCoversDates(dates, v, k);
      if MedianOf(day).Some? {
        var m := MedianOf(day).value;
        var a :| Some(a) in day && a <= m;
        var b :| Some(b) in day && m <= b;
        assert Some(a) in v && Some(b) in v;
      } else {
        var cur := r[..k] + v[k..];
        assert r[k] == MedianOf(cur);
        var m := r[k].value;
        forall i | 0 <= i < k && r[i].Some? ensures Bracketed(v, r[i].value) {
          SeasonalWithinRange(dates, v, i);
        }
        var a :| Some(a) in cur && a <= m;
        var b :| Some(b) in cur && m <= b;
        CurrentBracketed(v, r, k, a);
        CurrentBracketed(v, r, k, b);
        BracketedBetween(v, a, m, b);
      }
    }
  }

  /** No value is missing afterwards when one was known before; with nothing
      known the series is returned as it was. */
  lemma SeasonalNoNulls(dates: seq<Date>, v: seq<Option<real>>)
    requires |dates| == |v|
    ensures (exists k :: 0 <= k < |v| && v[k].Some?) ==>
      forall k :: 0 <= k < |v| ==> SeasonalSeries(dates, v)[k].Some?
    ensures (forall k :: 0 <= k < |v| ==> v[k].None?) ==> SeasonalSeries(dates, v) == v
  {
    var r := SeasonalSeries(dates, v);
    if exists j :: 0 <= j < |v| && v[j].Some? {
      var j :| 0 <= j < |v| && v[j].Some?;
      forall k | 0 <= k < |v| ensures r[k].Some? {
        SeasonalSomeAt(dates, v, j, k);
      }
    } else {
      forall k | 0 <= k < |v| ensures r[k] == v[k] {
        SeasonalNoneAt(dates, v, k);
      }
    }
  }

  /** With a known value at `j`, position `k` is filled. */
  lemma SeasonalSomeAt(dates: seq<Date>, v: seq<Option<real>>, j: nat, k: nat)
    requires |dates| == |v| && j < |v| && k < |v| && v[j].Some?
    ensures SeasonalSeries(dates, v)[k].Some?
  {
    var r := SeasonalSeries(dates, v);
    SeasonalSteps(dates, v, k);
    if v[k].None? {
      if j < k {
        SeasonalKeepsKnown(dates, v, j);
      }
      CurrentKnown(v, r, k, j);
      BaseSome(dates, Pattern(dates, v), r[..k] + v[k..], k);
    }
  }

  /** The series as it stands at step `k` has a value at `j` if the result
      has one there (before `k`) or the input has (from `k` on). */
  lemma CurrentKnown(v: seq<Option<real>>, r: seq<Option<real>>, k: nat, j: nat)
    requires |r| == |v| && k <= |v| && j < |v|
    requires if j < k then r[j].Some? else v[j].Some?
    ensures exists i :: 0 <= i < |r[..k] + v[k..]| && (r[..k] + v[k..])[i].Some?
  {
    assert (r[..k] + v[k..])[j].Some?;
  }

  /** A series with a known value gives every position a base value. */
  lemma BaseSome(dates: seq<Date>, pat: map<int, Option<real>>, cur: seq<Option<real>>, k: nat)
    requires k < |dates| == |cur|
    requires exists i :: 0 <= i < |cur| && cur[i].Some?
    ensures Base(dates, pat, cur, k).Some?
  {
  }

  /** With nothing known, position `k` stays missing. */
  lemma {:induction false} SeasonalNoneAt(dates: seq<Date>, v: seq<Option<real>>, k: nat)
    requires |dates| == |v| && k < |v|
    requires forall j :: 0 <= j < |v| ==> v[j].None?
    ensures SeasonalSeries(dates, v)[k] == v[k]
    decreases k
  {
    var r := SeasonalSeries(dates, v);
    SeasonalSteps(dates, v, k);
    PatternCoversDates(dates, v, k);
    var d := DayOfYear(dates[k]);
    var day := Select(dates, v, OnDay(d));
    forall m | 0 <= m < |day| ensures day[m].None? {
      assert day[m] in day;
    }
    var cur := r[..k] + v[k..];
    forall i | 0 <= i < |cur| ensures cur[i].None? {
      if i < k {
        SeasonalNoneAt(dates, v, i);
        assert cur[i] == r[i];
      } else {
        assert cur[i] == v[i];
      }
    }
  }

  /** The series fill of the strategy; a comuna's dates and values always
      have the same length. */
  function SeasonalOf(dates: seq<Date>, v: seq<Option<real>>): (r: seq<Option<real>>)
    ensures |r| == |v|
    ensures |dates| == |v| ==> r == SeasonalSeries(dates, v)
  {
    if |dates| == |v| then SeasonalSeries(dates, v) else v
  }

  /** The table the strategy produces. */
  function SeasonalSpec(df: seq<SeriesRow>): (r: seq<SeriesRow>)
    ensures SameExceptTemp(r, df)
  {
    FillByComuna(df, SeasonalOf)
  }

  /** `_interpolacion_estacional`: the loop over `df['Comuna'].unique()`. */
  method InterpolateSeasonal(df: seq<SeriesRow>) returns (out: seq<SeriesRow>)
    ensures out == SeasonalSpec(df)
  {
    var comunas := Unique(ComunaColumn(df));
    out := df;
    for c := 0 to |comunas|
      invariant WrittenUpTo(df, SeasonalOf, out, comunas[..c])
    {
      var name := comunas[c];
      assert comunas[..c + 1] == comunas[..c] + [name];
      assert name !in comunas[..c];
      WriteStep(df, SeasonalOf, out, comunas[..c], name);
      var mask := ComunaRows(out, name);
      var filled := FillSeasonalSeries(ComunaDates(out, name), ComunaValues(out, name));
      out := Scatter(out, mask, filled);
    }
    assert comunas[..|comunas|] == comunas;
    AllWritten(df, SeasonalOf, out, comunas);
  }

  /** Row `i` receives its comuna's filled series at its rank. */
  lemma SeasonalRow(df: seq<SeriesRow>, i: nat)
    requires i < |df|
    ensures i in ComunaRows(df, df[i].comuna)
    ensures var c := df[i].comuna;
      SeasonalSpec(df)[i].obs.temp ==
        SeasonalSeries(ComunaDates(df, c), ComunaValues(df, c))[IndexOf(ComunaRows(df, c), i)]
  {
    FilledValue(df, SeasonalOf, i);
  }

  /** A row ends up with a value when its comuna has a known value somewhere;
      a comuna with none is left as it was. */
  lemma SeasonalSpecNoNulls(df: seq<SeriesRow>, i: nat)
    requires i < |df|
    ensures (exists j :: 0 <= j < |df| && df[j].comuna == df[i].comuna && df[j].obs.temp.Some?) <==>
      SeasonalSpec(df)[i].obs.temp.Some?
  {
    var c := df[i].comuna;
    var v := ComunaValues(df, c);
    var k := IndexOf(ComunaRows(df, c), i);
    var r := SeasonalSeries(ComunaDates(df, c), v);
    assert SeasonalSpec(df)[i].obs.temp == r[k] by {
      SeasonalRow(df, i);
    }
    assert (exists j :: 0 <= j < |df| && df[j].comuna == c && df[j].obs.temp.Some?) <==> r[k].Some? by {
      ComunaKnown(df, c);
      SeasonalNoNulls(ComunaDates(df, c), v);
      if exists m :: 0 <= m < |v| && v[m].Some? {
        assert r[k].Some?;
      } else {
        assert r[k] == v[k] && v[k].None?;
      }
    }
  }

  /** Whatever the storage order, a row's value lies between two known values
      of its comuna. */
  lemma SeasonalSpecWithinRange(df: seq<SeriesRow>, i: nat)
    requires i < |df| && SeasonalSpec(df)[i].obs.temp.Some?
    ensures var x := SeasonalSpec(df)[i].obs.temp.value;
      (exists j :: 0 <= j < |df| && df[j].comuna == df[i].comuna && df[j].obs.temp.Some? &&
         df[j].obs.temp.value <= x) &&
      (exists j :: 0 <= j < |df| && df[j].comuna == df[i].comuna && df[j].obs.temp.Some? &&
         x <= df[j].obs.temp.value)
  {
    var c := df[i].comuna;
    var v := ComunaValues(df, c);
    var x := SeasonalSpec(df)[i].obs.temp.value;
    SeasonalRow(df, i);
    SeasonalWithinRange(ComunaDates(df, c), v, IndexOf(ComunaRows(df, c), i));
    var a :| Some(a) in v && a <= x;
    var b :| Some(b) in v && x <= b;
    ComunaValueRow(df, c, Some(a));
    ComunaValueRow(df, c, Some(b));
  }

  /** Stored in date order, a known value stays on its row. */
  lemma SeasonalKeepsKnownInOrder(df: seq<SeriesRow>, i: nat)
    requires i < |df| && df[i].obs.temp.Some?
    requires InDateOrder(df, df[i].comuna)
    ensures SeasonalSpec(df)[i] == df[i]
  {
    var ps := ComunaRows(df, df[i].comuna);
    FilledInOrder(df, SeasonalOf, i);
    var k := IndexOf(ps, i);
    assert Temps(df, ps)[k] == df[i].obs.temp;
    SeasonalKeepsKnown(DatesAt(df, ps), Temps(df, ps), k);
  }
}

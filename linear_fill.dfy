/** The `'lineal'` strategy (`_interpolacion_lineal`): per comuna, positional
    linear interpolation followed by forward and backward filling. */
module LinearFill {
  import opened Wrappers
  import opened Dates
  import opened Tables
  import opened ComunaFill
  import Sorting

  /** The nearest known position before `k`. */
  function LastKnownBefore(v: seq<Option<real>>, k: nat): (r: Option<nat>)
    requires k <= |v|
    ensures r.Some? ==> r.value < k && v[r.value].Some? && forall m :: r.value < m < k ==> v[m].None?
    ensures r.None? ==> forall m :: 0 <= m < k ==> v[m].None?
  {
    if k == 0 then None
    else if v[k - 1].Some? then Some(k - 1)
    else LastKnownBefore(v, k - 1)
  }

  /** The nearest known position after `k`. */
  function FirstKnownAfter(v: seq<Option<real>>, k: nat): (r: Option<nat>)
    requires k < |v|
    ensures r.Some? ==> k < r.value < |v| && v[r.value].Some? && forall m :: k < m < r.value ==> v[m].None?
    ensures r.None? ==> forall m :: k < m < |v| ==> v[m].None?
    decreases |v| - k
  {
    if k + 1 == |v| then None
    else if v[k + 1].Some? then Some(k + 1)
    else FirstKnownAfter(v, k + 1)
  }

  /** The straight line through (p, vp) and (q, vq), at k. */
  function Interpolate(vp: real, vq: real, p: int, q: int, k: int): real
    requires p < q
  {
    vp + (vq - vp) * (k - p) as real / (q - p) as real
  }

  /** One position after `interpolate(method='linear')`, `ffill` and `bfill`:
      a gap between two known values is interpolated by position; a gap after
      the last known value takes that value, one before the first known value
      takes the first. */
  function FillAt(v: seq<Option<real>>, k: nat): Option<real>
    requires k < |v|
  {
    if v[k].Some? then v[k]
    else
      match (LastKnownBefore(v, k), FirstKnownAfter(v, k))
      case (Some(p), Some(q)) => Some(Interpolate(v[p].value, v[q].value, p, q, k))
      case (Some(p), None) => v[p]
      case (None, Some(q)) => v[q]
      case (None, None) => None
  }

  /** The filled series; known values are kept. */
  function FillLinear(v: seq<Option<real>>): (r: seq<Option<real>>)
    ensures |r| == |v|
    ensures forall k :: 0 <= k < |v| && v[k].Some? ==> r[k] == v[k]
  {
    seq(|v|, k requires 0 <= k < |v| => FillAt(v, k))
  }

  /** A gap between known positions p and q gets the value on the line
      between them, by position and not by date. */
  lemma LinearInterior(v: seq<Option<real>>, p: nat, k: nat, q: nat)
    requires p < k < q < |v|
    requires v[p].Some? && v[q].Some?
    requires forall m :: p < m < q ==> v[m].None?
    ensures FillLinear(v)[k] == Some(Interpolate(v[p].value, v[q].value, p, q, k))
  {
    var before := LastKnownBefore(v, k);
    var after := FirstKnownAfter(v, k);
    assert before.Some? && before.value == p;
    assert after.Some? && after.value == q;
  }

  lemma ProductNonNegative(x: real, y: real)
    requires 0.0 <= x && 0.0 <= y
    ensures 0.0 <= x * y
  {
  }

  /** A fraction `t` of `d`, strictly between 0 and 1, lies between 0 and `d`. */
  lemma ScaledBetween(d: real, t: real)
    requires 0.0 < t < 1.0
    ensures 0.0 <= d ==> 0.0 <= d * t <= d
    ensures d <= 0.0 ==> d <= d * t <= 0.0
  {
    assert d * (1.0 - t) == d - d * t;
    if 0.0 <= d {
      ProductNonNegative(d, t);
      ProductNonNegative(d, 1.0 - t);
    } else {
      ProductNonNegative(-d, t);
      ProductNonNegative(-d, 1.0 - t);
      assert (-d) * t == -(d * t);
      assert (-d) * (1.0 - t) == -(d - d * t);
    }
  }

  lemma FractionBetween(a: real, b: real)
    requires 0.0 < a < b
    ensures 0.0 < a / b < 1.0
  {
    var f := a / b;
    assert f * b == a;
    if f <= 0.0 {
      ProductNonNegative(-f, b);
      assert false;
    }
    if 1.0 <= f {
      ProductNonNegative(f - 1.0, b);
      assert false;
    }
  }

  lemma MulDiv(d: real, a: real, b: real)
    requires 0.0 < b
    ensures d * a / b == d * (a / b)
  {
  }

  /** An interpolated value lies between the two known values around it. */
  lemma InterpolateBetween(vp: real, vq: real, p: int, q: int, k: int)
    requires p < k < q
    ensures vp <= vq ==> vp <= Interpolate(vp, vq, p, q, k) <= vq
    ensures vq <= vp ==> vq <= Interpolate(vp, vq, p, q, k) <= vp
  {
    var t := (k - p) as real / (q - p) as real;
    FractionBetween((k - p) as real, (q - p) as real);
    MulDiv(vq - vp, (k - p) as real, (q - p) as real);
    assert Interpolate(vp, vq, p, q, k) == vp + (vq - vp) * t;
    ScaledBetween(vq - vp, t);
  }

  /** Gaps before the first known value take that value. */
  lemma LinearLeading(v: seq<Option<real>>, k: nat, f: nat)
    requires k < f < |v| && v[f].Some?
    requires forall m :: 0 <= m < f ==> v[m].None?
    ensures FillLinear(v)[k] == v[f]
  {
    var before := LastKnownBefore(v, k);
    var after := FirstKnownAfter(v, k);
    assert before.None?;
    assert after.Some? && after.value == f;
  }

  /** Gaps after the last known value take that value. */
  lemma LinearTrailing(v: seq<Option<real>>, l: nat, k: nat)
    requires l < k < |v| && v[l].Some?
    requires forall m :: l < m < |v| ==> v[m].None?
    ensures FillLinear(v)[k] == v[l]
  {
    var before := LastKnownBefore(v, k);
    var after := FirstKnownAfter(v, k);
    assert before.Some? && before.value == l;
    assert after.None?;
  }

  /** No value is missing afterwards exactly when one was known before; a
      series with nothing known stays as it is. */
  lemma LinearNoNulls(v: seq<Option<real>>)
    requires |v| > 0
    ensures (forall k :: 0 <= k < |v| ==> FillLinear(v)[k].Some?) <==> exists k :: 0 <= k < |v| && v[k].Some?
    ensures (forall k :: 0 <= k < |v| ==> v[k].None?) ==> FillLinear(v) == v
  {
    if exists j :: 0 <= j < |v| && v[j].Some? {
      var j :| 0 <= j < |v| && v[j].Some?;
      forall k | 0 <= k < |v| ensures FillLinear(v)[k].Some? {
        var before := LastKnownBefore(v, k);
        if k < j {
          var after := FirstKnownAfter(v, k);
          assert after.Some?;
        }
        if j < k {
          assert before.Some?;
        }
      }
    } else {
      assert FillLinear(v)[0].None?;
      forall k | 0 <= k < |v| ensures FillLinear(v)[k] == v[k] {
        assert LastKnownBefore(v, k).None?;
        assert k + 1 < |v| ==> FirstKnownAfter(v, k).None?;
      }
    }
  }

  /** Ten, two gaps, thirteen, fourteen: the gaps become eleven and twelve. */
  lemma LinearExample()
    ensures FillLinear([Some(10.0), None, None, Some(13.0), Some(14.0)]) ==
      [Some(10.0), Some(11.0), Some(12.0), Some(13.0), Some(14.0)]
  {
    var v := [Some(10.0), None, None, Some(13.0), Some(14.0)];
    LinearInterior(v, 0, 1, 3);
    LinearInterior(v, 0, 2, 3);
  }

  /** The series fill of the strategy; it does not look at the dates. */
  function LinearOf(dates: seq<Date>, v: seq<Option<real>>): (r: seq<Option<real>>)
    ensures |r| == |v|
  {
    FillLinear(v)
  }

  /** The table the strategy produces. */
  function LinearSpec(df: seq<SeriesRow>): (r: seq<SeriesRow>)
    ensures SameExceptTemp(r, df)
  {
    FillByComuna(df, LinearOf)
  }

  /** `_interpolacion_lineal`: the loop over `df['Comuna'].unique()`. */
  method InterpolateLinear(df: seq<SeriesRow>) returns (out: seq<SeriesRow>)
    ensures out == LinearSpec(df)
  {
    var comunas := Unique(ComunaColumn(df));
    out := df;
    for c := 0 to |comunas|
      invariant WrittenUpTo(df, LinearOf, out, comunas[..c])
    {
      var name := comunas[c];
      assert comunas[..c + 1] == comunas[..c] + [name];
      assert name !in comunas[..c];
      WriteStep(df, LinearOf, out, comunas[..c], name);
      var mask := ComunaRows(out, name);
      var filled := FillLinear(ComunaValues(out, name));
      out := Scatter(out, mask, filled);
    }
    assert comunas[..|comunas|] == comunas;
    AllWritten(df, LinearOf, out, comunas);
  }

  /** Stored in date order, a known value stays on its row. */
  lemma LinearKeepsKnownInOrder(df: seq<SeriesRow>, i: nat)
    requires i < |df| && df[i].obs.temp.Some?
    requires InDateOrder(df, df[i].comuna)
    ensures LinearSpec(df)[i] == df[i]
  {
    var ps := ComunaRows(df, df[i].comuna);
    FilledInOrder(df, LinearOf, i);
    var k := IndexOf(ps, i);
    assert Temps(df, ps)[k] == df[i].obs.temp;
  }

  lemma LinearSpecSome(df: seq<SeriesRow>, i: nat, j: nat)
    requires i < |df| && j < |df| && df[j].comuna == df[i].comuna && df[j].obs.temp.Some?
    ensures LinearSpec(df)[i].obs.temp.Some?
  {
    var c := df[i].comuna;
    var v := ComunaValues(df, c);
    FilledValue(df, LinearOf, i);
    var k := IndexOf(ComunaRows(df, c), i);
    ComunaKnown(df, c);
    var m :| 0 <= m < |v| && v[m].Some?;
    LinearNoNulls(v);
    assert FillLinear(v)[k].Some?;
  }

  lemma LinearSpecNone(df: seq<SeriesRow>, i: nat)
    requires i < |df|
    requires forall j :: 0 <= j < |df| && df[j].comuna == df[i].comuna ==> df[j].obs.temp.None?
    ensures LinearSpec(df)[i].obs.temp.None?
  {
    var c := df[i].comuna;
    var v := ComunaValues(df, c);
    FilledValue(df, LinearOf, i);
    var k := IndexOf(ComunaRows(df, c), i);
    ComunaKnown(df, c);
    assert forall m :: 0 <= m < |v| ==> v[m].None?;
    LinearNoNulls(v);
    assert FillLinear(v)[k] == v[k];
  }

  /** Whatever the storage order, a row ends up with a value exactly when its
      comuna has a known value somewhere. */
  lemma LinearSpecNoNulls(df: seq<SeriesRow>, i: nat)
    requires i < |df|
    ensures LinearSpec(df)[i].obs.temp.Some? <==>
      exists j :: 0 <= j < |df| && df[j].comuna == df[i].comuna && df[j].obs.temp.Some?
  {
    if exists j :: 0 <= j < |df| && df[j].comuna == df[i].comuna && df[j].obs.temp.Some? {
      var j :| 0 <= j < |df| && df[j].comuna == df[i].comuna && df[j].obs.temp.Some?;
      LinearSpecSome(df, i, j);
    } else {
      LinearSpecNone(df, i);
    }
  }

  /** A comuna stored out of date order: rows dated January 2nd (10),
      January 1st (20) and January 3rd (missing). */
  function OutOfOrderTable(): seq<SeriesRow>
  {
    var o := Observation(Date(2020, 1, 2), Some(10.0), "E", Some(0.0), Some(0.0), 13, "X");
    [SeriesRow(o, "A", 0.0),
     SeriesRow(o.(date := Date(2020, 1, 1), temp := Some(20.0)), "A", 0.0),
     SeriesRow(o.(date := Date(2020, 1, 3), temp := None), "A", 0.0)]
  }

  lemma OutOfOrderComunas()
    ensures ComunaColumn(OutOfOrderTable()) == ["A", "A", "A"]
  {
  }

  lemma OneMatch<K>(x: K)
    ensures Positions([x], x) == [0]
  {
    PositionsSnoc([], x, x);
    assert [] + [x] == [x];
  }

  lemma TwoMatches<K>(x: K)
    ensures Positions([x, x], x) == [0, 1]
  {
    var one := [x];
    OneMatch(x);
    assert one + [x] == [x, x];
    PositionsSnoc(one, x, x);
  }

  lemma ThreeMatches<K>(x: K)
    ensures Positions([x, x, x], x) == [0, 1, 2]
  {
    var two := [x, x];
    TwoMatches(x);
    assert two + [x] == [x, x, x];
    PositionsSnoc(two, x, x);
  }

  lemma OutOfOrderRows()
    ensures ComunaRows(OutOfOrderTable(), "A") == [0, 1, 2]
  {
    OutOfOrderComunas();
    ThreeMatches("A");
  }

  lemma OutOfOrderDates()
    ensures DateColumn(OutOfOrderTable()) == [Date(2020, 1, 2), Date(2020, 1, 1), Date(2020, 1, 3)]
  {
  }

  /** Insertion sort of the three positions by those dates. */
  lemma OutOfOrderSort(key: nat -> Date)
    requires key(0) == Date(2020, 1, 2) && key(1) == Date(2020, 1, 1) && key(2) == Date(2020, 1, 3)
    ensures Sorting.SortBy<nat>([0, 1, 2], key) == [1, 0, 2]
  {
    var s2: seq<nat> := [2];
    var s12: seq<nat> := [1, 2];
    var s012: seq<nat> := [0, 1, 2];
    SortSingle(2, key);
    InsertAfter(0, s12, key, [1, 0, 2]);
    SortStep(1, s2, key, s12);
    SortStep(0, s12, key, [1, 0, 2]);
  }

  lemma SortSingle(x: nat, key: nat -> Date)
    ensures Sorting.SortBy([x], key) == [x]
  {
    assert [x][1..] == [];
  }

  /** Sorting `[x] + s` inserts `x` into the sorted `s`. */
  lemma SortStep(x: nat, s: seq<nat>, key: nat -> Date, r: seq<nat>)
    requires Sorting.SortBy(s, key) == s
    requires Sorting.Insert(x, s, key) == r
    ensures Sorting.SortBy([x] + s, key) == r
  {
    assert ([x] + s)[1..] == s;
  }

  /** The two inserts the example needs. */
  lemma InsertAfter(x: nat, s: seq<nat>, key: nat -> Date, r: seq<nat>)
    requires x == 0 && s == [1, 2] && r == [1, 0, 2]
    requires !DateLe(key(0), key(1)) && DateLe(key(0), key(2)) && DateLe(key(1), key(2))
    ensures Sorting.Insert<nat>(1, [2], key) == [1, 2]
    ensures Sorting.Insert(x, s, key) == r
  {
    assert s[1..] == [2];
    assert Sorting.Insert<nat>(0, [2], key) == [0, 2];
  }

  lemma OutOfOrderChronological()
    ensures ChronologicalRows(OutOfOrderTable(), "A") == [1, 0, 2]
  {
    var df := OutOfOrderTable();
    OutOfOrderRows();
    OutOfOrderDates();
    OutOfOrderSort(Sorting.DateOfRow(DateColumn(df)));
  }

  /** In date order the comuna's first value is 20, from January 1st. */
  lemma OutOfOrderFirstValue()
    ensures |ComunaValues(OutOfOrderTable(), "A")| == 3
    ensures ComunaValues(OutOfOrderTable(), "A")[0] == Some(20.0)
  {
    OutOfOrderRows();
    OutOfOrderChronological();
  }

  /** Stored out of date order, a known value is overwritten: the first row
      (10 on January 2nd) receives 20, the first value in date order. */
  lemma LinearOutOfOrderExample()
    ensures OutOfOrderTable()[0].obs.temp == Some(10.0)
    ensures LinearSpec(OutOfOrderTable())[0].obs.temp == Some(20.0)
  {
    var df := OutOfOrderTable();
    OutOfOrderRows();
    OutOfOrderFirstValue();
    FilledValue(df, LinearOf, 0);
    assert IndexOf(ComunaRows(df, "A"), 0) == 0;
  }
}

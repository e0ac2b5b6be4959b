/** The `'knn'` strategy (`_interpolacion_knn`): for each date with a missing
    temperature, the rows of that date go through a nearest-neighbour
    imputer over latitude, longitude and station distance, and the imputed
    temperature column replaces the old one. The imputer itself is a
    parameter. */
module KnnFill {
  import opened Wrappers
  import opened Dates
  import opened Sorting
  import opened Tables

  /** One row of `np.hstack([features, temperatures])`. The distance feature
      is carried as its square (see `SeriesRow.kmSq`). */
  datatype KnnInput = KnnInput(lat: Option<real>, lon: Option<real>, kmSq: real, temp: Option<real>)

  /** `KNNImputer(n_neighbors=3, weights='distance').fit_transform(...)[:, -1]`:
      one imputed temperature per row. */
  type Imputer = seq<KnnInput> -> seq<real>

  /** The imputer returns one value per row. */
  ghost predicate KeepsRowCount(imp: Imputer) {
    forall x :: |imp(x)| == |x|
  }

  /** The imputer returns the known temperatures as they were. */
  ghost predicate KeepsObserved(imp: Imputer) {
    forall x: seq<KnnInput>, k :: 0 <= k < |x| && k < |imp(x)| && x[k].temp.Some? ==> imp(x)[k] == x[k].temp.value
  }

  /** `df_result['Fecha'] == fecha`: the rows of one date, in table order. */
  function DateRows(df: seq<SeriesRow>, d: Date): (ps: seq<nat>)
    ensures forall i: nat :: i in ps <==> i < |df| && df[i].obs.date == d
    ensures Increasing(ps)
  {
    Positions(DateColumn(df), d)
  }

  /** The imputer's input for the rows `ps`. */
  function Features(df: seq<SeriesRow>, ps: seq<nat>): (x: seq<KnnInput>)
    requires forall p :: p in ps ==> p < |df|
    ensures |x| == |ps|
    ensures forall k :: 0 <= k < |ps| ==> x[k].temp == Temps(df, ps)[k]
  {
    seq(|ps|, k requires 0 <= k < |ps| =>
      assert ps[k] in ps;
      var r := df[ps[k]];
      KnnInput(r.obs.lat, r.obs.lon, r.kmSq, r.obs.temp))
  }

  /** `isna().any()`. */
  predicate HasNull(v: seq<Option<real>>) {
    exists k :: 0 <= k < |v| && v[k].None?
  }

  function Somes(xs: seq<real>): (r: seq<Option<real>>)
    ensures |r| == |xs| && forall k :: 0 <= k < |xs| ==> r[k] == Some(xs[k])
  {
    seq(|xs|, k requires 0 <= k < |xs| => Some(xs[k]))
  }

  /** The value row `i` ends up with: the imputed value at its rank among its
      date's rows when that date has a missing value, its own otherwise. */
  function KnnRow(df: seq<SeriesRow>, imp: Imputer, i: nat): Option<real>
    requires i < |df| && KeepsRowCount(imp)
  {
    var ps := DateRows(df, df[i].obs.date);
    assert i in ps;
    if HasNull(Temps(df, ps)) then Some(imp(Features(df, ps))[IndexOf(ps, i)])
    else df[i].obs.temp
  }

  /** The table the strategy produces. */
  function KnnSpec(df: seq<SeriesRow>, imp: Imputer): (r: seq<SeriesRow>)
    requires KeepsRowCount(imp)
    ensures SameExceptTemp(r, df)
  {
    seq(|df|, i requires 0 <= i < |df| => WithTemp(df[i], KnnRow(df, imp, i)))
  }

  /** The loop invariant: the dates in `done` have been imputed, the others
      are as in the input. */
  predicate KnnWrittenUpTo(df: seq<SeriesRow>, imp: Imputer, out: seq<SeriesRow>, done: seq<Date>)
    requires KeepsRowCount(imp)
  {
    SameExceptTemp(out, df) &&
    forall i :: 0 <= i < |df| ==>
      out[i] == if df[i].obs.date in done then KnnSpec(df, imp)[i] else df[i]
  }

  /** One turn of the loop for date `d`, from the current table. */
  function ImputeDate(out: seq<SeriesRow>, imp: Imputer, d: Date): (r: seq<SeriesRow>)
    requires KeepsRowCount(imp)
    ensures SameExceptTemp(r, out)
  {
    var mask := DateRows(out, d);
    if HasNull(Temps(out, mask)) then Scatter(out, mask, Somes(imp(Features(out, mask)))) else out
  }

  /** A date already imputed has no missing value left, so meeting it again
      leaves the table as it is. */
  lemma KnnSeenDate(df: seq<SeriesRow>, imp: Imputer, out: seq<SeriesRow>, done: seq<Date>, d: Date)
    requires KeepsRowCount(imp)
    requires KnnWrittenUpTo(df, imp, out, done)
    requires d in done
    ensures ImputeDate(out, imp, d) == out
  {
    assert DateColumn(out) == DateColumn(df);
    var mask := DateRows(out, d);
    forall k | 0 <= k < |mask| ensures Temps(out, mask)[k].Some? {
      var i := mask[k];
      assert i in mask;
      assert out[i] == KnnSpec(df, imp)[i];
      KnnRowSome(df, imp, i);
    }
  }

  /** Before date `d` is imputed, its rows are as in the input, so the
      imputer sees the input's rows. */
  lemma KnnFreshDate(df: seq<SeriesRow>, imp: Imputer, out: seq<SeriesRow>, done: seq<Date>, d: Date)
    requires KeepsRowCount(imp)
    requires KnnWrittenUpTo(df, imp, out, done)
    requires d !in done
    ensures DateRows(out, d) == DateRows(df, d)
    ensures Temps(out, DateRows(df, d)) == Temps(df, DateRows(df, d))
    ensures Features(out, DateRows(df, d)) == Features(df, DateRows(df, d))
  {
    assert DateColumn(out) == DateColumn(df);
    var mask := DateRows(df, d);
    forall k | 0 <= k < |mask| ensures mask[k] < |df| && out[mask[k]] == df[mask[k]] {
      assert mask[k] in mask;
    }
  }

  /** Imputing a new date `d` gives row `i` its final value when it has date
      `d`, and leaves it alone otherwise. */
  lemma KnnFreshRow(df: seq<SeriesRow>, imp: Imputer, out: seq<SeriesRow>, done: seq<Date>, d: Date, i: nat)
    requires KeepsRowCount(imp)
    requires KnnWrittenUpTo(df, imp, out, done)
    requires d !in done && i < |df|
    ensures ImputeDate(out, imp, d)[i] ==
      if df[i].obs.date in done + [d] then KnnSpec(df, imp)[i] else df[i]
  {
    KnnFreshDate(df, imp, out, done, d);
    var mask := DateRows(df, d);
    if df[i].obs.date == d {
      assert i in mask;
    } else {
      assert i !in mask;
    }
  }

  /** One turn of the loop: imputing date `d` gives its rows their final
      values and leaves the others alone; a date met again is left as it is. */
  lemma KnnStep(df: seq<SeriesRow>, imp: Imputer, out: seq<SeriesRow>, done: seq<Date>, d: Date)
    requires KeepsRowCount(imp)
    requires KnnWrittenUpTo(df, imp, out, done)
    ensures KnnWrittenUpTo(df, imp, ImputeDate(out, imp, d), done + [d])
  {
    if d in done {
      KnnSeenDate(df, imp, out, done, d);
    } else {
      forall i | 0 <= i < |df|
        ensures ImputeDate(out, imp, d)[i] == if df[i].obs.date in done + [d] then KnnSpec(df, imp)[i] else df[i]
      {
        KnnFreshRow(df, imp, out, done, d, i);
      }
    }
  }

  /** `sorted(df['Fecha'].unique())` holds each date of the table. */
  lemma DatesInOrderMembers(df: seq<SeriesRow>)
    ensures forall x :: x in SortDates(Unique(DateColumn(df))) <==> x in DateColumn(df)
  {
    var u := Unique(DateColumn(df));
    var s := SortDates(u);
    forall x ensures x in s <==> x in u {
      assert x in s <==> x in multiset(s);
      assert x in u <==> x in multiset(u);
    }
  }

  /** Once every date has been imputed, the table is the specification. */
  lemma KnnAllWritten(df: seq<SeriesRow>, imp: Imputer, out: seq<SeriesRow>, done: seq<Date>)
    requires KeepsRowCount(imp)
    requires forall x :: x in done <==> x in DateColumn(df)
    requires KnnWrittenUpTo(df, imp, out, done)
    ensures out == KnnSpec(df, imp)
  {
    forall i | 0 <= i < |df| ensures df[i].obs.date in done {
      assert DateColumn(df)[i] in DateColumn(df);
    }
  }

  /** The body of the loop for date `d`: the rows of that date are imputed
      when one of them is missing. */
  method ImputeOneDate(out: seq<SeriesRow>, imp: Imputer, d: Date) returns (r: seq<SeriesRow>)
    requires KeepsRowCount(imp)
    ensures r == ImputeDate(out, imp, d)
  {
    var mask := DateRows(out, d);
    r := out;
    if HasNull(Temps(out, mask)) {
      var imputed := imp(Features(out, mask));
      r := Scatter(out, mask, Somes(imputed));
    }
  }

  /** Before the loop nothing has been imputed. */
  lemma KnnNoneWritten(df: seq<SeriesRow>, imp: Imputer)
    requires KeepsRowCount(imp)
    ensures KnnWrittenUpTo(df, imp, df, [])
  {
  }

  /** After the loop over every date of the table, the table is the
      specification. */
  lemma KnnLoopDone(df: seq<SeriesRow>, imp: Imputer, out: seq<SeriesRow>, fechas: seq<Date>)
    requires KeepsRowCount(imp)
    requires fechas == SortDates(Unique(DateColumn(df)))
    requires KnnWrittenUpTo(df, imp, out, fechas[..|fechas|])
    ensures out == KnnSpec(df, imp)
  {
    assert fechas[..|fechas|] == fechas;
    DatesInOrderMembers(df);
    KnnAllWritten(df, imp, out, fechas);
  }

  /** `_interpolacion_knn`: the loop over `sorted(df['Fecha'].unique())`. */
  method InterpolateKnn(df: seq<SeriesRow>, imp: Imputer) returns (out: seq<SeriesRow>)
    requires KeepsRowCount(imp)
    ensures out == KnnSpec(df, imp)
  {
    var fechas := SortDates(Unique(DateColumn(df)));
    out := df;
    KnnNoneWritten(df, imp);
    for c := 0 to |fechas|
      invariant KnnWrittenUpTo(df, imp, out, fechas[..c])
    {
      KnnStep(df, imp, out, fechas[..c], fechas[c]);
      assert fechas[..c + 1] == fechas[..c] + [fechas[c]];
      out := ImputeOneDate(out, imp, fechas[c]);
    }
    KnnLoopDone(df, imp, out, fechas);
  }

  /** Rows of a date without a missing value are left alone. */
  lemma KnnKeepsCompleteDates(df: seq<SeriesRow>, imp: Imputer, i: nat)
    requires KeepsRowCount(imp) && i < |df|
    requires forall j :: 0 <= j < |df| && df[j].obs.date == df[i].obs.date ==> df[j].obs.temp.Some?
    ensures KnnSpec(df, imp)[i] == df[i]
  {
    var ps := DateRows(df, df[i].obs.date);
    forall k | 0 <= k < |ps| ensures Temps(df, ps)[k].Some? {
      assert ps[k] in ps;
    }
  }

  /** Every row has a temperature afterwards: an imputed one on a date that
      had a missing value, its own on a date that had none. */
  lemma KnnRowSome(df: seq<SeriesRow>, imp: Imputer, i: nat)
    requires KeepsRowCount(imp) && i < |df|
    ensures KnnRow(df, imp, i).Some?
  {
    var ps := DateRows(df, df[i].obs.date);
    assert i in ps;
    var k := IndexOf(ps, i);
    assert Temps(df, ps)[k] == df[i].obs.temp;
  }

  /** No temperature is missing afterwards. */
  lemma KnnNoNulls(df: seq<SeriesRow>, imp: Imputer)
    requires KeepsRowCount(imp)
    ensures NullCount(KnnSpec(df, imp)) == 0
  {
    forall i | 0 <= i < |df| ensures KnnSpec(df, imp)[i].obs.temp.Some? {
      KnnRowSome(df, imp, i);
    }
  }

  /** With an imputer that keeps the known temperatures, every known value
      stays on its row. */
  lemma KnnKeepsKnown(df: seq<SeriesRow>, imp: Imputer, i: nat)
    requires KeepsRowCount(imp) && KeepsObserved(imp)
    requires i < |df| && df[i].obs.temp.Some?
    ensures KnnSpec(df, imp)[i] == df[i]
  {
    var ps := DateRows(df, df[i].obs.date);
    assert i in ps;
    var k := IndexOf(ps, i);
    var x := Features(df, ps);
    assert x[k].temp == df[i].obs.temp;
  }
}

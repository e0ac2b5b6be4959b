/** The loop both per-comuna strategies share: for each comuna, take its rows
    in date order, fill their temperatures, and write the filled values back
    to the comuna's rows by position. */
module ComunaFill {
  import opened Wrappers
  import opened Dates
  import opened Tables

  /** A fill of one comuna's date-ordered series, given its dates. */
  type SeriesFill = (seq<Date>, seq<Option<real>>) -> seq<Option<real>>

  /** The fill returns one value per row. */
  ghost predicate KeepsLength(fill: SeriesFill) {
    forall d, v :: |fill(d, v)| == |v|
  }

  /** The value row `i` receives. */
  function FilledRow(df: seq<SeriesRow>, fill: SeriesFill, i: nat): Option<real>
    requires i < |df| && KeepsLength(fill)
  {
    var c := df[i].comuna;
    WrittenBack(df, i, fill(ComunaDates(df, c), ComunaValues(df, c)))
  }

  /** The table after every comuna has been filled and written back. */
  function FillByComuna(df: seq<SeriesRow>, fill: SeriesFill): (r: seq<SeriesRow>)
    requires KeepsLength(fill)
    ensures SameExceptTemp(r, df)
  {
    seq(|df|, i requires 0 <= i < |df| => WithTemp(df[i], FilledRow(df, fill, i)))
  }

  /** The loop invariant: the comunas in `done` have been written back, the
      others are as in the input. */
  predicate WrittenUpTo(df: seq<SeriesRow>, fill: SeriesFill, out: seq<SeriesRow>, done: seq<string>)
    requires KeepsLength(fill)
  {
    SameExceptTemp(out, df) &&
    forall i :: 0 <= i < |df| ==>
      out[i] == if df[i].comuna in done then FillByComuna(df, fill)[i] else df[i]
  }

  /** The write-back of one comuna `name`, from the current table. */
  function WriteComuna(out: seq<SeriesRow>, fill: SeriesFill, name: string): (r: seq<SeriesRow>)
    requires KeepsLength(fill)
    ensures SameExceptTemp(r, out)
  {
    Scatter(out, ComunaRows(out, name), fill(ComunaDates(out, name), ComunaValues(out, name)))
  }

  /** One turn of the loop: writing comuna `name` back gives its rows their
      final values and leaves the other rows alone. */
  lemma {:induction false} WriteStep(df: seq<SeriesRow>, fill: SeriesFill, out: seq<SeriesRow>,
                                     done: seq<string>, name: string)
    requires KeepsLength(fill)
    requires name !in done
    requires WrittenUpTo(df, fill, out, done)
    ensures WrittenUpTo(df, fill, WriteComuna(out, fill, name), done + [name])
  {
    UnwrittenComuna(out, df, name);
    var mask := ComunaRows(out, name);
    var filled := fill(ComunaDates(out, name), ComunaValues(out, name));
    var out' := WriteComuna(out, fill, name);
    forall i | 0 <= i < |df|
      ensures out'[i] == if df[i].comuna in done + [name] then FillByComuna(df, fill)[i] else df[i]
    {
      if df[i].comuna == name {
        assert i in mask;
        assert out'[i] == WithTemp(out[i], filled[IndexOf(mask, i)]);
        assert out[i] == df[i];
        assert FillByComuna(df, fill)[i] == WithTemp(df[i], WrittenBack(df, i, filled));
      } else {
        assert i !in mask;
        assert out'[i] == out[i];
      }
    }
  }

  /** Once every comuna has been written, the table is the specification. */
  lemma AllWritten(df: seq<SeriesRow>, fill: SeriesFill, out: seq<SeriesRow>, done: seq<string>)
    requires KeepsLength(fill)
    requires forall x :: x in done <==> x in ComunaColumn(df)
    requires WrittenUpTo(df, fill, out, done)
    ensures out == FillByComuna(df, fill)
  {
    forall i | 0 <= i < |df| ensures df[i].comuna in done {
      assert ComunaColumn(df)[i] in ComunaColumn(df);
    }
  }

  /** Row `i` receives the value the fill computes at its rank among its
      comuna's rows; that value is computed at the position the row's date has
      in the date-ordered series. */
  lemma FilledValue(df: seq<SeriesRow>, fill: SeriesFill, i: nat)
    requires i < |df| && KeepsLength(fill)
    ensures i in ComunaRows(df, df[i].comuna)
    ensures var c := df[i].comuna;
      FillByComuna(df, fill)[i].obs.temp ==
        fill(ComunaDates(df, c), ComunaValues(df, c))[IndexOf(ComunaRows(df, c), i)]
  {
    assert i in ComunaRows(df, df[i].comuna);
  }

  /** When a comuna's rows are stored in date order, each of its rows
      receives the fill of its own rank in the comuna's series. */
  lemma FilledInOrder(df: seq<SeriesRow>, fill: SeriesFill, i: nat)
    requires i < |df| && KeepsLength(fill)
    requires InDateOrder(df, df[i].comuna)
    ensures i in ComunaRows(df, df[i].comuna)
    ensures var ps := ComunaRows(df, df[i].comuna);
      FillByComuna(df, fill)[i].obs.temp == fill(DatesAt(df, ps), Temps(df, ps))[IndexOf(ps, i)]
  {
    var c := df[i].comuna;
    var ps := ComunaRows(df, c);
    assert i in ps;
    ChronologicalOfOrdered(df, c);
    assert ComunaValues(df, c) == Temps(df, ps);
    assert ComunaDates(df, c) == DatesAt(df, ps);
    FilledValue(df, fill, i);
  }

  /** A comuna's series has a known value exactly when one of its rows has. */
  lemma ComunaKnown(df: seq<SeriesRow>, c: string)
    ensures (exists m :: 0 <= m < |ComunaValues(df, c)| && ComunaValues(df, c)[m].Some?) <==>
      exists j :: 0 <= j < |df| && df[j].comuna == c && df[j].obs.temp.Some?
  {
    var sp := ChronologicalRows(df, c);
    var v := ComunaValues(df, c);
    if exists j :: 0 <= j < |df| && df[j].comuna == c && df[j].obs.temp.Some? {
      var j :| 0 <= j < |df| && df[j].comuna == c && df[j].obs.temp.Some?;
      assert j in sp;
      var m :| 0 <= m < |sp| && sp[m] == j;
      assert v[m].Some?;
    }
    if exists m :: 0 <= m < |v| && v[m].Some? {
      var m :| 0 <= m < |v| && v[m].Some?;
      assert sp[m] in sp;
    }
  }

  /** Each value of a comuna's series is the temperature of one of its rows. */
  lemma ComunaValueRow(df: seq<SeriesRow>, c: string, x: Option<real>)
    requires x in ComunaValues(df, c)
    ensures exists j :: 0 <= j < |df| && df[j].comuna == c && df[j].obs.temp == x
  {
    var sp := ChronologicalRows(df, c);
    var v := ComunaValues(df, c);
    var m :| 0 <= m < |v| && v[m] == x;
    assert sp[m] in sp;
  }
}

/** The tables the pipeline passes between its stages, and the pandas
    selections (masks, `unique`, positional assignment) its loops use. */
module Tables {
  import opened Wrappers
  import opened Dates
  import opened Sorting

  /** A row of the raw station table: `Año`/`Mes`/`Dias`/`Fecha` as one date,
      `Temperatura_Media`, `Nombre_Estacion`, `Latitud`, `Longitud`, `Region`,
      `Codigo_Estacion`. */
  datatype Observation = Observation(
    date: Date,
    temp: Option<real>,
    stationName: string,
    lat: Option<real>,
    lon: Option<real>,
    region: int,
    code: string)

  /** A row of the per-comuna series: an observation tagged with `Comuna` and
      with `Distancia_Estacion_km`, held here as its square `kmSq`. */
  datatype SeriesRow = SeriesRow(obs: Observation, comuna: string, kmSq: real)

  function WithTemp(r: SeriesRow, t: Option<real>): SeriesRow {
    r.(obs := r.obs.(temp := t))
  }

  /** `a` is `b` with at most the `Temperatura_Media` column rewritten. */
  predicate SameExceptTemp(a: seq<SeriesRow>, b: seq<SeriesRow>) {
    |a| == |b| && forall i :: 0 <= i < |a| ==> a[i] == WithTemp(b[i], a[i].obs.temp)
  }

  function ComunaColumn(df: seq<SeriesRow>): seq<string> {
    seq(|df|, i requires 0 <= i < |df| => df[i].comuna)
  }

  function DateColumn(df: seq<SeriesRow>): seq<Date> {
    seq(|df|, i requires 0 <= i < |df| => df[i].obs.date)
  }

  /** Number of NaN temperatures, `isna().sum()`. */
  function NullCount(df: seq<SeriesRow>): (n: nat)
    ensures n == 0 <==> forall i :: 0 <= i < |df| ==> df[i].obs.temp.Some?
    ensures n <= |df|
  {
    if df == [] then 0
    else
      var init := NullCount(df[..|df| - 1]);
      assert forall i :: 0 <= i < |df| - 1 ==> df[..|df| - 1][i] == df[i];
      init + (if df[|df| - 1].obs.temp.None? then 1 else 0)
  }

  predicate Increasing(ps: seq<nat>) {
    forall a, b :: 0 <= a < b < |ps| ==> ps[a] < ps[b]
  }

  predicate NoDuplicates<K(==)>(s: seq<K>) {
    forall a, b :: 0 <= a < b < |s| ==> s[a] != s[b]
  }

  /** The positions selected by the mask `col == k`, in table order. */
  function Positions<K(==)>(col: seq<K>, k: K): (ps: seq<nat>)
    ensures forall i: nat :: i in ps <==> i < |col| && col[i] == k
    ensures Increasing(ps)
  {
    if col == [] then []
    else
      var init := Positions(col[..|col| - 1], k);
      assert forall i :: 0 <= i < |col| - 1 ==> col[..|col| - 1][i] == col[i];
      assert forall a :: 0 <= a < |init| ==> init[a] in init;
      assert forall a :: 0 <= a < |init| ==> init[a] < |col| - 1;
      if col[|col| - 1] == k then init + [|col| - 1] else init
  }

  /** Extending the column by one value extends the selection by its
      position when it matches. */
  lemma PositionsSnoc<K>(col: seq<K>, k: K, x: K)
    ensures Positions(col + [x], k) == Positions(col, k) + (if x == k then [|col|] else [])
  {
    assert (col + [x])[..|col|] == col;
  }

  /** Rank of position `x` among the selected positions `ps`. */
  function IndexOf(ps: seq<nat>, x: nat): (k: nat)
    requires x in ps
    ensures k < |ps| && ps[k] == x
  {
    if ps[0] == x then 0 else 1 + IndexOf(ps[1..], x)
  }

  lemma IndexOfIncreasing(ps: seq<nat>, k: nat)
    requires Increasing(ps) && k < |ps|
    ensures IndexOf(ps, ps[k]) == k
  {
    var j := IndexOf(ps, ps[k]);
    assert forall a, b :: 0 <= a < b < |ps| ==> ps[a] != ps[b];
  }

  /** Index of the first occurrence of `x`. */
  function FirstIndex<K(==)>(s: seq<K>, x: K): (k: nat)
    requires x in s
    ensures k < |s| && s[k] == x
    ensures forall j :: 0 <= j < k ==> s[j] != x
  {
    if s[0] == x then 0 else 1 + FirstIndex(s[1..], x)
  }

  lemma FirstIndexInPrefix<K>(s: seq<K>, n: nat, x: K)
    requires n <= |s| && x in s[..n]
    ensures x in s && FirstIndex(s, x) == FirstIndex(s[..n], x)
  {
    var k := FirstIndex(s[..n], x);
    var k' := FirstIndex(s, x);
    assert s[k] == x;
    assert forall j :: 0 <= j < n ==> s[..n][j] == s[j];
  }

  /** `unique()` / `drop_duplicates()`: each value once, in order of first
      occurrence. */
  function Unique<K(==,!new)>(s: seq<K>): (u: seq<K>)
    ensures forall x :: x in u <==> x in s
    ensures NoDuplicates(u)
    ensures forall a, b :: 0 <= a < b < |u| ==> FirstIndex(s, u[a]) < FirstIndex(s, u[b])
  {
    if s == [] then []
    else
      var n := |s| - 1;
      var init := Unique(s[..n]);
      assert s == s[..n] + [s[n]];
      forall x | x in init ensures x in s && FirstIndex(s, x) == FirstIndex(s[..n], x) && FirstIndex(s, x) < n {
        FirstIndexInPrefix(s, n, x);
      }
      if s[n] in init then init
      else
        assert s[n] !in s[..n];
        assert FirstIndex(s, s[n]) == n;
        init + [s[n]]
  }

  /** The temperatures at the positions `ps`, in that order. */
  function Temps(df: seq<SeriesRow>, ps: seq<nat>): (v: seq<Option<real>>)
    requires forall p :: p in ps ==> p < |df|
    ensures |v| == |ps|
  {
    seq(|ps|, k requires 0 <= k < |ps| => assert ps[k] in ps; df[ps[k]].obs.temp)
  }

  /** The dates at the positions `ps`, in that order. */
  function DatesAt(df: seq<SeriesRow>, ps: seq<nat>): (d: seq<Date>)
    requires forall p :: p in ps ==> p < |df|
    ensures |d| == |ps|
  {
    seq(|ps|, k requires 0 <= k < |ps| => assert ps[k] in ps; df[ps[k]].obs.date)
  }

  /** `df_result.loc[mask, 'Temperatura_Media'] = vals.values`: the k-th row
      the mask selects receives the k-th value, whatever the rows' dates. */
  function Scatter(t: seq<SeriesRow>, ps: seq<nat>, vals: seq<Option<real>>): (r: seq<SeriesRow>)
    requires |ps| == |vals| && forall p :: p in ps ==> p < |t|
    ensures SameExceptTemp(r, t)
    ensures forall i :: 0 <= i < |t| && i !in ps ==> r[i] == t[i]
    ensures Increasing(ps) ==> forall k :: 0 <= k < |ps| ==> ps[k] < |t| && r[ps[k]].obs.temp == vals[k]
  {
    assert Increasing(ps) ==> forall k :: 0 <= k < |ps| ==> ps[k] < |t| && IndexOf(ps, ps[k]) == k by {
      if Increasing(ps) {
        forall k | 0 <= k < |ps| ensures ps[k] < |t| && IndexOf(ps, ps[k]) == k {
          assert ps[k] in ps;
          IndexOfIncreasing(ps, k);
        }
      }
    }
    seq(|t|, i requires 0 <= i < |t| =>
      if i in ps then WithTemp(t[i], vals[IndexOf(ps, i)]) else t[i])
  }

  /** The rows of one comuna, `df['Comuna'] == c`, in table order. */
  function ComunaRows(df: seq<SeriesRow>, c: string): (ps: seq<nat>)
    ensures forall i: nat :: i in ps <==> i < |df| && df[i].comuna == c
    ensures Increasing(ps)
  {
    Positions(ComunaColumn(df), c)
  }

  /** The same rows after `sort_values('Fecha')`. */
  function ChronologicalRows(df: seq<SeriesRow>, c: string): (sp: seq<nat>)
    ensures multiset(sp) == multiset(ComunaRows(df, c))
    ensures |sp| == |ComunaRows(df, c)|
    ensures forall i: nat :: i in sp <==> i < |df| && df[i].comuna == c
    ensures SortedBy(sp, DateOfRow(DateColumn(df)))
  {
    var ps := ComunaRows(df, c);
    var sp := SortPositions(ps, DateColumn(df));
    SamePositions(sp, ps);
    sp
  }

  lemma SamePositions(a: seq<nat>, b: seq<nat>)
    requires multiset(a) == multiset(b)
    ensures |a| == |b|
    ensures forall i :: i in a <==> i in b
  {
    assert |a| == |multiset(a)| == |multiset(b)| == |b|;
    forall i ensures i in a <==> i in b {
      assert i in a <==> i in multiset(a);
      assert i in b <==> i in multiset(b);
    }
  }

  /** The comuna's temperatures in date order: `comuna_data['Temperatura_Media']`. */
  function ComunaValues(df: seq<SeriesRow>, c: string): (v: seq<Option<real>>)
    ensures |v| == |ComunaRows(df, c)|
  {
    Temps(df, ChronologicalRows(df, c))
  }

  /** The comuna's dates in order: `comuna_data['Fecha']`. */
  function ComunaDates(df: seq<SeriesRow>, c: string): (d: seq<Date>)
    ensures |d| == |ComunaRows(df, c)|
  {
    DatesAt(df, ChronologicalRows(df, c))
  }

  /** The value the positional write-back gives row `i` when its comuna's
      date-ordered values were replaced by `filled`. */
  function WrittenBack(df: seq<SeriesRow>, i: nat, filled: seq<Option<real>>): Option<real>
    requires i < |df| && |filled| == |ComunaRows(df, df[i].comuna)|
  {
    filled[IndexOf(ComunaRows(df, df[i].comuna), i)]
  }

  /** Writing temperatures does not move rows between comunas or dates, and
      the rows of a comuna not yet written still read as in the input. */
  lemma UnwrittenComuna(out: seq<SeriesRow>, df: seq<SeriesRow>, c: string)
    requires SameExceptTemp(out, df)
    requires forall i :: 0 <= i < |df| && df[i].comuna == c ==> out[i] == df[i]
    ensures ComunaColumn(out) == ComunaColumn(df)
    ensures DateColumn(out) == DateColumn(df)
    ensures ComunaRows(out, c) == ComunaRows(df, c)
    ensures ChronologicalRows(out, c) == ChronologicalRows(df, c)
    ensures ComunaValues(out, c) == ComunaValues(df, c)
    ensures ComunaDates(out, c) == ComunaDates(df, c)
  {
    assert ComunaColumn(out) == ComunaColumn(df);
    assert DateColumn(out) == DateColumn(df);
  }

  /** The rows of a comuna are stored in date order. */
  predicate InDateOrder(df: seq<SeriesRow>, c: string) {
    forall a, b :: 0 <= a < b < |df| && df[a].comuna == c && df[b].comuna == c ==>
      DateLe(df[a].obs.date, df[b].obs.date)
  }

  /** When they are, sorting leaves them in place, so the positional
      write-back puts each value on its own row. */
  lemma ChronologicalOfOrdered(df: seq<SeriesRow>, c: string)
    requires InDateOrder(df, c)
    ensures ChronologicalRows(df, c) == ComunaRows(df, c)
  {
    var ps := ComunaRows(df, c);
    forall a, b | 0 <= a < b < |ps| ensures DateLe(DateOfRow(DateColumn(df))(ps[a]), DateOfRow(DateColumn(df))(ps[b])) {
      assert ps[a] in ps && ps[b] in ps;
    }
    SortByOfSorted(ps, DateOfRow(DateColumn(df)));
  }
}

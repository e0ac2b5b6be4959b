/** Assigning each comuna to its nearest station and building the per-comuna
    series (`paso_2_asignar_comunas`). */
module StationAssignment {
  import opened Wrappers
  import opened Tables

  /** The four columns deduplicated together: name, latitude, longitude, code. */
  datatype StationKey = StationKey(name: string, lat: Option<real>, lon: Option<real>, code: string)

  /** A station that has both coordinates. */
  datatype Station = Station(name: string, lat: real, lon: real, code: string)

  /** A comuna with the latitude and longitude of its centroid. */
  datatype Centroid = Centroid(comuna: string, lat: real, lon: real)

  /** One row of the assignment table (`Comuna`, `Estacion_Cercana`,
      `Distancia_km`), with the code of the station; `kmSq` is the square of
      the distance in kilometres. */
  datatype Assignment = Assignment(comuna: string, code: string, stationName: string, kmSq: real)

  /** Degrees to kilometres. */
  const KmPerDegree: real := 111.0

  function KeyOf(o: Observation): StationKey {
    StationKey(o.stationName, o.lat, o.lon, o.code)
  }

  function StationKeys(obs: seq<Observation>): seq<StationKey> {
    seq(|obs|, i requires 0 <= i < |obs| => KeyOf(obs[i]))
  }

  /** The key a located station was read from. */
  function KeyOfStation(s: Station): StationKey {
    StationKey(s.name, Some(s.lat), Some(s.lon), s.code)
  }

  /** `notna()` on both coordinates. */
  function LocatedMask(keys: seq<StationKey>): (m: seq<bool>)
    ensures |m| == |keys| && forall i :: 0 <= i < |keys| ==> m[i] == (keys[i].lat.Some? && keys[i].lon.Some?)
  {
    seq(|keys|, i requires 0 <= i < |keys| => keys[i].lat.Some? && keys[i].lon.Some?)
  }

  /** `dropna(subset=['Latitud', 'Longitud'])`: the rows with both
      coordinates, kept in table order (`LocatedInOrder`). */
  function Located(keys: seq<StationKey>): (r: seq<Station>)
    ensures forall s :: s in r <==> StationKey(s.name, Some(s.lat), Some(s.lon), s.code) in keys
    ensures NoDuplicates(keys) ==> NoDuplicates(r)
  {
    if keys == [] then []
    else
      var n := |keys| - 1;
      var init := Located(keys[..n]);
      assert keys == keys[..n] + [keys[n]];
      var k := keys[n];
      if k.lat.Some? && k.lon.Some? then
        var s := Station(k.name, k.lat.value, k.lon.value, k.code);
        assert NoDuplicates(keys) ==> NoDuplicates(keys[..n]) && k !in keys[..n];
        init + [s]
      else init
  }

  /** `Located` keeps the table order: its k-th station is read from the k-th
      key with both coordinates. */
  lemma {:induction false} LocatedInOrder(keys: seq<StationKey>)
    ensures var ps := Positions(LocatedMask(keys), true);
      |Located(keys)| == |ps| &&
      forall k :: 0 <= k < |ps| ==> ps[k] < |keys| && KeyOfStation(Located(keys)[k]) == keys[ps[k]]
  {
    if keys != [] {
      var n := |keys| - 1;
      LocatedInOrder(keys[..n]);
      assert LocatedMask(keys)[..n] == LocatedMask(keys[..n]);
      var ps := Positions(LocatedMask(keys[..n]), true);
      var r0 := Located(keys[..n]);
      var ps1 := Positions(LocatedMask(keys), true);
      var r1 := Located(keys);
      var k := keys[n];
      var located := k.lat.Some? && k.lon.Some?;
      assert ps1 == if located then ps + [n] else ps;
      assert r1 == if located then r0 + [Station(k.name, k.lat.value, k.lon.value, k.code)] else r0;
      forall j | 0 <= j < |ps1| ensures ps1[j] < |keys| && KeyOfStation(r1[j]) == keys[ps1[j]] {
        if j < |ps| {
          assert ps[j] in ps;
          assert keys[..n][ps[j]] == keys[ps[j]];
        }
      }
    }
  }

  /** The stations `r` are listed in the order in which their keys first
      appear in `keys`. */
  predicate InFirstSeenOrder(keys: seq<StationKey>, r: seq<Station>) {
    forall a, b :: 0 <= a < b < |r| ==>
      KeyOfStation(r[a]) in keys && KeyOfStation(r[b]) in keys &&
      FirstIndex(keys, KeyOfStation(r[a])) < FirstIndex(keys, KeyOfStation(r[b]))
  }

  /** Dropping the unlocated keys after `drop_duplicates` keeps the order of
      first appearance. */
  lemma LocatedFirstOrder(keys: seq<StationKey>)
    ensures InFirstSeenOrder(keys, Located(Unique(keys)))
  {
    var u := Unique(keys);
    var r := Located(u);
    var ps := Positions(LocatedMask(u), true);
    LocatedInOrder(u);
    forall a, b | 0 <= a < b < |r|
      ensures KeyOfStation(r[a]) in keys && KeyOfStation(r[b]) in keys &&
        FirstIndex(keys, KeyOfStation(r[a])) < FirstIndex(keys, KeyOfStation(r[b]))
    {
      assert ps[a] < ps[b];
      assert u[ps[a]] in u && u[ps[b]] in u;
    }
  }

  /** The station list: deduplicated first, then stripped of stations without
      coordinates. Every station appears once, and exactly the stations some
      observation row names with both coordinates appear, in the order of
      their first observation. */
  function StationList(obs: seq<Observation>): (r: seq<Station>)
    ensures NoDuplicates(r)
    ensures forall s :: s in r <==>
      exists o :: o in obs && o.stationName == s.name && o.lat == Some(s.lat) && o.lon == Some(s.lon) && o.code == s.code
    ensures InFirstSeenOrder(StationKeys(obs), r)
  {
    var keys := StationKeys(obs);
    var r := Located(Unique(keys));
    forall s ensures s in r <==>
      exists o :: o in obs && o.stationName == s.name && o.lat == Some(s.lat) && o.lon == Some(s.lon) && o.code == s.code
    {
      var key := StationKey(s.name, Some(s.lat), Some(s.lon), s.code);
      if key in keys {
        var i :| 0 <= i < |keys| && keys[i] == key;
        assert obs[i] in obs;
      }
      if exists o :: o in obs && KeyOf(o) == key {
        var o :| o in obs && KeyOf(o) == key;
        var i :| 0 <= i < |obs| && obs[i] == o;
        assert keys[i] == key;
      }
    }
    LocatedFirstOrder(keys);
    r
  }

  /** Squared Euclidean distance in degrees; `cdist` takes its square root,
      which does not change which station is nearest. */
  function SqDist(c: Centroid, s: Station): (d: real)
    ensures d >= 0.0
  {
    var dl := c.lat - s.lat;
    var dn := c.lon - s.lon;
    assert dl * dl >= 0.0 && dn * dn >= 0.0;
    dl * dl + dn * dn
  }

  /** `np.argmin` over the first `n` stations: the nearest one, and the first
      of them on a tie. */
  function NearestIn(c: Centroid, st: seq<Station>, n: nat): (k: nat)
    requires 0 < n <= |st|
    ensures k < n
    ensures forall j :: 0 <= j < n ==> SqDist(c, st[k]) <= SqDist(c, st[j])
    ensures forall j :: 0 <= j < k ==> SqDist(c, st[k]) < SqDist(c, st[j])
  {
    if n == 1 then 0
    else
      var k := NearestIn(c, st, n - 1);
      if SqDist(c, st[n - 1]) < SqDist(c, st[k]) then n - 1 else k
  }

  function Nearest(c: Centroid, st: seq<Station>): (k: nat)
    requires |st| > 0
    ensures k < |st|
    ensures forall j :: 0 <= j < |st| ==> SqDist(c, st[k]) <= SqDist(c, st[j])
    ensures forall j :: 0 <= j < k ==> SqDist(c, st[k]) < SqDist(c, st[j])
  {
    NearestIn(c, st, |st|)
  }

  /** The two properties determine the index: the nearest station, the first
      one on a tie, is unique. */
  lemma NearestIsUnique(c: Centroid, st: seq<Station>, k: nat)
    requires k < |st|
    requires forall j :: 0 <= j < |st| ==> SqDist(c, st[k]) <= SqDist(c, st[j])
    requires forall j :: 0 <= j < k ==> SqDist(c, st[k]) < SqDist(c, st[j])
    ensures Nearest(c, st) == k
  {
    var n := Nearest(c, st);
    assert SqDist(c, st[n]) <= SqDist(c, st[k]) && SqDist(c, st[k]) <= SqDist(c, st[n]);
  }

  /** The assignment of one comuna: its nearest station, and 111 times the
      distance to it (squared). The distance is non-negative and at most the
      distance to any station. */
  function Assign(c: Centroid, st: seq<Station>): (a: Assignment)
    requires |st| > 0
    ensures a.comuna == c.comuna
    ensures exists k :: (0 <= k < |st| && a.code == st[k].code && a.stationName == st[k].name &&
      a.kmSq == KmPerDegree * KmPerDegree * SqDist(c, st[k]) &&
      (forall j :: 0 <= j < k ==> SqDist(c, st[k]) < SqDist(c, st[j])))
    ensures 0.0 <= a.kmSq
    ensures forall j :: 0 <= j < |st| ==> a.kmSq <= KmPerDegree * KmPerDegree * SqDist(c, st[j])
  {
    var k := Nearest(c, st);
    Assignment(c.comuna, st[k].code, st[k].name, KmPerDegree * KmPerDegree * SqDist(c, st[k]))
  }

  /** The assignment table, one row per comuna in centroid order. */
  function AssignAll(cs: seq<Centroid>, st: seq<Station>): (t: seq<Assignment>)
    requires |st| > 0
    ensures |t| == |cs|
  {
    seq(|cs|, i requires 0 <= i < |cs| => Assign(cs[i], st))
  }

  function CodeColumn(obs: seq<Observation>): seq<string> {
    seq(|obs|, i requires 0 <= i < |obs| => obs[i].code)
  }

  /** `df_temperaturas[df_temperaturas['Codigo_Estacion'] == code]`: exactly
      the rows with that code, in their original order. */
  function StationRows(obs: seq<Observation>, code: string): (r: seq<Observation>)
    ensures var ps := Positions(CodeColumn(obs), code);
      |r| == |ps| && forall k :: 0 <= k < |r| ==> ps[k] < |obs| && r[k] == obs[ps[k]]
  {
    if obs == [] then []
    else
      var n := |obs| - 1;
      var init := StationRows(obs[..n], code);
      assert CodeColumn(obs)[..n] == CodeColumn(obs[..n]);
      assert forall i :: 0 <= i < n ==> obs[..n][i] == obs[i];
      if obs[n].code == code then init + [obs[n]] else init
  }

  /** The rows of the station tagged with the comuna and its distance. */
  function Tag(rows: seq<Observation>, a: Assignment): (r: seq<SeriesRow>)
    ensures |r| == |rows|
  {
    seq(|rows|, k requires 0 <= k < |rows| => SeriesRow(rows[k], a.comuna, a.kmSq))
  }

  /** The series of one comuna. */
  function ComunaSeries(obs: seq<Observation>, a: Assignment): seq<SeriesRow> {
    Tag(StationRows(obs, a.code), a)
  }

  /** The concatenation of `f(x)` over the elements `x` of `xs`, in order. */
  function ConcatMap<A, B>(f: A -> seq<B>, xs: seq<A>): seq<B> {
    if xs == [] then [] else ConcatMap(f, xs[..|xs| - 1]) + f(xs[|xs| - 1])
  }

  lemma ConcatMapSnoc<A, B>(f: A -> seq<B>, xs: seq<A>, x: A)
    ensures ConcatMap(f, xs + [x]) == ConcatMap(f, xs) + f(x)
  {
    assert (xs + [x])[..|xs|] == xs;
  }

  lemma {:induction false} ConcatMapAppend<A, B>(f: A -> seq<B>, xs: seq<A>, ys: seq<A>)
    ensures ConcatMap(f, xs + ys) == ConcatMap(f, xs) + ConcatMap(f, ys)
    decreases |ys|
  {
    if ys == [] {
      assert xs + ys == xs;
    } else {
      var n := |ys| - 1;
      var front := ys[..n];
      assert ys == front + [ys[n]];
      assert xs + ys == (xs + front) + [ys[n]];
      ConcatMapAppend(f, xs, front);
      ConcatMapSnoc(f, xs + front, ys[n]);
      ConcatMapSnoc(f, front, ys[n]);
    }
  }

  lemma {:induction false} ConcatMapMembership<A, B>(f: A -> seq<B>, xs: seq<A>, y: B)
    ensures y in ConcatMap(f, xs) <==> exists i :: 0 <= i < |xs| && y in f(xs[i])
  {
    if xs != [] {
      var n := |xs| - 1;
      var front := xs[..n];
      ConcatMapMembership(f, front, y);
      assert ConcatMap(f, xs) == ConcatMap(f, front) + f(xs[n]);
      if y in ConcatMap(f, front) {
        var i :| 0 <= i < |front| && y in f(front[i]);
        assert front[i] == xs[i];
      }
      if exists i :: 0 <= i < |xs| && y in f(xs[i]) {
        var i :| 0 <= i < |xs| && y in f(xs[i]);
        if i < n {
          assert front[i] == xs[i];
        }
      }
    }
  }

  /** `pd.concat` of the comunas' series, in assignment order. */
  function Series(obs: seq<Observation>, table: seq<Assignment>): seq<SeriesRow> {
    ConcatMap(a => ComunaSeries(obs, a), table)
  }

  /** `pd.concat` of a list of tables. */
  function Flatten(parts: seq<seq<SeriesRow>>): seq<SeriesRow> {
    ConcatMap((p: seq<SeriesRow>) => p, parts)
  }

  /** One turn of the loop below: appending comuna `i`'s rows, when there
      are any, extends the concatenation by that comuna's series. */
  lemma CollectStep(obs: seq<Observation>, table: seq<Assignment>, parts: seq<seq<SeriesRow>>, i: nat)
    requires i < |table| && Flatten(parts) == Series(obs, table[..i])
    ensures var datos := StationRows(obs, table[i].code);
      if datos != [] then Flatten(parts + [Tag(datos, table[i])]) == Series(obs, table[..i + 1])
      else Flatten(parts) == Series(obs, table[..i + 1])
  {
    assert table[..i + 1] == table[..i] + [table[i]];
    ConcatMapSnoc(a => ComunaSeries(obs, a), table[..i], table[i]);
    var datos := StationRows(obs, table[i].code);
    if datos != [] {
      ConcatMapSnoc((p: seq<SeriesRow>) => p, parts, Tag(datos, table[i]));
    } else {
      assert Series(obs, table[..i + 1]) == Series(obs, table[..i]) + [];
    }
  }

  /** The loop over comunas that appends each non-empty station slice to
      `series_comunas`. */
  method CollectSeries(obs: seq<Observation>, table: seq<Assignment>) returns (parts: seq<seq<SeriesRow>>)
    ensures forall p :: p in parts ==> p != []
    ensures Flatten(parts) == Series(obs, table)
  {
    parts := [];
    for i := 0 to |table|
      invariant forall p :: p in parts ==> p != []
      invariant Flatten(parts) == Series(obs, table[..i])
    {
      CollectStep(obs, table, parts, i);
      var datos := StationRows(obs, table[i].code);
      if datos != [] {
        parts := parts + [Tag(datos, table[i])];
      }
    }
    assert table[..|table|] == table;
  }

  /** The series of several comunas is the series of each in turn. */
  lemma SeriesAppend(obs: seq<Observation>, t1: seq<Assignment>, t2: seq<Assignment>)
    ensures Series(obs, t1 + t2) == Series(obs, t1) + Series(obs, t2)
  {
    ConcatMapAppend(a => ComunaSeries(obs, a), t1, t2);
  }

  /** Row `r` is an observation of the station assigned in `a`, tagged with
      the comuna and its distance. */
  predicate TaggedBy(obs: seq<Observation>, a: Assignment, r: SeriesRow) {
    r.obs in obs && r.obs.code == a.code && r.comuna == a.comuna && r.kmSq == a.kmSq
  }

  /** A row is in one comuna's series exactly when it is an observation of
      the comuna's station tagged with the comuna and its distance. */
  lemma ComunaSeriesMembership(obs: seq<Observation>, a: Assignment, r: SeriesRow)
    ensures r in ComunaSeries(obs, a) <==> TaggedBy(obs, a, r)
  {
    var rows := StationRows(obs, a.code);
    var ps := Positions(CodeColumn(obs), a.code);
    if r in ComunaSeries(obs, a) {
      var k :| 0 <= k < |rows| && Tag(rows, a)[k] == r;
      assert ps[k] in ps;
    }
    if TaggedBy(obs, a, r) {
      var i :| 0 <= i < |obs| && obs[i] == r.obs;
      assert i in ps;
      var k :| 0 <= k < |ps| && ps[k] == i;
      assert Tag(rows, a)[k] == r;
    }
  }

  /** A row is in the series exactly when it is an observation of some
      comuna's assigned station, tagged with that comuna and its distance. */
  lemma SeriesMembership(obs: seq<Observation>, table: seq<Assignment>, r: SeriesRow)
    ensures r in Series(obs, table) <==> exists i :: 0 <= i < |table| && TaggedBy(obs, table[i], r)
  {
    ConcatMapMembership(a => ComunaSeries(obs, a), table, r);
    forall i | 0 <= i < |table| ensures r in ComunaSeries(obs, table[i]) <==> TaggedBy(obs, table[i], r) {
      ComunaSeriesMembership(obs, table[i], r);
    }
  }

  /** The series is empty exactly when no comuna's station has any row. */
  lemma SeriesEmpty(obs: seq<Observation>, table: seq<Assignment>)
    ensures Series(obs, table) == [] <==>
      forall i, o :: 0 <= i < |table| && o in obs ==> o.code != table[i].code
  {
    forall i, o | 0 <= i < |table| && o in obs && o.code == table[i].code
      ensures Series(obs, table) != []
    {
      assert TaggedBy(obs, table[i], SeriesRow(o, table[i].comuna, table[i].kmSq));
      SeriesMembership(obs, table, SeriesRow(o, table[i].comuna, table[i].kmSq));
    }
    if Series(obs, table) != [] {
      var r := Series(obs, table)[0];
      SeriesMembership(obs, table, r);
    }
  }

  /** Outcome of `paso_2_asignar_comunas`: `(None, None)`, the `ValueError`
      that `np.argmin` raises on an empty station list, or the series and the
      assignment table. */
  datatype Stage2 = NoSeries | NoStation | Assigned(rows: seq<SeriesRow>, table: seq<Assignment>)

  /** `comunas` is `None` when the comuna file could not be read. */
  method AssignComunas(obs: seq<Observation>, comunas: Option<seq<Centroid>>) returns (r: Stage2)
    ensures comunas.None? ==> r == NoSeries
    ensures comunas.Some? && StationList(obs) == [] ==> r == NoStation
    ensures comunas.Some? && StationList(obs) != [] ==>
      var table := AssignAll(comunas.value, StationList(obs));
      r == if Series(obs, table) == [] then NoSeries else Assigned(Series(obs, table), table)
  {
    if comunas.None? {
      return NoSeries;
    }
    var estaciones := StationList(obs);
    if estaciones == [] {
      return NoStation;
    }
    var table := AssignAll(comunas.value, estaciones);
    var parts := CollectSeries(obs, table);
    if parts == [] {
      r := NoSeries;
    } else {
      assert parts[|parts| - 1] in parts;
      r := Assigned(Flatten(parts), table);
    }
  }
}

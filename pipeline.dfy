/** `ejecutar_pipeline_completo`: extraction, station assignment and series
    reconstruction, stopping with no table as soon as a stage yields none.
    Extraction is an input: `extracted` is `None` when it produced no table. */
module Pipeline {
  import opened Wrappers
  import opened Tables
  import opened StationAssignment
  import opened KnnFill
  import opened Reconstruction

  /** No table (`None`), the `ValueError` numpy raises on an empty list of
      stations, or the reconstructed table. */
  datatype Outcome = Absent | Raised | Table(rows: seq<SeriesRow>)

  /** The outcome of the whole pipeline. */
  function PipelineSpec(extracted: Option<seq<Observation>>, comunas: Option<seq<Centroid>>,
                        metodo: string, imp: Imputer): Outcome
    requires KeepsRowCount(imp)
  {
    if extracted.None? || comunas.None? then Absent
    else if StationList(extracted.value) == [] then Raised
    else
      var rows := Series(extracted.value, AssignAll(comunas.value, StationList(extracted.value)));
      if rows == [] then Absent else Table(ReconstructSpec(rows, metodo, imp))
  }

  method RunPipeline(extracted: Option<seq<Observation>>, comunas: Option<seq<Centroid>>,
                     metodo: string, imp: Imputer) returns (r: Outcome)
    requires KeepsRowCount(imp)
    ensures r == PipelineSpec(extracted, comunas, metodo, imp)
  {
    if extracted.None? {
      return Absent;
    }
    var stage2 := AssignComunas(extracted.value, comunas);
    match stage2
    case NoSeries =>
      r := Absent;
    case NoStation =>
      r := Raised;
    case Assigned(rows, _) =>
      var final := Reconstruct(rows, metodo, imp);
      r := Table(final);
  }

  /** Row `r` carries the comuna, the distance and the station code of one
      row of the assignment table. */
  predicate CarriesAssignment(table: seq<Assignment>, r: SeriesRow) {
    exists k :: 0 <= k < |table| && r.comuna == table[k].comuna && r.kmSq == table[k].kmSq &&
      r.obs.code == table[k].code
  }

  /** Row `r` holds one of the observations, temperature aside. */
  predicate FromObservation(obs: seq<Observation>, r: SeriesRow) {
    exists o :: o in obs && r.obs == o.(temp := r.obs.temp)
  }

  /** The rows of a table that differs from the series only in temperatures
      carry the assignment of their comuna and, temperature aside, are
      observations. */
  lemma RowsOfSeries(obs: seq<Observation>, table: seq<Assignment>, out: seq<SeriesRow>)
    requires SameExceptTemp(out, Series(obs, table))
    ensures forall i :: 0 <= i < |out| ==> CarriesAssignment(table, out[i]) && FromObservation(obs, out[i])
  {
    var rows := Series(obs, table);
    forall i | 0 <= i < |out| ensures CarriesAssignment(table, out[i]) && FromObservation(obs, out[i]) {
      assert rows[i] in rows;
      SeriesMembership(obs, table, rows[i]);
      var k :| 0 <= k < |table| && TaggedBy(obs, table[k], rows[i]);
      assert out[i].obs == rows[i].obs.(temp := out[i].obs.temp);
    }
  }

  /** When a table comes out, it is the non-empty stage-2 series with only
      temperatures changed; each row carries the station assignment of its
      comuna and, temperature aside, is an observation of that station. */
  lemma PipelineRows(extracted: Option<seq<Observation>>, comunas: Option<seq<Centroid>>,
                     metodo: string, imp: Imputer)
    requires KeepsRowCount(imp)
    requires PipelineSpec(extracted, comunas, metodo, imp).Table?
    ensures var obs := extracted.value;
      var table := AssignAll(comunas.value, StationList(obs));
      var out := PipelineSpec(extracted, comunas, metodo, imp).rows;
      SameExceptTemp(out, Series(obs, table)) && |out| > 0 &&
      forall i :: 0 <= i < |out| ==> CarriesAssignment(table, out[i]) && FromObservation(obs, out[i])
  {
    var obs := extracted.value;
    var table := AssignAll(comunas.value, StationList(obs));
    RowsOfSeries(obs, table, PipelineSpec(extracted, comunas, metodo, imp).rows);
  }

  /** The pipeline stops without a table exactly when extraction or the
      comuna file failed, or no comuna's station has an observation; it raises
      exactly when no station has coordinates. */
  lemma PipelineOutcomes(extracted: Option<seq<Observation>>, comunas: Option<seq<Centroid>>,
                         metodo: string, imp: Imputer)
    requires KeepsRowCount(imp)
    ensures PipelineSpec(extracted, comunas, metodo, imp) == Raised <==>
      extracted.Some? && comunas.Some? && StationList(extracted.value) == []
    ensures PipelineSpec(extracted, comunas, metodo, imp) == Absent <==>
      extracted.None? || comunas.None? ||
      (StationList(extracted.value) != [] &&
       forall i, o :: 0 <= i < |comunas.value| && o in extracted.value ==>
         o.code != AssignAll(comunas.value, StationList(extracted.value))[i].code)
  {
    if extracted.Some? && comunas.Some? && StationList(extracted.value) != [] {
      SeriesEmpty(extracted.value, AssignAll(comunas.value, StationList(extracted.value)));
    }
  }

  /** With every temperature observed, stage 3 changes nothing and the table
      is the stage-2 series. */
  lemma CompleteDataUnchanged(extracted: Option<seq<Observation>>, comunas: Option<seq<Centroid>>,
                              metodo: string, imp: Imputer)
    requires KeepsRowCount(imp)
    requires extracted.Some? && forall o :: o in extracted.value ==> o.temp.Some?
    requires PipelineSpec(extracted, comunas, metodo, imp).Table?
    ensures PipelineSpec(extracted, comunas, metodo, imp).rows ==
      Series(extracted.value, AssignAll(comunas.value, StationList(extracted.value)))
  {
    var obs := extracted.value;
    var table := AssignAll(comunas.value, StationList(obs));
    var rows := Series(obs, table);
    forall i | 0 <= i < |rows| ensures rows[i].obs.temp.Some? {
      assert rows[i] in rows;
      SeriesMembership(obs, table, rows[i]);
    }
  }

  /** With the nearest-neighbour strategy the table has no missing
      temperature. */
  lemma PipelineKnnComplete(extracted: Option<seq<Observation>>, comunas: Option<seq<Centroid>>,
                            metodo: string, imp: Imputer)
    requires KeepsRowCount(imp)
    requires SelectStrategy(metodo) == Knn
    requires PipelineSpec(extracted, comunas, metodo, imp).Table?
    ensures NullCount(PipelineSpec(extracted, comunas, metodo, imp).rows) == 0
  {
    var rows := Series(extracted.value, AssignAll(comunas.value, StationList(extracted.value)));
    KnnLeavesNoNulls(rows, metodo, imp);
  }
}

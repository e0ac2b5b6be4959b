/** `paso_3_reconstruir_series`: a table with no missing temperature is
    returned as it is; otherwise the strategy named by `metodo` (compared in
    lower case) fills it, with `'knn'` also standing for any unrecognised
    name. */
module Reconstruction {
  import opened Wrappers
  import opened Tables
  import opened LinearFill
  import opened SeasonalFill
  import opened KnnFill

  datatype Strategy = Lineal | Estacional | Knn

  /** `str.lower()` on ASCII letters. */
  function LowerChar(ch: char): (r: char)
    ensures 'A' <= ch <= 'Z' ==> r as int == ch as int + 32
    ensures !('A' <= ch <= 'Z') ==> r == ch
    ensures !('A' <= r <= 'Z')
  {
    if 'A' <= ch <= 'Z' then (ch as int + 32) as char else ch
  }

  function ToLower(s: string): (r: string)
    ensures |r| == |s| && forall i :: 0 <= i < |s| ==> r[i] == LowerChar(s[i])
  {
    seq(|s|, i requires 0 <= i < |s| => LowerChar(s[i]))
  }

  /** Lowering twice is lowering once. */
  lemma ToLowerIdempotent(s: string)
    ensures ToLower(ToLower(s)) == ToLower(s)
  {
    var t := ToLower(s);
    forall i | 0 <= i < |t| ensures LowerChar(t[i]) == t[i] {
      assert !('A' <= t[i] <= 'Z');
    }
  }

  /** The `if`/`elif` chain on `metodo.lower()`. */
  function SelectStrategy(metodo: string): Strategy {
    var m := ToLower(metodo);
    if m == "lineal" then Lineal
    else if m == "estacional" then Estacional
    else Knn
  }

  /** Which names select which strategy: any spelling of `lineal` or
      `estacional` in upper or lower case selects that strategy, and every
      other name, `knn` among them, selects the nearest-neighbour one. */
  lemma StrategyNames(metodo: string)
    ensures SelectStrategy(metodo) == Lineal <==> ToLower(metodo) == "lineal"
    ensures SelectStrategy(metodo) == Estacional <==> ToLower(metodo) == "estacional"
    ensures SelectStrategy(metodo) == Knn <==>
      ToLower(metodo) != "lineal" && ToLower(metodo) != "estacional"
    ensures SelectStrategy(ToLower(metodo)) == SelectStrategy(metodo)
  {
    ToLowerIdempotent(metodo);
  }

  lemma StrategyExamples()
    ensures SelectStrategy("LINEAL") == Lineal
    ensures SelectStrategy("Estacional") == Estacional
    ensures SelectStrategy("knn") == Knn
    ensures SelectStrategy("spline") == Knn
  {
    assert ToLower("LINEAL") == "lineal";
    assert ToLower("Estacional") == "estacional";
    assert ToLower("knn") == "knn";
    assert ToLower("spline") == "spline";
  }

  /** The table a strategy produces. */
  function Apply(df: seq<SeriesRow>, s: Strategy, imp: Imputer): (r: seq<SeriesRow>)
    requires KeepsRowCount(imp)
    ensures SameExceptTemp(r, df)
  {
    match s
    case Lineal => LinearSpec(df)
    case Estacional => SeasonalSpec(df)
    case Knn => KnnSpec(df, imp)
  }

  /** The table stage 3 returns. */
  function ReconstructSpec(df: seq<SeriesRow>, metodo: string, imp: Imputer): (r: seq<SeriesRow>)
    requires KeepsRowCount(imp)
    ensures SameExceptTemp(r, df)
    ensures NullCount(df) == 0 ==> r == df
  {
    if NullCount(df) == 0 then df else Apply(df, SelectStrategy(metodo), imp)
  }

  /** With a missing value, stage 3 returns what the selected strategy
      produces. */
  lemma SelectedApplies(df: seq<SeriesRow>, metodo: string, imp: Imputer, s: Strategy)
    requires KeepsRowCount(imp)
    requires NullCount(df) != 0 && SelectStrategy(metodo) == s
    ensures s == Lineal ==> ReconstructSpec(df, metodo, imp) == LinearSpec(df)
    ensures s == Estacional ==> ReconstructSpec(df, metodo, imp) == SeasonalSpec(df)
    ensures s == Knn ==> ReconstructSpec(df, metodo, imp) == KnnSpec(df, imp)
  {
  }

  /** `paso_3_reconstruir_series`. */
  method Reconstruct(df: seq<SeriesRow>, metodo: string, imp: Imputer) returns (out: seq<SeriesRow>)
    requires KeepsRowCount(imp)
    ensures out == ReconstructSpec(df, metodo, imp)
  {
    var nans := NullCount(df);
    if nans == 0 {
      return df;
    }
    var m := ToLower(metodo);
    if m == "lineal" {
      SelectedApplies(df, metodo, imp, Lineal);
      out := InterpolateLinear(df);
    } else if m == "estacional" {
      SelectedApplies(df, metodo, imp, Estacional);
      out := InterpolateSeasonal(df);
    } else if m == "knn" {
      SelectedApplies(df, metodo, imp, Knn);
      out := InterpolateKnn(df, imp);
    } else {
      SelectedApplies(df, metodo, imp, Knn);
      out := InterpolateKnn(df, imp);
    }
  }

  /** With the nearest-neighbour strategy no temperature is missing
      afterwards. */
  lemma KnnLeavesNoNulls(df: seq<SeriesRow>, metodo: string, imp: Imputer)
    requires KeepsRowCount(imp)
    requires SelectStrategy(metodo) == Knn
    ensures NullCount(ReconstructSpec(df, metodo, imp)) == 0
  {
    if NullCount(df) != 0 {
      assert ReconstructSpec(df, metodo, imp) == KnnSpec(df, imp);
      KnnNoNulls(df, imp);
    }
  }

  /** With the per-comuna strategies a row has a temperature afterwards
      exactly when some row of its comuna had one. */
  lemma PerComunaNulls(df: seq<SeriesRow>, metodo: string, imp: Imputer, i: nat)
    requires KeepsRowCount(imp)
    requires SelectStrategy(metodo) != Knn
    requires i < |df|
    ensures ReconstructSpec(df, metodo, imp)[i].obs.temp.Some? <==>
      exists j :: 0 <= j < |df| && df[j].comuna == df[i].comuna && df[j].obs.temp.Some?
  {
    if NullCount(df) == 0 {
      assert df[i].obs.temp.Some?;
    } else if SelectStrategy(metodo) == Lineal {
      assert ReconstructSpec(df, metodo, imp) == LinearSpec(df);
      LinearSpecNoNulls(df, i);
    } else {
      assert ReconstructSpec(df, metodo, imp) == SeasonalSpec(df);
      SeasonalSpecNoNulls(df, i);
    }
  }

  /** A known temperature is kept, provided its comuna's rows are stored in
      date order (for the per-comuna strategies) and the imputer returns the
      known values (for the nearest-neighbour one). */
  lemma ReconstructKeepsKnown(df: seq<SeriesRow>, metodo: string, imp: Imputer, i: nat)
    requires KeepsRowCount(imp) && KeepsObserved(imp)
    requires i < |df| && df[i].obs.temp.Some?
    requires InDateOrder(df, df[i].comuna)
    ensures ReconstructSpec(df, metodo, imp)[i] == df[i]
  {
    if NullCount(df) != 0 {
      match SelectStrategy(metodo)
      case Lineal => LinearKeepsKnownInOrder(df, i);
      case Estacional => SeasonalKeepsKnownInOrder(df, i);
      case Knn => KnnKeepsKnown(df, imp, i);
    }
  }
}

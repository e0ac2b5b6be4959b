# Comuna temperature series and comuna adjacency graph, in Dafny

This project models the two computational cores of a pipeline that rebuilds
daily mean-temperature series for the comunas of the Región Metropolitana de
Santiago, proves properties of the model, and models the builder of the
comuna adjacency graph used as input to a graph neural network.

`temperaturas_rm.py`, class `PipelineTemperaturasRM`:

- `paso_2_asignar_comunas` (module `StationAssignment`) does the following:
  - It deduplicates the station list on (name, latitude, longitude, code) and drops stations with a missing coordinate.
  - It assigns every comuna centroid to the station at the smallest Euclidean distance, with ties going to the first station (`np.argmin`).
  - It records that distance times 111 as kilometres.
  - It concatenates, comuna by comuna, the observation rows of each comuna's station, tagged with the comuna and the distance.
  - Each comuna is handled by the loop that appends to `series_comunas`: the imperative method `CollectSeries`, proved against the function `Series`.
- `paso_3_reconstruir_series` (module `Reconstruction`) returns a table with no missing temperature unchanged. Otherwise it dispatches on `metodo.lower()`: `'lineal'` and `'estacional'` pick those strategies, and everything else, `'knn'` included, runs the nearest-neighbour strategy.
- `_interpolacion_lineal` (modules `LinearFill` and `ComunaFill`) works per comuna:
  - It sorts the comuna's rows by date.
  - It interpolates each gap by position between the known values around it, then forward- and back-fills the ends.
  - It writes the values back into the comuna's rows by position.
- `_interpolacion_estacional` (module `SeasonalFill`) works per comuna:
  - A missing day takes the median of the known values on the same day of the year.
  - Failing that, it takes the median of the comuna's series as filled so far.
  - This is an imperative inner loop over the missing positions, `FillSeasonalSeries`.
- `_interpolacion_knn` (module `KnnFill`) is a loop over the sorted distinct dates. Each date that has a missing temperature sends its rows through an imputer, and the imputed column replaces the date's temperatures.
- `ejecutar_pipeline_completo` (module `Pipeline`) chains extraction, stage 2 and stage 3, and stops with no table as soon as a stage gives none.

`carga_comunas.py`:

- `detectar_comunas_vecinas` (module `Adjacency`) builds, for every comuna, the list of the other comunas it touches, in index order.
- `crear_matriz_adyacencia` builds the n×n 0/1 matrix, as an `array2<int>` filled in place.
- `crear_dataframes_gnn` (module `GnnTables`) builds four things:
  - the row-major edge list;
  - the node-feature rows, with the degree as the matrix row sum;
  - the edge table, with the names of both ends;
  - the unique labels `name_i` and the labelled adjacency frame.
- `carga_comunas_gnn` chains these steps and counts `total_conexiones`.

Shared modules:

- `Tables`: the series table and its per-comuna and per-date selections.
- `Dates`: calendar dates and day of year.
- `Sorting`: a stable sort by date.
- `Stats`: the median over reals and `median()` skipping NaN.
- `Wrappers`: `Option`.

Temperatures are `Option<real>`, where `None` is NaN, so all arithmetic is exact.

Each imperative method is proved equal to a specification function:
- `InterpolateLinear`, `InterpolateSeasonal` and `InterpolateKnn` against `LinearSpec`, `SeasonalSpec` and `KnnSpec`.
- `RunPipeline` against `PipelineSpec`.
- `BuildGnnTables` against `GnnSpec`.

The lemmas state what the source promises about those functions.

Four behaviours of the code that the model keeps as written:

- **No station with coordinates.** `np.argmin` (temperaturas_rm.py:124) raises on an empty axis, so the model returns `Raised`, kept separate from `Absent`.
- **Seasonal fallbacks.** The month branch (temperaturas_rm.py:211-213) can never run, because a row's own day of the year is always a key of the pattern (`SeasonalFill.PatternCoversDates`). The last fallback is the median of the series as filled up to that point, not of the observed values.
- **Linear write-back order.** The date-sorted rows are interpolated, but the values are written back in table order (temperaturas_rm.py:188). A known value therefore moves when a comuna's rows are not already in date order (`LinearFill.LinearOutOfOrderExample`). The same holds for the seasonal strategy.
- **KNN write-back.** The imputer's whole output column is written back (temperaturas_rm.py:241), so no missing value survives (`KnnFill.KnnNoNulls`). Known values survive only if the imputer returns them (`KnnFill.KeepsObserved`).

## Model

| member | source | states |
|---|---|---|
| StationAssignment.Located | temperaturas_rm.py:112 | a station is kept exactly when its deduplicated key has both coordinates; no duplicates are introduced |
| StationAssignment.LocatedInOrder | temperaturas_rm.py:112 | `dropna` keeps table order: the k-th station is read from the k-th key that has both coordinates |
| StationAssignment.LocatedFirstOrder | temperaturas_rm.py:111-112 | after `drop_duplicates` and `dropna` the stations are in the order of their keys' first appearance |
| StationAssignment.StationList | temperaturas_rm.py:111-112 | the station list has no repeated station, holds exactly the (name, lat, lon, code) combinations that some observation row carries with both coordinates, and lists them in the order of their first observation, which is the order `np.argmin` breaks ties by |
| StationAssignment.SqDist | temperaturas_rm.py:124 | the squared Euclidean degree distance between a centroid and a station is non-negative |
| StationAssignment.Nearest | temperaturas_rm.py:124-125 | the chosen index is in range, no station is nearer, and every earlier index is strictly farther (first index on ties) |
| StationAssignment.NearestIsUnique | temperaturas_rm.py:125 | any index that is a minimum and strictly beats every earlier index is the one argmin returns |
| StationAssignment.Assign | temperaturas_rm.py:124-130 | the assignment keeps the comuna, takes code and name from the first nearest station, records 111² × squared distance, is non-negative and bounded by the value for every station |
| StationAssignment.StationRows | temperaturas_rm.py:139 | the rows for a station code are the observation rows with that code, in table order |
| StationAssignment.CollectSeries | temperaturas_rm.py:133-145 | the loop appends only non-empty slices, and their concatenation is the series of the whole assignment table |
| StationAssignment.CollectStep | temperaturas_rm.py:139-144 | one loop turn: a station with rows appends its tagged slice, one without rows appends nothing, and either way the concatenation covers one more comuna |
| StationAssignment.SeriesAppend | temperaturas_rm.py:147 | the series of two assignment tables one after the other is the concatenation of their series |
| StationAssignment.ComunaSeriesMembership | temperaturas_rm.py:139-143 | a row is in a comuna's slice exactly when it is an observation of the assigned station tagged with the comuna and its distance |
| StationAssignment.SeriesMembership | temperaturas_rm.py:135-147 | a row is in the series exactly when some comuna's assignment tags one of its station's observations with that comuna and distance |
| StationAssignment.SeriesEmpty | temperaturas_rm.py:141-146 | the series is empty exactly when no comuna's assigned station code occurs in the observations |
| StationAssignment.AssignComunas | temperaturas_rm.py:103-155 | a missing comuna file gives (None, None); no located station raises; otherwise the result is the series with the assignment table, or (None, None) when the series is empty |
| Reconstruction.LowerChar | temperaturas_rm.py:165 | an ASCII capital letter becomes its lower-case letter, every other character is unchanged, and the result is never a capital letter |
| Reconstruction.ToLower | temperaturas_rm.py:165 | lower-casing keeps the length and lowers each character |
| Reconstruction.ToLowerIdempotent | temperaturas_rm.py:165-169 | lower-casing twice is lower-casing once |
| Reconstruction.StrategyNames | temperaturas_rm.py:165-172 | `lineal` and `estacional` are selected exactly by their case-insensitive names, every other name selects the nearest-neighbour strategy, and the choice ignores case |
| Reconstruction.StrategyExamples | temperaturas_rm.py:165-172 | `LINEAL` selects linear, `Estacional` seasonal, `knn` and an unknown `spline` the nearest-neighbour strategy |
| Reconstruction.Apply | temperaturas_rm.py:165-172 | every strategy changes only the temperature column |
| Reconstruction.ReconstructSpec | temperaturas_rm.py:159-163 | stage 3 changes only temperatures, and a table without a missing value comes back unchanged |
| Reconstruction.SelectedApplies | temperaturas_rm.py:165-172 | with a missing value, stage 3 returns the table of the strategy its name selects |
| Reconstruction.Reconstruct | temperaturas_rm.py:157-178 | the method returns the stage-3 table for every name, including the unknown-name branch |
| Reconstruction.KnnLeavesNoNulls | temperaturas_rm.py:169-172 | with the nearest-neighbour strategy no temperature is missing afterwards |
| Reconstruction.PerComunaNulls | temperaturas_rm.py:165-168 | with the linear or seasonal strategy a row has a temperature afterwards exactly when some row of its comuna had one |
| Reconstruction.ReconstructKeepsKnown | temperaturas_rm.py:165-172 | a known temperature is kept by every strategy when its comuna's rows are in date order and the imputer returns known values |
| Tables.NullCount | temperaturas_rm.py:159 | the NaN count is zero exactly when every row has a temperature, and never exceeds the row count |
| Tables.Positions | temperaturas_rm.py:184 | a boolean mask selects exactly the positions holding the key, in increasing order |
| Tables.PositionsSnoc | temperaturas_rm.py:184 | extending the column by one value extends the selection by its position exactly when the value is the key |
| Tables.IndexOfIncreasing | temperaturas_rm.py:188 | in an increasing selection, the rank of its k-th position is k |
| Tables.Unique | temperaturas_rm.py:183 | `unique()` holds each value of the column once, in order of first appearance |
| Tables.ChronologicalRows | temperaturas_rm.py:185 | sorting a comuna's rows by date permutes exactly the comuna's rows into date order |
| Tables.ChronologicalOfOrdered | temperaturas_rm.py:185 | rows already in date order are left in table order by the sort |
| Tables.Scatter | temperaturas_rm.py:188 | writing values into the masked rows changes only the temperature column, leaves unmasked rows as they were, and gives the k-th masked row the k-th value |
| Tables.UnwrittenComuna | temperaturas_rm.py:184-188 | a comuna whose rows are untouched has the same selections, order, values and dates as before |
| ComunaFill.FillByComuna | temperaturas_rm.py:183-188 | the per-comuna fill changes only temperatures |
| ComunaFill.WriteStep | temperaturas_rm.py:184-188 | writing one new comuna back gives its rows their final values and leaves every other row as it stood |
| ComunaFill.AllWritten | temperaturas_rm.py:183 | once every comuna of the table has been written, the table is the per-comuna fill |
| ComunaFill.FilledValue | temperaturas_rm.py:184-188 | row i receives the fill of its comuna's date-sorted series at the rank of row i among the comuna's rows (positional write-back) |
| ComunaFill.FilledInOrder | temperaturas_rm.py:185-188 | when the comuna's rows are in date order, row i receives the fill of its comuna's series at its own rank |
| ComunaFill.ComunaKnown | temperaturas_rm.py:184-185 | the comuna's sorted series has a known value exactly when some row of the comuna has one |
| ComunaFill.ComunaValueRow | temperaturas_rm.py:184-185 | every value of a comuna's sorted series is the temperature of one of its rows |
| Sorting.Insert | temperaturas_rm.py:185 | inserting a row adds exactly that row |
| Sorting.InsertSorted | temperaturas_rm.py:185 | inserting into a date-sorted sequence keeps it date-sorted |
| Sorting.SortBy | temperaturas_rm.py:185 | sorting by date is a permutation, and its result is in date order |
| Sorting.SortByOfSorted | temperaturas_rm.py:185 | a sequence already in date order is left as it is (the sort is stable) |
| Sorting.SortDates | temperaturas_rm.py:226 | `sorted(...)` of the dates is a permutation in non-decreasing date order |
| Dates.DayOfYearRange | temperaturas_rm.py:195 | the day of the year of a valid date lies between 1 and the length of its year |
| Dates.DayOfYearOrdered | temperaturas_rm.py:195 | within one year, date order is day-of-year order, and equal days of the year mean equal dates |
| LinearFill.LastKnownBefore | temperaturas_rm.py:187 | the last known position before k, with no known value between, or none at all (forward-fill source) |
| LinearFill.FirstKnownAfter | temperaturas_rm.py:187 | the first known position after k, with no known value between, or none at all (back-fill source) |
| LinearFill.FillLinear | temperaturas_rm.py:186-187 | the filled series has the same length and keeps every known value |
| LinearFill.LinearInterior | temperaturas_rm.py:186 | a gap between known positions p < k < q becomes v_p + (v_q − v_p)(k − p)/(q − p), by position |
| LinearFill.InterpolateBetween | temperaturas_rm.py:186 | an interpolated value lies between the two known values around it |
| LinearFill.LinearLeading | temperaturas_rm.py:187 | a gap before the first known value takes that value |
| LinearFill.LinearTrailing | temperaturas_rm.py:187 | a gap after the last known value takes that value |
| LinearFill.LinearNoNulls | temperaturas_rm.py:186-187 | the filled series has no gap exactly when some value is known, and an all-NaN series stays as it is |
| LinearFill.LinearExample | temperaturas_rm.py:186-187 | [10, NaN, NaN, 13, 14] becomes [10, 11, 12, 13, 14] |
| LinearFill.LinearSpec | temperaturas_rm.py:180-190 | the linear strategy changes only temperatures |
| LinearFill.InterpolateLinear | temperaturas_rm.py:180-190 | the loop over the comunas yields the linear strategy's table |
| LinearFill.LinearKeepsKnownInOrder | temperaturas_rm.py:185-188 | with the comuna's rows in date order, a known temperature stays on its row |
| LinearFill.LinearSpecNoNulls | temperaturas_rm.py:183-188 | a row has a temperature afterwards exactly when some row of its comuna had one |
| LinearFill.LinearOutOfOrderExample | temperaturas_rm.py:185-188 | a comuna stored out of date order has its first row's known value 10 replaced by 20 from another row |
| Stats.SortReals | temperaturas_rm.py:202 | sorting reals is a permutation into non-decreasing order |
| Stats.MiddleOf | temperaturas_rm.py:202 | the middle of a sorted sequence lies between its first and last values |
| Stats.Median | temperaturas_rm.py:202 | the median lies between the smallest and largest values |
| Stats.SortedUnique | temperaturas_rm.py:202 | two sorted sequences with the same elements are equal |
| Stats.MedianOfPermutation | temperaturas_rm.py:202 | the median does not depend on the order of the values |
| Stats.Knowns | temperaturas_rm.py:202 | the known values are exactly the values present, NaN skipped |
| Stats.KnownsInOrder | temperaturas_rm.py:202 | the known values keep their order and repeats: the k-th is the value at the k-th known position |
| Stats.MedianRepeatsExample | temperaturas_rm.py:202 | repeats count: the median of 1, 1, NaN, 5 is 1 |
| Stats.MedianOf | temperaturas_rm.py:213-216 | `median()` is NaN exactly when no value is known, and otherwise lies between known values |
| SeasonalFill.Select | temperaturas_rm.py:213 | the values of the rows whose date passes the filter, and no others |
| SeasonalFill.SelectInOrder | temperaturas_rm.py:213 | the selected values keep their order and repeats: the k-th is the value at the k-th kept row |
| SeasonalFill.Pattern | temperaturas_rm.py:202 | the pattern has a key for each day of the year the series covers, and no other |
| SeasonalFill.FillSeasonalSeries | temperaturas_rm.py:203-218 | the loop over missing positions yields the seasonal series |
| SeasonalFill.SeasonalFromSteps | temperaturas_rm.py:206-218 | the loop from position k keeps earlier positions, keeps known values, and gives each missing one its base over the series as filled so far |
| SeasonalFill.SeasonalSteps | temperaturas_rm.py:206-218 | each position of the seasonal series is its known value, or the base computed on the series filled up to it |
| SeasonalFill.PatternCoversDates | temperaturas_rm.py:209-210 | a row's own day of the year is always a key of the pattern, whose value is that day's median, so the month branch never runs |
| SeasonalFill.SeasonalKeepsKnown | temperaturas_rm.py:203-206 | only missing positions are written |
| SeasonalFill.SeasonalDayMedian | temperaturas_rm.py:207-210 | a gap on a day with known values takes the median of the known values on that day of the year |
| SeasonalFill.SeasonalFallback | temperaturas_rm.py:215-216 | a gap on a day without known values takes the median of the series as filled so far |
| SeasonalFill.SeasonalWithinRange | temperaturas_rm.py:202-218 | every value of the seasonal series lies between known values of the original series |
| SeasonalFill.SeasonalNoNulls | temperaturas_rm.py:203-218 | one known value leaves no gap, and an all-NaN series stays as it is |
| SeasonalFill.SeasonalSomeAt | temperaturas_rm.py:215-218 | with one known value every position ends with a value |
| SeasonalFill.SeasonalNoneAt | temperaturas_rm.py:205-216 | with no known value every position stays NaN |
| SeasonalFill.SeasonalOf | temperaturas_rm.py:200-218 | the per-comuna fill has one value per row and is the seasonal series |
| SeasonalFill.SeasonalSpec | temperaturas_rm.py:192-222 | the seasonal strategy changes only temperatures |
| SeasonalFill.InterpolateSeasonal | temperaturas_rm.py:192-222 | the loop over the comunas yields the seasonal strategy's table |
| SeasonalFill.SeasonalRow | temperaturas_rm.py:199-220 | row i receives the seasonal series of its comuna at its rank among the comuna's rows |
| SeasonalFill.SeasonalSpecNoNulls | temperaturas_rm.py:198-220 | a row has a temperature afterwards exactly when some row of its comuna had one |
| SeasonalFill.SeasonalSpecWithinRange | temperaturas_rm.py:198-220 | every value written lies between known temperatures of the same comuna |
| SeasonalFill.SeasonalKeepsKnownInOrder | temperaturas_rm.py:200-220 | with the comuna's rows in date order, a known temperature stays on its row |
| KnnFill.DateRows | temperaturas_rm.py:229 | the date mask selects exactly the rows of that date, in table order |
| KnnFill.Features | temperaturas_rm.py:233-237 | the imputer input has one row per selected row, whose temperature is that row's |
| KnnFill.KnnSpec | temperaturas_rm.py:224-243 | the nearest-neighbour strategy changes only temperatures |
| KnnFill.ImputeDate | temperaturas_rm.py:229-241 | one loop turn changes only temperatures |
| KnnFill.ImputeOneDate | temperaturas_rm.py:229-241 | the loop body for a date is one step of the strategy |
| KnnFill.KnnSeenDate | temperaturas_rm.py:232 | a date already imputed has no gap, so a second pass leaves it alone |
| KnnFill.KnnFreshRow | temperaturas_rm.py:229-241 | imputing a new date gives its rows their final values and leaves the other rows alone |
| KnnFill.KnnStep | temperaturas_rm.py:228-241 | every loop turn extends the set of dates whose rows hold their final values |
| KnnFill.DatesInOrderMembers | temperaturas_rm.py:226 | the sorted distinct dates are exactly the dates of the table |
| KnnFill.KnnLoopDone | temperaturas_rm.py:226-243 | after the loop over every date the table is the strategy's table |
| KnnFill.InterpolateKnn | temperaturas_rm.py:224-243 | the loop over the sorted dates yields the strategy's table |
| KnnFill.KnnKeepsCompleteDates | temperaturas_rm.py:232 | rows of a date without a missing temperature are never modified |
| KnnFill.KnnRowSome | temperaturas_rm.py:232-241 | every row ends with a temperature |
| KnnFill.KnnNoNulls | temperaturas_rm.py:232-241 | no temperature is missing afterwards |
| KnnFill.KnnKeepsKnown | temperaturas_rm.py:236-241 | with an imputer that returns the known values, every known temperature stays on its row |
| Pipeline.RunPipeline | temperaturas_rm.py:245-260 | the orchestrator returns the pipeline's outcome |
| Pipeline.RowsOfSeries | temperaturas_rm.py:139-147 | each row of a table that differs from the series only in temperature carries its comuna's assignment and is an observation, temperature aside |
| Pipeline.PipelineRows | temperaturas_rm.py:251-255 | a returned table is non-empty, differs from the stage-2 series only in temperature, and every row carries its comuna's station assignment |
| Pipeline.PipelineOutcomes | temperaturas_rm.py:247-253 | the pipeline raises exactly when no station has coordinates, and ends with no table exactly when extraction or the comuna file fails or no comuna's station has an observation |
| Pipeline.CompleteDataUnchanged | temperaturas_rm.py:251-255 | with every temperature observed the result is the stage-2 series |
| Pipeline.PipelineKnnComplete | temperaturas_rm.py:255 | with the nearest-neighbour strategy the result has no missing temperature |
| Adjacency.NeighboursBefore | carga_comunas.py:28-31 | the inner loop up to m collects exactly the j < m other than i that touch i, in increasing order |
| Adjacency.Neighbours | carga_comunas.py:25-33 | `vecinas[i]` is exactly the j ≠ i below n that touch i, in increasing order, never i itself |
| Adjacency.DetectNeighbours | carga_comunas.py:22-35 | the double loop gives every comuna its neighbour list |
| Adjacency.MatrixOf | carga_comunas.py:39-44 | the matrix is n×n |
| Adjacency.AdjacencyMatrix | carga_comunas.py:37-46 | a fresh n×n array with 1 exactly at the listed neighbours and 0 elsewhere |
| Adjacency.MatrixEntries | carga_comunas.py:39-44 | an entry is 1 exactly when the two comunas differ and touch, every entry is 0 or 1, and the diagonal is 0 |
| Adjacency.MatrixSymmetric | carga_comunas.py:29-44 | a symmetric `touches` gives a symmetric matrix |
| Adjacency.RowEdgesBefore | carga_comunas.py:54-56 | the inner loop collects exactly the pairs of row i with a 1 before column j |
| Adjacency.EdgesBefore | carga_comunas.py:53-56 | the outer loop collects exactly the pairs with a 1 in the first i rows |
| Adjacency.Edges | carga_comunas.py:52-56 | the edge list holds exactly the pairs with a 1 |
| Adjacency.EdgeIndex | carga_comunas.py:52-56 | the nested loop over the array yields the edge list |
| Adjacency.RowEdgesOrdered | carga_comunas.py:54-56 | the pairs of one row are in increasing column order |
| Adjacency.EdgesOrdered | carga_comunas.py:53-56 | the edge list is in strict row-major order, hence without repeats |
| Adjacency.RowSumCountsEdges | carga_comunas.py:54-56 | the number of pairs of a 0/1 row is its sum |
| Adjacency.EdgeCount | carga_comunas.py:52-56 | the edge list is as long as the sum of the matrix |
| Adjacency.Degree | carga_comunas.py:65 | the row sum of comuna i is the length of its neighbour list |
| Adjacency.TotalsAgree | carga_comunas.py:115 | the matrix sum over the first i rows equals the neighbour-list lengths summed over the first i comunas |
| Adjacency.EdgesMatchConnections | carga_comunas.py:115 | the number of edges equals `total_conexiones`, the sum of the neighbour-list lengths |
| GnnTables.NatToString | carga_comunas.py:97 | the decimal rendering of an index is non-empty, made of digits, and starts with `0` only for the index 0, so it has no leading zeros |
| GnnTables.ParseNatToString | carga_comunas.py:97 | reading back the decimal rendering gives the index |
| GnnTables.AfterLastUnderscore | carga_comunas.py:97 | the text after the last underscore has no underscore |
| GnnTables.AfterLastUnderscoreOf | carga_comunas.py:97 | after `name_digits` the text after the last underscore is the digits |
| GnnTables.LabelIndex | carga_comunas.py:97 | the index can be read back from a label `name_i` |
| GnnTables.LabelsDistinct | carga_comunas.py:94-98 | labels of different indices differ, whatever the names |
| GnnTables.UniqueNames | carga_comunas.py:94-98 | the label loop gives `name_i` for every comuna, with no two labels equal |
| GnnTables.NodeFeatures | carga_comunas.py:60-82 | the node loop gives one feature row per comuna, read from the matrix |
| GnnTables.EdgeTable | carga_comunas.py:84-92 | one row per edge with both endpoints and their comuna names, and no rows when there is no edge |
| GnnTables.AdjacencyTable | carga_comunas.py:100-106 | the frame's columns are `comuna` followed by the labels, and row i is the label of i with matrix row i |
| GnnTables.BuildGnnTables | carga_comunas.py:110-118 | the chained steps yield the node, edge and adjacency tables and the connection count |
| GnnTables.GnnNodes | carga_comunas.py:60-82 | node i has id i, its comuna's name, and degree equal to the number of its neighbours |
| GnnTables.GnnEdgePair | carga_comunas.py:52-90 | the edge table has a row from i to j exactly when i and j are different comunas that touch |
| GnnTables.GnnEdges | carga_comunas.py:52-90 | the edge table has `total_conexiones` rows, is in strict row-major order, and lists exactly the touching pairs of different comunas |
| GnnTables.GnnNoEdges | carga_comunas.py:84-92 | with no comunas touching, the edge table is empty |
| GnnTables.GnnLabels | carga_comunas.py:94-106 | the adjacency frame has the `comuna` column and then n pairwise distinct labels |

## Left out

- `paso_1_extraer_datos_api` (temperaturas_rm.py:29-101) is HTTP requests and JSON parsing. The observation table is an input, `None` when extraction produced nothing. The string dates of lines 92-96 are supplied as `Date` records.
- Reading the comuna shapefile, the region filter, the reprojections and the centroid computation (temperaturas_rm.py:105-119) are geopandas calls. The comuna file is an input, `None` when reading failed, and the centroids are given as latitude/longitude pairs.
- The assignment table `asignaciones` (temperaturas_rm.py:150-151) is returned as `Assignment(comuna, code, stationName, kmSq)` records in place of the three-column frame. `RunPipeline` discards it, as the source does.
- `KnnFill.InterpolateKnn`: the `KNNImputer` call (temperaturas_rm.py:236-239) is a foreign computation. It is a parameter that returns one real per input row. Whether it keeps known values is a stated assumption (`KeepsObserved`) used only by `KnnKeepsKnown`.
- `StationAssignment.Assign`: the distance is kept as its square, `kmSq` = 111² × the squared degree distance, because `sqrt` is not modelled. The nearest station is the same, since the square root is monotone.
- `Sorting.SortBy`: `sort_values('Fecha')` uses an unstable quicksort, and the model uses a stable insertion sort. Rows with equal dates may be ordered differently.
- `Reconstruction.ToLower`: `str.lower()` is modelled on ASCII letters only. Unicode case mappings are left out.
- `Reconstruction.ReconstructKeepsKnown`, `LinearFill.LinearKeepsKnownInOrder` and `SeasonalFill.SeasonalKeepsKnownInOrder` require the comuna's rows to be in date order. The source writes the filled values back by position, and out of order a known value can move (`LinearFill.LinearOutOfOrderExample`).
- The extra columns `mes`, `dia_año` and `año` that `_interpolacion_estacional` adds to its result are not modelled. The month and day of year are derived from the row's date.
- The percentages and the reduction statistic (temperaturas_rm.py:160,174-175) are computed but never used, so they are left out, as are `print` calls and `warnings` settings.
- `cargar_shapefile_comunas` (carga_comunas.py:5-20) and `geometry.touches` (carga_comunas.py:30) are shapefile and shapely calls. `touches` is an uninterpreted predicate over comuna indices.
- `geometry.area` (carga_comunas.py:66) is given per comuna as data.
- The dictionary `comunas_vecinas` is modelled as a sequence indexed by comuna, since its keys are 0..n−1 in order.
- The dictionary of frames returned by `carga_comunas_gnn` and its `print` calls (carga_comunas.py:120-130) are left out. The three frames and `total_conexiones` are returned together.
- `numpy` float conversion of the node features (carga_comunas.py:71) is modelled as a conversion of integers to `real`, with no floating-point rounding.
- `ingestion.py` (database writes) and `atenciones_urgencia.py` (a parquet read and one filter) are input and output only, and are not part of this model.

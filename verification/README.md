# AsTypeFeatureGenerator, modelled in Dafny

This project models the type-enforcement stage of AutoGluon's tabular feature
pipeline, `AsTypeFeatureGenerator`. The stage has three jobs:

- **Fit.** It records the exact storage dtype of every in-scope column, such as
  `int16` rather than just 'int'. Fit returns the data unchanged, together with
  the inherited special type-group map.
- **Transform.** It first repairs integer features that now hold missing values:
  it fills them with 0 and logs two warning lines. It then casts every recorded
  column back to its recorded dtype. The cast is skipped when nothing was recorded.
- **Feature removal.** It drops names from the recorded state. Removing an empty
  set changes nothing.

Modules, one per concept:

- `Wrappers` (wrappers.dfy): `Option` and `Result`.
- `Frames` (frames.dfy): the values the stage works on.
  - `Cell` is `Null | IntV | FloatV | StrV`. Floats are opaque tokens.
  - `DType` lists the exact dtypes the model covers: the integer widths, the two
    float widths, object, bool, category and datetime64. `RawType` lists the
    coarse raw types, and `RawOf` maps each dtype to one.
  - A `Column` is a dtype plus its cells.
  - A `Frame` is the column order plus the columns by name.
  - `NullCount` models `isnull().sum()`, `FillNulls` models `fillna`, and
    `CastCells` casts one column value by value.
  - A `Caster` is the per-value conversion behind `astype`. It is passed in as a
    parameter, because pandas' conversion rules are not modelled.
- `Metadata` (metadata.dfy): the feature-metadata value, made generic as
  `FeatureMetadata<T, G>(typeMap, groups)`. The stage uses it twice:
  - the inherited metadata (feature → raw type, special group → features);
  - the fit-time snapshot (feature → exact dtype, raw type → features).
- `AsType` (astype.dfy): the stage.
  - The state is `Stage(metaIn, metaReal)`, where `metaReal` is `None` until fit.
  - The operations are `Fit`, `Repair`, `CastAll`, `Coerce`, `Transform` and
    `RemoveFeaturesIn`.
- `AsTypeProperties` (astype_properties.dfy): properties that span several
  operations, plus the train/serve scenario.

Notes on behaviour the model takes from the code:

- **Transform before fit.** The code has no explicit rejection. It would fail on
  a `None` attribute. The model states this as a precondition (`metaReal.Some?`)
  instead of a lifecycle error. Feature removal touches the snapshot only for a
  non-empty set, so `RemoveFeaturesIn` needs a fitted stage only then.
- **Cast failures.** The cast converts columns in frame order and raises from
  the first column whose conversion fails; it does not collect every failing
  column. The exception pandas raises usually does not name that column.
  `CastFailed(feature, dtype)` records which column raised, and `FailsFirstAt`
  states that no earlier column fails.
- **Missing snapshot columns.** A snapshot column that is absent at transform
  time makes the cast raise a KeyError, and so does an absent integer feature
  during repair. Columns that are not in the snapshot pass through without a cast.
- **Which features repair.** Repair selects integer features by the *inherited*
  raw types, not by the exact-dtype snapshot.

## Model

| member | source | states |
|---|---|---|
| AsType.Fit | autogluon/utils/tabular/features/generators/astype.py:49-52 | fit fails with the missing names exactly when an in-scope feature is absent; otherwise it returns the frame unchanged with the inherited special groups, and the snapshot has one entry per in-scope feature holding that column's exact dtype, filed under its inherited raw type and in no other group |
| AsTypeProperties.FitThenTransformIsIdentity | autogluon/utils/tabular/features/generators/astype.py:23-25 | on training data whose values already fit their dtypes, transforming after fit logs nothing and gives back exactly what fit returned |
| AsTypeProperties.ScenarioFit | autogluon/utils/tabular/features/generators/astype.py:49-52 | fitting on int64 `a` and float32 `b` records `a -> int64`, `b -> float32`, with `a` the only int feature |
| AsType.Repair | autogluon/utils/tabular/features/generators/astype.py:28-39 | fails exactly when an int feature is absent; otherwise non-int columns keep their nulls, each int column has each null turned into 0 with all other cells and its dtype kept and no null left, int columns without nulls are untouched, and the warning lines appear iff some int feature has a null and list exactly those features |
| Frames.NullCount | autogluon/utils/tabular/features/generators/astype.py:30 | the null count is at most the column length and is zero iff no cell is missing |
| Frames.FillNulls | autogluon/utils/tabular/features/generators/astype.py:39 | fillna keeps the length, replaces each missing cell by the fill value and keeps every other cell; a present fill value leaves no null, and a column without nulls comes back unchanged |
| AsTypeProperties.RepairWithoutNulls | autogluon/utils/tabular/features/generators/astype.py:29-33 | when every int feature is present and null-free, repair logs nothing and returns the frame unchanged |
| AsTypeProperties.RepairIsIdempotent | autogluon/utils/tabular/features/generators/astype.py:28-39 | repairing a repaired frame again logs nothing and changes nothing |
| AsTypeProperties.TransformWarnsAbout | autogluon/utils/tabular/features/generators/astype.py:31-38 | when the int features holding nulls form a non-empty set, transform logs the forced-imputation line followed by exactly that set |
| Frames.CastCells | autogluon/utils/tabular/features/generators/astype.py:42 | casting a column succeeds iff every value converts, and then yields the converted values position by position |
| AsType.CastAll | autogluon/utils/tabular/features/generators/astype.py:42 | the per-column cast over the frame order succeeds iff every snapshot column converts; on success it yields exactly those columns at their snapshot dtype; on failure the error names the first failing column in frame order and its target dtype |
| AsType.Coerce | autogluon/utils/tabular/features/generators/astype.py:40-42 | with an empty snapshot the frame is returned as is; otherwise an absent snapshot column always raises the KeyError, naming exactly the absent snapshot columns, before any conversion; it succeeds iff every snapshot column is present and converts, a cast error names the first failing column in frame order, and on success the order is kept, snapshot columns carry their snapshot dtype and converted values, and other columns are untouched |
| AsType.Transform | autogluon/utils/tabular/features/generators/astype.py:27-43 | repair then cast: warnings as repair logs them (also when the cast then fails); success iff int features and snapshot columns are present and every snapshot column's repaired values convert; each column ends as its repaired values cast to its snapshot dtype, or repaired and uncast outside the snapshot; with the int features present and a non-empty snapshot, an absent snapshot column raises the KeyError naming exactly the absent ones; with the int features and snapshot columns all present, any failure is a cast error; a cast error names the first snapshot column, in frame order, whose repaired values do not convert |
| AsTypeProperties.CoerceIsIdempotent | autogluon/utils/tabular/features/generators/astype.py:40-42 | for a cast that keeps fitting values and produces fitting values, casting an already cast frame again gives the same frame |
| AsTypeProperties.TransformIsIdempotent | autogluon/utils/tabular/features/generators/astype.py:27-43 | when int features are snapshotted at int dtypes (if at all), transforming a transform's output again logs nothing and returns that output |
| AsTypeProperties.RepairBeforeCoercion | autogluon/utils/tabular/features/generators/astype.py:39-42 | for an int column of ints and nulls with at least one null, casting without repair fails, while after repair that column can never be the cause of a transform failure |
| AsTypeProperties.TransformConformingIsIdentity | autogluon/utils/tabular/features/generators/astype.py:40-42 | data already at its snapshot dtypes with conforming values passes through transform unchanged with no warning |
| AsTypeProperties.ServeScenarioWarnings | autogluon/utils/tabular/features/generators/astype.py:36-38 | serving `a = [1, 2, null]` logs both warning lines, naming only `a` |
| AsTypeProperties.TransformTwoColumns | autogluon/utils/tabular/features/generators/astype.py:27-43 | on a two-column frame whose columns are both snapshotted, transform returns each column's repaired values as cast to its snapshot dtype, in the original order |
| AsTypeProperties.ServeScenarioOutput | autogluon/utils/tabular/features/generators/astype.py:39-42 | serving `a = [1, 2, null]`, `b` float32 yields `a = [1, 2, 0]` as int64 and `b` unchanged as float32 |
| AsTypeProperties.EmergentNullScenario | autogluon/utils/tabular/features/generators/astype.py:27-43 | after fitting on null-free int64 `a`, serving a null in `a` yields `[1, 2, 0]` at int64 with a warning naming `a`, and float32 `b` unchanged |
| AsType.RemoveFeaturesIn | autogluon/utils/tabular/features/generators/astype.py:54-57 | an empty set leaves the stage unchanged, fitted or not; otherwise the names leave the inherited type map and special groups and the snapshot's type map and groups, every other entry and every group key is kept, and a fitted stage stays fitted |
| AsTypeProperties.RemovedFeatureIsIgnored | autogluon/utils/tabular/features/generators/astype.py:54-57 | after a feature is removed, transform neither repairs nor casts it nor names it in a warning, and a failure is never a cast error on it nor a KeyError naming it |
| AsTypeProperties.RemovalKeepsStageConsistent | autogluon/utils/tabular/features/generators/astype.py:54-57 | removal from a fitted stage keeps it fitted, and no removed name remains in the inherited type map, any inherited special group, the snapshot or any snapshot group |
| Metadata.RemoveFeatures | autogluon/utils/tabular/features/generators/astype.py:57 | removal drops exactly the given names from the type map and from every group, and keeps every other entry and every group key |
| Metadata.GroupByTypePartitions | autogluon/utils/tabular/features/generators/astype.py:52 | grouping the inherited raw types by type puts every snapshotted feature in exactly one group and names no other feature |
| Metadata.RemovePreservesPartition | autogluon/utils/tabular/features/generators/astype.py:57 | removing features keeps the snapshot's groups a partition of its features |

## Left out

- Logging is not modelled as text. `print_feature_metadata_info` (lines 59-62) is
  left out entirely. The two `logger.warning` lines are modelled as two `Warning`
  values. The first line's wording and the order of names in the second are not
  modelled, so the second carries a set.
- `get_default_infer_features_in_args` (lines 45-47) is left out. It returns an
  empty argument dictionary for the pipeline base, which is not part of this model.
- The base class `AbstractFeatureGenerator`, `get_type_map_real` and the
  `FeatureMetadata` class are not part of this model. The base's scope inference
  appears as the `meta` argument of `Fit`. Its feature removal is modelled as
  key removal from the inherited metadata. `get_type_map_real` is modelled as
  reading each column's dtype.
- Coerce: a snapshot column missing from the frame yields `KeyNotFound` with the
  whole set of absent columns, while pandas' message names at most one column.
- Duplicate column labels are not modelled. pandas accepts them, but a frame here
  maps each label to one column, and `WellFormed` requires unique labels.
- pandas' value conversion is not modelled. This covers bit-width overflow,
  float-to-int truncation and string parsing. The `Caster` parameter stands in
  for it. Lemmas that need facts about the conversion take them as
  preconditions: `KeepsConforming`, `RejectsNullInt` and `AcceptsInts`.
  `AcceptsInts` asks only that an integer converts, wrapped around or not.
  `Conforms` does not bound an integer by its dtype's width, so
  `KeepsConforming` also asks that an out-of-range integer is kept as it is.
- Dtypes other than those in `DType` (timedelta, sparse, extension and string
  dtypes, and time-zone-aware datetimes) are not modelled. Object, category and
  datetime64 values are not modelled either: `Conforms` lets those dtypes hold
  any cell, so only the `Caster` parameter says what a cast to them does.
- Floating-point values are opaque tokens. The dtype a column has after
  `fillna(0)` is not modelled, so filling keeps the column's dtype field and
  writes `IntV(0)`.
- The code does not reject a second fit. `Fit` builds a fresh stage from the
  inherited metadata, so the model does not reject one either.
- In-place mutation of the caller's frame (line 39) is not modelled. Transform
  returns a new frame.
- The model does not cover concurrency. The code has no reader/writer
  discipline.
- The row-count invariant of a data frame is not modelled: every column having
  the same length. No property here depends on it.
- When removal empties a snapshot group, the group key is kept with an empty set.
  What `FeatureMetadata.remove_features` does with empty groups is not part of
  this model.

/**
  The type-enforcement stage (`AsTypeFeatureGenerator`). Fit records the exact
  dtype of every in-scope column; transform first repairs missing values that
  appear in integer features, then casts every recorded column to its recorded
  dtype; feature removal drops names from the recorded state.
 */
module AsType {
  import opened Wrappers
  import opened Frames
  import opened Metadata

  /** The inherited metadata: feature -> raw type, special group -> features. */
  type MetaIn = FeatureMetadata<RawType, string>

  /** The fit-time snapshot: feature -> exact dtype, raw type -> features. */
  type MetaReal = FeatureMetadata<DType, RawType>

  /** `metaReal` is `None` until fit has run. */
  datatype Stage = Stage(metaIn: MetaIn, metaReal: Option<MetaReal>)

  /** `KeyNotFound` is pandas' KeyError for absent columns; `CastFailed` is the
      error a dtype cast raises for a value it cannot convert. */
  datatype Error = KeyNotFound(missing: set<string>) | CastFailed(feature: string, target: DType)

  /** The two warning lines logged when integer features gain missing values. */
  datatype Warning = ForcedImputation | IntFeaturesWithNulls(features: set<string>)

  datatype FitResult = FitResult(stage: Stage, out: Frame, typeGroupMapSpecial: map<string, set<string>>)

  datatype Repaired = Repaired(frame: Frame, warnings: seq<Warning>)

  /** Warnings are logged before the cast, so they are part of a failed call too. */
  datatype TransformResult = TransformResult(warnings: seq<Warning>, out: Result<Frame, Error>)

  /** The features whose raw type is 'int'. */
  function IntFeatures(meta: MetaIn): set<string>
  {
    FeaturesOf(meta, RInt)
  }

  /** The exact-dtype map of a fitted stage. */
  function Snapshot(s: Stage): map<string, DType>
    requires s.metaReal.Some?
  {
    s.metaReal.value.typeMap
  }

  /** The state fit establishes: one snapshot entry per in-scope feature, and
      each snapshotted feature in exactly one raw-type group. */
  ghost predicate Fitted(s: Stage)
  {
    && s.metaReal.Some?
    && s.metaReal.value.typeMap.Keys == s.metaIn.typeMap.Keys
    && Partitioned(s.metaReal.value)
  }

  /** `groups` files every in-scope feature under its inherited raw type (with
      `Partitioned`, under that group only). */
  ghost predicate GroupedByRawType(groups: map<RawType, set<string>>, meta: MetaIn)
  {
    forall f :: f in meta.typeMap ==> meta.typeMap[f] in groups && f in groups[meta.typeMap[f]]
  }

  /** Fit (`_infer_features_in_full` followed by `_fit_transform`). */
  function Fit(meta: MetaIn, x: Frame): (r: Result<FitResult, Error>)
    ensures r.Success? <==> Features(meta) <= x.cols.Keys
    ensures r.Failure? ==> r.error == KeyNotFound(Features(meta) - x.cols.Keys)
    ensures r.Success? ==> r.value.out == x && r.value.typeGroupMapSpecial == meta.groups
    ensures r.Success? ==> r.value.stage.metaIn == meta && Fitted(r.value.stage)
    ensures r.Success? ==>
              forall f :: f in meta.typeMap ==> Snapshot(r.value.stage)[f] == x.cols[f].dtype
    ensures r.Success? ==> GroupedByRawType(r.value.stage.metaReal.value.groups, meta)
  {
    var features := Features(meta);
    if !(features <= x.cols.Keys) then Failure(KeyNotFound(features - x.cols.Keys))
    else
      var typeMapReal := map f | f in features :: x.cols[f].dtype;
      GroupByTypePartitions(meta.typeMap, typeMapReal);
      var metaReal := FeatureMetadata(typeMapReal, GroupByType(meta.typeMap));
      Success(FitResult(Stage(meta, Some(metaReal)), x, meta.groups))
  }

  /** The features of `fs` that hold at least one missing value. */
  function NullFeatures(x: Frame, fs: set<string>): set<string>
    requires fs <= x.cols.Keys
  {
    set f | f in fs && NullCount(x.cols[f].cells) != 0
  }

  /** `X[fs] = X[fs].fillna(v)`. */
  function FillNa(x: Frame, fs: set<string>, v: Cell): Frame
  {
    Frame(x.names, map f | f in x.cols ::
      if f in fs then Column(x.cols[f].dtype, FillNulls(x.cols[f].cells, v)) else x.cols[f])
  }

  /** `w` is what repair logs for integer features `ints` of `x`: nothing when no
      integer feature has a missing value, and otherwise the forced-imputation
      line followed by the list of exactly those features that have one. */
  ghost predicate NullWarning(w: seq<Warning>, ints: set<string>, x: Frame)
    requires ints <= x.cols.Keys
  {
    && (w != [] <==> exists f :: f in ints && NullCount(x.cols[f].cells) != 0)
    && (w != [] ==>
          && |w| == 2 && w[0] == ForcedImputation && w[1].IntFeaturesWithNulls?
          && forall f :: f in w[1].features <==> f in ints && NullCount(x.cols[f].cells) != 0)
  }

  /** Null-emergence repair: missing values in integer features become 0. */
  function Repair(meta: MetaIn, x: Frame): (r: Result<Repaired, Error>)
    ensures r.Failure? <==> !(IntFeatures(meta) <= x.cols.Keys)
    ensures r.Failure? ==> r.error == KeyNotFound(IntFeatures(meta) - x.cols.Keys)
    ensures r.Success? ==> NullWarning(r.value.warnings, IntFeatures(meta), x)
    ensures r.Success? ==> r.value.frame.names == x.names && r.value.frame.cols.Keys == x.cols.Keys
    ensures r.Success? ==>
              forall f :: f in x.cols && f !in IntFeatures(meta) ==> r.value.frame.cols[f] == x.cols[f]
    ensures r.Success? ==>
              forall f :: f in x.cols && f in IntFeatures(meta) ==>
                && r.value.frame.cols[f].dtype == x.cols[f].dtype
                && r.value.frame.cols[f].cells == FillNulls(x.cols[f].cells, IntV(0))
                && NullCount(r.value.frame.cols[f].cells) == 0
                && (NullCount(x.cols[f].cells) == 0 ==> r.value.frame.cols[f] == x.cols[f])
    ensures r.Success? ==>
              forall f :: f in x.cols ==>
                r.value.frame.cols[f] == Column(x.cols[f].dtype, RepairedCells(IntFeatures(meta), f, x.cols[f].cells))
  {
    var ints := IntFeatures(meta);
    if ints == {} then Success(Repaired(x, []))
    else if !(ints <= x.cols.Keys) then Failure(KeyNotFound(ints - x.cols.Keys))
    else
      var withNull := NullFeatures(x, ints);
      assert forall f :: f in ints && NullCount(x.cols[f].cells) != 0 ==> f in withNull;
      if withNull == {} then Success(Repaired(x, []))
      else
        FillNaRepairs(x, ints, withNull);
        Success(Repaired(FillNa(x, withNull, IntV(0)), [ForcedImputation, IntFeaturesWithNulls(withNull)]))
  }

  /** Filling the integer features that hold missing values leaves the column
      order, the other columns and every dtype as they were. */
  lemma FillNaRepairs(x: Frame, ints: set<string>, withNull: set<string>)
    requires ints <= x.cols.Keys
    requires withNull == NullFeatures(x, ints)
    ensures FillNa(x, withNull, IntV(0)).names == x.names
    ensures FillNa(x, withNull, IntV(0)).cols.Keys == x.cols.Keys
    ensures forall f :: f in x.cols ==>
              FillNa(x, withNull, IntV(0)).cols[f] == Column(x.cols[f].dtype, RepairedCells(ints, f, x.cols[f].cells))
  {
  }

  /** Some element of `a` is missing from `b` exactly when `a` is not a subset of `b`. */
  lemma MissingWhenNotSubset<X>(a: set<X>, b: set<X>)
    ensures a - b != {} <==> !(a <= b)
  {
    if !(a <= b) {
      var x :| x in a && x !in b;
      assert x in a - b;
    }
  }

  /** Column `f` of `cols` can be cast to its snapshot dtype, or is not cast at all. */
  ghost predicate Castable(cols: map<string, Column>, snap: map<string, DType>, cast: Caster, f: string)
  {
    f in snap && f in cols ==> CastCells(cols[f].cells, snap[f], cast).Some?
  }

  /** `names[i]` is the first column, in order, whose cast fails. */
  ghost predicate FailsFirstAt(names: seq<string>, cols: map<string, Column>, snap: map<string, DType>, cast: Caster, i: int)
  {
    && 0 <= i < |names|
    && names[i] in snap && names[i] in cols
    && CastCells(cols[names[i]].cells, snap[names[i]], cast).None?
    && forall j :: 0 <= j < i ==> Castable(cols, snap, cast, names[j])
  }

  /** Casts the listed columns that the snapshot covers, in order, stopping at
      the first failure; on success returns the cast columns only. */
  function CastAll(names: seq<string>, cols: map<string, Column>, snap: map<string, DType>, cast: Caster)
    : (r: Result<map<string, Column>, Error>)
    ensures r.Success? <==> forall i :: 0 <= i < |names| ==> Castable(cols, snap, cast, names[i])
    ensures r.Success? ==> forall f :: f in r.value <==> f in names && f in snap && f in cols
    ensures r.Success? ==>
              forall f :: f in r.value ==>
                && f in snap && f in cols && r.value[f].dtype == snap[f]
                && CastCells(cols[f].cells, snap[f], cast) == Some(r.value[f].cells)
    ensures r.Failure? ==>
              exists i :: FailsFirstAt(names, cols, snap, cast, i) && r.error == CastFailed(names[i], snap[names[i]])
  {
    if names == [] then Success(map[])
    else
      var f := names[0];
      var rest := CastAll(names[1..], cols, snap, cast);
      if f in snap && f in cols then
        match CastCells(cols[f].cells, snap[f], cast)
        case None => Failure(CastFailed(f, snap[f]))
        case Some(cs) =>
          if rest.Failure? then Failure(rest.error)
          else Success(rest.value[f := Column(snap[f], cs)])
      else rest
  }

  /** Column `f` went from `before` to `after` under the snapshot: cast value by
      value to its snapshot dtype when the snapshot has it, untouched otherwise. */
  ghost predicate Settled(before: Column, snap: map<string, DType>, f: string, cast: Caster, after: Column)
  {
    if f in snap then after.dtype == snap[f] && CastCells(before.cells, snap[f], cast) == Some(after.cells)
    else after == before
  }

  /** Exact coercion (`X.astype(type_map_raw)`), skipped when the snapshot is empty. */
  function Coerce(snap: map<string, DType>, x: Frame, cast: Caster): (r: Result<Frame, Error>)
    requires WellFormed(x)
    ensures |snap| == 0 ==> r == Success(x)
    ensures r.Success? <==>
              || |snap| == 0
              || (&& snap.Keys <= x.cols.Keys
                  && forall f :: f in snap ==> CastCells(x.cols[f].cells, snap[f], cast).Some?)
    ensures |snap| != 0 && !(snap.Keys <= x.cols.Keys) ==> r == Failure(KeyNotFound(snap.Keys - x.cols.Keys))
    ensures r.Failure? && r.error.KeyNotFound? ==>
              r.error.missing == snap.Keys - x.cols.Keys && r.error.missing != {}
    ensures r.Failure? && r.error.CastFailed? ==>
              exists i :: FailsFirstAt(x.names, x.cols, snap, cast, i) && r.error == CastFailed(x.names[i], snap[x.names[i]])
    ensures r.Success? ==> WellFormed(r.value) && r.value.names == x.names && r.value.cols.Keys == x.cols.Keys
    ensures r.Success? ==> forall f :: f in x.cols ==> Settled(x.cols[f], snap, f, cast, r.value.cols[f])
  {
    if |snap| == 0 then Success(x)
    else if !(snap.Keys <= x.cols.Keys) then
      MissingWhenNotSubset(snap.Keys, x.cols.Keys);
      Failure(KeyNotFound(snap.Keys - x.cols.Keys))
    else
      CastableByName(x, snap, cast);
      match CastAll(x.names, x.cols, snap, cast)
      case Failure(e) => Failure(e)
      case Success(m) =>
        MergeCastColumns(x, snap, cast, m);
        Success(Frame(x.names, x.cols + m))
  }

  /** Overwriting the snapshot columns of a well-formed frame with their cast
      versions keeps it well-formed and settles every column. */
  lemma MergeCastColumns(x: Frame, snap: map<string, DType>, cast: Caster, m: map<string, Column>)
    requires WellFormed(x)
    requires forall f :: f in m <==> f in x.names && f in snap && f in x.cols
    requires forall f :: f in m ==>
               && f in snap && f in x.cols && m[f].dtype == snap[f]
               && CastCells(x.cols[f].cells, snap[f], cast) == Some(m[f].cells)
    ensures (x.cols + m).Keys == x.cols.Keys
    ensures WellFormed(Frame(x.names, x.cols + m))
    ensures forall f :: f in x.cols ==> Settled(x.cols[f], snap, f, cast, (x.cols + m)[f])
  {
  }

  /** In a well-formed frame, every listed column is castable exactly when every
      snapshot column is. */
  lemma CastableByName(x: Frame, snap: map<string, DType>, cast: Caster)
    requires WellFormed(x)
    requires snap.Keys <= x.cols.Keys
    ensures (forall i :: 0 <= i < |x.names| ==> Castable(x.cols, snap, cast, x.names[i]))
            <==> (forall f :: f in snap ==> CastCells(x.cols[f].cells, snap[f], cast).Some?)
  {
    if forall i :: 0 <= i < |x.names| ==> Castable(x.cols, snap, cast, x.names[i]) {
      forall f | f in snap
        ensures CastCells(x.cols[f].cells, snap[f], cast).Some?
      {
        var i :| 0 <= i < |x.names| && x.names[i] == f;
        assert Castable(x.cols, snap, cast, x.names[i]);
      }
    }
  }

  /** The cells of column `f` after repair: filled with 0 for an integer feature. */
  function RepairedCells(ints: set<string>, f: string, cells: seq<Cell>): seq<Cell>
  {
    if f in ints then FillNulls(cells, IntV(0)) else cells
  }

  /** The frame repair leaves behind for integer features `ints` of `x`. */
  function RepairedFrame(ints: set<string>, x: Frame): Frame
  {
    Frame(x.names, map f | f in x.cols :: Column(x.cols[f].dtype, RepairedCells(ints, f, x.cols[f].cells)))
  }

  /** Transform: repair, then coerce. */
  function Transform(s: Stage, x: Frame, cast: Caster): (r: TransformResult)
    requires s.metaReal.Some?
    requires WellFormed(x)
    ensures !(IntFeatures(s.metaIn) <= x.cols.Keys) ==>
              r == TransformResult([], Failure(KeyNotFound(IntFeatures(s.metaIn) - x.cols.Keys)))
    ensures IntFeatures(s.metaIn) <= x.cols.Keys ==> NullWarning(r.warnings, IntFeatures(s.metaIn), x)
    ensures r.out.Success? <==>
              && IntFeatures(s.metaIn) <= x.cols.Keys
              && (|| |Snapshot(s)| == 0
                  || (&& Snapshot(s).Keys <= x.cols.Keys
                      && forall f :: f in Snapshot(s) ==>
                           CastCells(RepairedCells(IntFeatures(s.metaIn), f, x.cols[f].cells), Snapshot(s)[f], cast).Some?))
    ensures IntFeatures(s.metaIn) <= x.cols.Keys && |Snapshot(s)| != 0 && !(Snapshot(s).Keys <= x.cols.Keys) ==>
              r.out == Failure(KeyNotFound(Snapshot(s).Keys - x.cols.Keys))
    ensures IntFeatures(s.metaIn) <= x.cols.Keys && Snapshot(s).Keys <= x.cols.Keys && r.out.Failure? ==>
              r.out.error.CastFailed?
    ensures r.out.Success? ==> WellFormed(r.out.value) && r.out.value.names == x.names && r.out.value.cols.Keys == x.cols.Keys
    ensures r.out.Success? ==>
              forall f :: f in x.cols ==>
                Settled(Column(x.cols[f].dtype, RepairedCells(IntFeatures(s.metaIn), f, x.cols[f].cells)),
                        Snapshot(s), f, cast, r.out.value.cols[f])
    ensures r.out.Failure? && r.out.error.CastFailed? ==>
              && r.out.error.feature in Snapshot(s) && r.out.error.feature in x.cols
              && r.out.error.target == Snapshot(s)[r.out.error.feature]
              && CastCells(RepairedCells(IntFeatures(s.metaIn), r.out.error.feature, x.cols[r.out.error.feature].cells),
                           r.out.error.target, cast).None?
    ensures r.out.Failure? && r.out.error.CastFailed? ==>
              exists i :: && FailsFirstAt(x.names, RepairedFrame(IntFeatures(s.metaIn), x).cols, Snapshot(s), cast, i)
                          && r.out.error == CastFailed(x.names[i], Snapshot(s)[x.names[i]])
  {
    match Repair(s.metaIn, x)
    case Failure(e) => TransformResult([], Failure(e))
    case Success(rep) =>
      assert rep.frame == RepairedFrame(IntFeatures(s.metaIn), x);
      TransformResult(rep.warnings, Coerce(Snapshot(s), rep.frame, cast))
  }

  /** Feature removal (`_remove_features_in`): the inherited metadata always drops
      the names, the snapshot only when the set is non-empty. */
  function RemoveFeaturesIn(s: Stage, fs: set<string>): (r: Stage)
    requires fs != {} ==> s.metaReal.Some?
    ensures fs == {} ==> r == s
    ensures r.metaReal.Some? <==> s.metaReal.Some?
    ensures Features(r.metaIn) == Features(s.metaIn) - fs
    ensures forall f :: f in r.metaIn.typeMap ==> r.metaIn.typeMap[f] == s.metaIn.typeMap[f]
    ensures r.metaIn.groups.Keys == s.metaIn.groups.Keys
    ensures forall g :: g in r.metaIn.groups ==> r.metaIn.groups[g] == s.metaIn.groups[g] - fs
    ensures s.metaReal.Some? ==>
              && Snapshot(r).Keys == Snapshot(s).Keys - fs
              && (forall f :: f in Snapshot(r) ==> Snapshot(r)[f] == Snapshot(s)[f])
              && r.metaReal.value.groups.Keys == s.metaReal.value.groups.Keys
              && (forall g :: g in r.metaReal.value.groups ==>
                    r.metaReal.value.groups[g] == s.metaReal.value.groups[g] - fs)
    ensures Fitted(s) ==> Fitted(r)
  {
    var metaIn := RemoveFeatures(s.metaIn, fs);
    if fs != {} then
      RemovePreservesPartition(s.metaReal.value, fs);
      Stage(metaIn, Some(RemoveFeatures(s.metaReal.value, fs)))
    else
      RemoveNothing(s.metaIn);
      Stage(metaIn, s.metaReal)
  }
}

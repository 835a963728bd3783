/**
  Properties of the type-enforcement stage that relate several operations:
  fit followed by transform on conforming data, why repair must precede the
  cast, removal of features, and the train/serve scenario with an emergent
  missing value.
 */
module AsTypeProperties {
  import opened Wrappers
  import opened Frames
  import opened Metadata
  import opened AsType

  /** The inherited raw type of every in-scope feature is the raw type of its column's dtype. */
  ghost predicate RawAgrees(meta: MetaIn, x: Frame)
  {
    forall f :: f in meta.typeMap && f in x.cols ==> meta.typeMap[f] == RawOf(x.cols[f].dtype)
  }

  /** Every column holds only values its own dtype can hold. */
  ghost predicate ConformsToDTypes(x: Frame)
  {
    forall f, k :: f in x.cols && 0 <= k < |x.cols[f].cells| ==> Conforms(x.cols[f].cells[k], x.cols[f].dtype)
  }

  /** A cast to an integer dtype converts every integer (an out-of-range one may
      wrap around, but the cast does not raise). */
  ghost predicate AcceptsInts(cast: Caster)
  {
    forall i, d :: RawOf(d) == RInt ==> cast(IntV(i), d).Some?
  }

  /** Transforming data whose columns already have their snapshot dtypes, hold
      only values those dtypes can hold, and have an integer dtype wherever the
      inherited raw type is 'int', logs nothing and returns the data unchanged. */
  lemma TransformConformingIsIdentity(s: Stage, x: Frame, cast: Caster)
    requires s.metaReal.Some?
    requires WellFormed(x)
    requires forall f :: f in Snapshot(s) ==> f in x.cols && Snapshot(s)[f] == x.cols[f].dtype
    requires forall f :: f in IntFeatures(s.metaIn) ==> f in x.cols && RawOf(x.cols[f].dtype) == RInt
    requires ConformsToDTypes(x)
    requires KeepsConforming(cast)
    ensures Transform(s, x, cast) == TransformResult([], Success(x))
  {
    var ints := IntFeatures(s.metaIn);
    var snap := Snapshot(s);
    forall f | f in ints
      ensures NullCount(x.cols[f].cells) == 0
    {
      forall k | 0 <= k < |x.cols[f].cells|
        ensures !x.cols[f].cells[k].Null?
      {
        assert Conforms(x.cols[f].cells[k], x.cols[f].dtype);
      }
    }
    forall f | f in x.cols
      ensures RepairedCells(ints, f, x.cols[f].cells) == x.cols[f].cells
      ensures CastCells(x.cols[f].cells, x.cols[f].dtype, cast) == Some(x.cols[f].cells)
    {
      CastConforming(x.cols[f].cells, x.cols[f].dtype, cast);
    }
    var r := Transform(s, x, cast);
    assert r.warnings == [];
    assert r.out.Success?;
    forall f | f in x.cols
      ensures r.out.value.cols[f] == x.cols[f]
    {
      assert Settled(x.cols[f], snap, f, cast, r.out.value.cols[f]);
    }
    assert r.out.value.cols == x.cols;
  }

  /** Transforming the very data the stage was fitted on, when that data already
      conforms to its dtypes, logs nothing and returns the data unchanged. */
  lemma FitThenTransformIsIdentity(meta: MetaIn, x: Frame, cast: Caster)
    requires WellFormed(x)
    requires Fit(meta, x).Success?
    requires RawAgrees(meta, x)
    requires ConformsToDTypes(x)
    requires KeepsConforming(cast)
    ensures Transform(Fit(meta, x).value.stage, x, cast) == TransformResult([], Success(x))
  {
    var s := Fit(meta, x).value.stage;
    assert forall f :: f in IntFeatures(s.metaIn) ==> f in meta.typeMap && meta.typeMap[f] == RInt;
    TransformConformingIsIdentity(s, x, cast);
  }

  /** A cast whose every result fits its target dtype. */
  ghost predicate ProducesConforming(cast: Caster)
  {
    forall c, d :: cast(c, d).Some? ==> Conforms(cast(c, d).value, d)
  }

  /** Repair of a frame whose integer features are all present and free of
      missing values logs nothing and changes nothing. */
  lemma RepairWithoutNulls(meta: MetaIn, x: Frame)
    requires IntFeatures(meta) <= x.cols.Keys
    requires forall f :: f in IntFeatures(meta) ==> NullCount(x.cols[f].cells) == 0
    ensures Repair(meta, x) == Success(Repaired(x, []))
  {
    var r := Repair(meta, x);
    assert r.value.warnings == [];
    assert forall f :: f in x.cols ==> r.value.frame.cols[f] == x.cols[f];
    assert r.value.frame.cols == x.cols;
  }

  /** Repair is idempotent: repairing a repaired frame logs nothing and changes nothing. */
  lemma RepairIsIdempotent(meta: MetaIn, x: Frame)
    requires Repair(meta, x).Success?
    ensures Repair(meta, Repair(meta, x).value.frame) == Success(Repaired(Repair(meta, x).value.frame, []))
  {
    RepairWithoutNulls(meta, Repair(meta, x).value.frame);
  }

  /** The values a cast produces fit the target dtype. */
  lemma CastResultsConform(cells: seq<Cell>, d: DType, cast: Caster)
    requires ProducesConforming(cast)
    requires CastCells(cells, d, cast).Some?
    ensures forall k :: 0 <= k < |CastCells(cells, d, cast).value| ==> Conforms(CastCells(cells, d, cast).value[k], d)
  {
    var r := CastCells(cells, d, cast).value;
    forall k | 0 <= k < |r|
      ensures Conforms(r[k], d)
    {
      assert cast(cells[k], d) == Some(r[k]);
    }
  }

  /** Coercion is idempotent: casting an already cast frame again gives the same frame. */
  lemma CoerceIsIdempotent(snap: map<string, DType>, x: Frame, cast: Caster)
    requires WellFormed(x)
    requires Coerce(snap, x, cast).Success?
    requires KeepsConforming(cast) && ProducesConforming(cast)
    ensures Coerce(snap, Coerce(snap, x, cast).value, cast) == Coerce(snap, x, cast)
  {
    var y := Coerce(snap, x, cast).value;
    if |snap| > 0 {
      forall f | f in snap
        ensures CastCells(y.cols[f].cells, snap[f], cast) == Some(y.cols[f].cells)
      {
        assert Settled(x.cols[f], snap, f, cast, y.cols[f]);
        CastResultsConform(x.cols[f].cells, snap[f], cast);
        CastConforming(y.cols[f].cells, snap[f], cast);
      }
      var z := Coerce(snap, y, cast);
      assert z.Success?;
      forall f | f in y.cols
        ensures z.value.cols[f] == y.cols[f]
      {
        assert Settled(y.cols[f], snap, f, cast, z.value.cols[f]);
      }
      assert z.value.cols == y.cols;
    }
  }

  /** Transform is idempotent for a stage whose integer features are snapshotted,
      if at all, at integer dtypes: transforming its output again logs nothing
      and gives the same frame. */
  lemma TransformIsIdempotent(s: Stage, x: Frame, cast: Caster)
    requires s.metaReal.Some?
    requires WellFormed(x)
    requires Transform(s, x, cast).out.Success?
    requires forall f :: f in IntFeatures(s.metaIn) && f in Snapshot(s) ==> RawOf(Snapshot(s)[f]) == RInt
    requires KeepsConforming(cast) && ProducesConforming(cast)
    ensures Transform(s, Transform(s, x, cast).out.value, cast) == TransformResult([], Transform(s, x, cast).out)
  {
    var snap := Snapshot(s);
    var rep := Repair(s.metaIn, x).value.frame;
    var y := Transform(s, x, cast).out.value;
    assert Coerce(snap, rep, cast) == Success(y);
    TransformedIntsHaveNoNulls(s, x, cast);
    RepairWithoutNulls(s.metaIn, y);
    CoerceIsIdempotent(snap, rep, cast);
  }

  /** After a successful transform, no integer feature holds a missing value:
      repair filled them, and a cast to an integer dtype produces no null. */
  lemma TransformedIntsHaveNoNulls(s: Stage, x: Frame, cast: Caster)
    requires s.metaReal.Some?
    requires WellFormed(x)
    requires Transform(s, x, cast).out.Success?
    requires forall f :: f in IntFeatures(s.metaIn) && f in Snapshot(s) ==> RawOf(Snapshot(s)[f]) == RInt
    requires ProducesConforming(cast)
    ensures forall f :: f in IntFeatures(s.metaIn) ==>
              f in Transform(s, x, cast).out.value.cols && NullCount(Transform(s, x, cast).out.value.cols[f].cells) == 0
  {
    var ints := IntFeatures(s.metaIn);
    var snap := Snapshot(s);
    var y := Transform(s, x, cast).out.value;
    forall f | f in ints
      ensures f in y.cols && NullCount(y.cols[f].cells) == 0
    {
      var before := Column(x.cols[f].dtype, RepairedCells(ints, f, x.cols[f].cells));
      assert Settled(before, snap, f, cast, y.cols[f]);
      if f in snap {
        CastResultsConform(before.cells, snap[f], cast);
        forall k | 0 <= k < |y.cols[f].cells|
          ensures !y.cols[f].cells[k].Null?
        {
          assert Conforms(y.cols[f].cells[k], snap[f]);
        }
      }
    }
  }

  /** Why repair comes first: an integer feature with a missing value makes the
      cast alone fail, while after repair that feature can no longer be the
      reason the transform fails. */
  lemma RepairBeforeCoercion(s: Stage, x: Frame, cast: Caster, f: string)
    requires s.metaReal.Some?
    requires WellFormed(x)
    requires f in IntFeatures(s.metaIn) && f in Snapshot(s) && f in x.cols
    requires RawOf(Snapshot(s)[f]) == RInt
    requires forall k :: 0 <= k < |x.cols[f].cells| ==> x.cols[f].cells[k].IntV? || x.cols[f].cells[k].Null?
    requires NullCount(x.cols[f].cells) != 0
    requires AcceptsInts(cast) && RejectsNullInt(cast)
    ensures Coerce(Snapshot(s), x, cast).Failure?
    ensures Transform(s, x, cast).out.Failure? ==> Transform(s, x, cast).out.error != CastFailed(f, Snapshot(s)[f])
  {
    var cells := x.cols[f].cells;
    var d := Snapshot(s)[f];
    var k :| 0 <= k < |cells| && cells[k].Null?;
    assert cast(cells[k], d).None?;
    var repaired := FillNulls(cells, IntV(0));
    forall j | 0 <= j < |repaired|
      ensures cast(repaired[j], d).Some?
    {
      assert repaired[j].IntV?;
      assert cast(IntV(repaired[j].i), d).Some?;
    }
    assert CastCells(RepairedCells(IntFeatures(s.metaIn), f, cells), d, cast).Some?;
  }

  /** A removed feature is ignored by later transforms: never repaired, never
      cast, never named in a warning, and never the cause of a failure. */
  lemma RemovedFeatureIsIgnored(s: Stage, fs: set<string>, x: Frame, cast: Caster, f: string)
    requires s.metaReal.Some?
    requires WellFormed(x)
    requires f in fs && f in x.cols
    ensures var r := Transform(RemoveFeaturesIn(s, fs), x, cast);
            && (r.out.Success? ==> r.out.value.cols[f] == x.cols[f])
            && (r.warnings != [] ==> f !in r.warnings[1].features)
            && (r.out.Failure? ==>
                  && (r.out.error.CastFailed? ==> r.out.error.feature != f)
                  && (r.out.error.KeyNotFound? ==> f !in r.out.error.missing))
  {
    var s' := RemoveFeaturesIn(s, fs);
    assert f !in IntFeatures(s'.metaIn);
    assert f !in Snapshot(s');
  }

  /** Removing features from a fitted stage keeps it fitted and removes the names
      from the inherited type map and special groups, the snapshot and every
      snapshot group. */
  lemma RemovalKeepsStageConsistent(s: Stage, fs: set<string>)
    requires Fitted(s)
    ensures var r := RemoveFeaturesIn(s, fs);
            && Fitted(r)
            && Features(r.metaIn) !! fs && Snapshot(r).Keys !! fs
            && (forall g, f :: g in r.metaIn.groups && f in r.metaIn.groups[g] ==> f !in fs)
            && forall g, f :: g in r.metaReal.value.groups && f in r.metaReal.value.groups[g] ==> f !in fs
  {
  }

  /** Inherited metadata of the train/serve scenario: `a` is 'int', `b` is 'float'. */
  const ScenarioMeta: MetaIn := FeatureMetadata(map["a" := RInt, "b" := RFloat], map[])

  /** Training data: `a` is int64, `b` is float32, no missing values. */
  const TrainFrame: Frame := Frame(["a", "b"], map[
    "a" := Column(Int64, [IntV(1), IntV(2), IntV(3)]),
    "b" := Column(Float32, [FloatV("1.0"), FloatV("2.0"), FloatV("3.0")])])

  /** Serving data: `a` now holds a missing value. pandas would usually hand such
      a column over as float64 holding NaN; float values are opaque tokens here,
      so the scenario keeps `a`'s integers as `IntV` cells in an object column. */
  const ServeFrame: Frame := Frame(["a", "b"], map[
    "a" := Column(Object, [IntV(1), IntV(2), Null]),
    "b" := Column(Float32, [FloatV("4.0"), FloatV("5.0"), FloatV("6.0")])])

  /** Fitting on the training data records `a -> int64` and `b -> float32`. */
  lemma ScenarioFit()
    ensures Fit(ScenarioMeta, TrainFrame).Success?
    ensures Snapshot(Fit(ScenarioMeta, TrainFrame).value.stage) == map["a" := Int64, "b" := Float32]
    ensures IntFeatures(Fit(ScenarioMeta, TrainFrame).value.stage.metaIn) == {"a"}
  {
    assert Features(ScenarioMeta) == {"a", "b"} == TrainFrame.cols.Keys;
    var r := Fit(ScenarioMeta, TrainFrame);
    var snap := Snapshot(r.value.stage);
    assert snap == map["a" := Int64, "b" := Float32] by {
      assert snap.Keys == {"a", "b"};
      assert snap["a"] == Int64 && snap["b"] == Float32;
    }
    assert IntFeatures(r.value.stage.metaIn) == {"a"} by {
      assert "a" in IntFeatures(ScenarioMeta) && "b" !in IntFeatures(ScenarioMeta);
    }
  }

  /** A map with exactly two keys is the display of those two entries. */
  lemma TwoColumns(m: map<string, Column>, a: string, b: string)
    requires a != b && m.Keys == {a, b}
    ensures m == map[a := m[a], b := m[b]]
  {
  }

  /** A serving frame shaped like `ServeFrame`: `a` holds a missing value. */
  ghost predicate ServeShaped(x: Frame)
  {
    && x.names == ["a", "b"] && x.cols.Keys == {"a", "b"}
    && x.cols["a"] == Column(Object, [IntV(1), IntV(2), Null])
    && x.cols["b"] == Column(Float32, [FloatV("4.0"), FloatV("5.0"), FloatV("6.0")])
  }

  /** A stage fitted like the scenario's: `a -> int64`, `b -> float32`, and `a`
      is the only 'int' feature. */
  ghost predicate ScenarioStage(s: Stage)
  {
    && s.metaReal.Some?
    && Snapshot(s) == map["a" := Int64, "b" := Float32]
    && IntFeatures(s.metaIn) == {"a"}
  }

  /** Transform logs both warning lines, naming the set `names`, exactly when
      `names` is the non-empty set of integer features holding a missing value. */
  lemma TransformWarnsAbout(s: Stage, x: Frame, cast: Caster, names: set<string>)
    requires s.metaReal.Some?
    requires WellFormed(x)
    requires IntFeatures(s.metaIn) <= x.cols.Keys
    requires names != {} && names <= IntFeatures(s.metaIn)
    requires forall f :: f in IntFeatures(s.metaIn) ==> (f in names <==> NullCount(x.cols[f].cells) != 0)
    ensures Transform(s, x, cast).warnings == [ForcedImputation, IntFeaturesWithNulls(names)]
  {
    WarningNames(Transform(s, x, cast).warnings, IntFeatures(s.metaIn), x, names);
  }

  /** The warning lines repair logs are determined by the set of integer
      features holding a missing value. */
  lemma WarningNames(w: seq<Warning>, ints: set<string>, x: Frame, names: set<string>)
    requires ints <= x.cols.Keys
    requires NullWarning(w, ints, x)
    requires names != {} && names <= ints
    requires forall f :: f in ints ==> (f in names <==> NullCount(x.cols[f].cells) != 0)
    ensures w == [ForcedImputation, IntFeaturesWithNulls(names)]
  {
    var f :| f in names;
    assert w != [];
    assert forall g :: g in w[1].features <==> g in names;
    assert w[1].features == names;
  }

  /** Serving such a frame logs both warning lines, naming only `a`. */
  lemma ServeScenarioWarnings(s: Stage, x: Frame, cast: Caster)
    requires ScenarioStage(s) && ServeShaped(x)
    ensures WellFormed(x)
    ensures Transform(s, x, cast).warnings == [ForcedImputation, IntFeaturesWithNulls({"a"})]
  {
    assert WellFormed(x);
    assert NullCount(x.cols["a"].cells) != 0;
    TransformWarnsAbout(s, x, cast, {"a"});
  }

  /** In such a frame, the repaired values of both snapshot columns cast: `a`
      to its filled integers, `b` to itself. */
  lemma ServeScenarioCasts(s: Stage, x: Frame, cast: Caster)
    requires ScenarioStage(s) && ServeShaped(x)
    requires KeepsConforming(cast)
    ensures CastCells(RepairedCells(IntFeatures(s.metaIn), "a", x.cols["a"].cells), Int64, cast)
              == Some([IntV(1), IntV(2), IntV(0)])
    ensures CastCells(RepairedCells(IntFeatures(s.metaIn), "b", x.cols["b"].cells), Float32, cast)
              == Some(x.cols["b"].cells)
  {
    var ints := IntFeatures(s.metaIn);
    var aCells := x.cols["a"].cells;
    var bCells := x.cols["b"].cells;
    var filled := FillNulls(aCells, IntV(0));
    assert filled == [IntV(1), IntV(2), IntV(0)];
    CastConforming(filled, Int64, cast);
    CastConforming(bCells, Float32, cast);
    assert RepairedCells(ints, "a", aCells) == filled;
    assert RepairedCells(ints, "b", bCells) == bCells;
  }

  /** On a two-column frame whose columns are both in the snapshot, transform
      returns the two columns' repaired values as cast to their snapshot dtypes. */
  lemma TransformTwoColumns(s: Stage, x: Frame, cast: Caster, a: string, b: string, ca: seq<Cell>, cb: seq<Cell>)
    requires s.metaReal.Some?
    requires a != b && x.names == [a, b] && x.cols.Keys == {a, b}
    requires IntFeatures(s.metaIn) <= {a, b} && Snapshot(s).Keys == {a, b}
    requires CastCells(RepairedCells(IntFeatures(s.metaIn), a, x.cols[a].cells), Snapshot(s)[a], cast) == Some(ca)
    requires CastCells(RepairedCells(IntFeatures(s.metaIn), b, x.cols[b].cells), Snapshot(s)[b], cast) == Some(cb)
    ensures WellFormed(x)
    ensures Transform(s, x, cast).out == Success(Frame([a, b], map[a := Column(Snapshot(s)[a], ca), b := Column(Snapshot(s)[b], cb)]))
  {
    assert WellFormed(x);
    var snap := Snapshot(s);
    var ints := IntFeatures(s.metaIn);
    forall f | f in snap
      ensures CastCells(RepairedCells(ints, f, x.cols[f].cells), snap[f], cast).Some?
    {
      assert f == a || f == b;
    }
    var out := Transform(s, x, cast).out.value;
    assert out.cols[a] == Column(snap[a], ca);
    assert out.cols[b] == Column(snap[b], cb);
    TwoColumns(out.cols, a, b);
  }

  /** Serving such a frame fills the missing `a` with 0, casts `a` back to int64
      and keeps `b` as float32. */
  lemma ServeScenarioOutput(s: Stage, x: Frame, cast: Caster)
    requires ScenarioStage(s) && ServeShaped(x)
    requires KeepsConforming(cast)
    ensures WellFormed(x)
    ensures Transform(s, x, cast).out == Success(Frame(["a", "b"], map[
              "a" := Column(Int64, [IntV(1), IntV(2), IntV(0)]),
              "b" := Column(Float32, [FloatV("4.0"), FloatV("5.0"), FloatV("6.0")])]))
  {
    ServeScenarioCasts(s, x, cast);
    TransformTwoColumns(s, x, cast, "a", "b", [IntV(1), IntV(2), IntV(0)], x.cols["b"].cells);
  }

  /** Serving after the scenario's fit turns the missing `a` into 0, casts `a`
      back to int64, keeps `b` as float32, and logs both warning lines naming
      only `a`. */
  lemma EmergentNullScenario(cast: Caster)
    requires KeepsConforming(cast)
    ensures
      var r := Transform(Fit(ScenarioMeta, TrainFrame).value.stage, ServeFrame, cast);
      && r.warnings == [ForcedImputation, IntFeaturesWithNulls({"a"})]
      && r.out == Success(Frame(["a", "b"], map[
           "a" := Column(Int64, [IntV(1), IntV(2), IntV(0)]),
           "b" := Column(Float32, [FloatV("4.0"), FloatV("5.0"), FloatV("6.0")])]))
  {
    ScenarioFit();
    var s := Fit(ScenarioMeta, TrainFrame).value.stage;
    assert ScenarioStage(s) && ServeShaped(ServeFrame);
    ServeScenarioWarnings(s, ServeFrame, cast);
    ServeScenarioOutput(s, ServeFrame, cast);
  }
}

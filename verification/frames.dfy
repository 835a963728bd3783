/**
  Columnar data frames as the type-enforcement stage sees them: named columns,
  each holding an exact storage dtype and a sequence of cells. Floating-point
  values are opaque tokens, and the value conversion behind a dtype cast is a
  parameter (a `Caster`) rather than a definition of pandas' rules.
 */
module Frames {
  import opened Wrappers

  /** One value of a column; `Null` is the missing-value marker (NaN / None). */
  datatype Cell = Null | IntV(i: int) | FloatV(token: string) | StrV(s: string)

  /** Exact storage dtypes, distinguishing bit widths ('int16' vs 'int64'). */
  datatype DType =
    | Int8 | Int16 | Int32 | Int64
    | UInt8 | UInt16 | UInt32 | UInt64
    | Float32 | Float64
    | Object
    | Bool
    | Category
    | Datetime64

  /** Coarse raw types recorded by the feature metadata ('int', 'float', 'object', ...). */
  datatype RawType = RInt | RFloat | RObject | RBool | RCategory | RDatetime

  /** The raw type of an exact dtype: every signed or unsigned width is 'int',
      both float widths are 'float'. */
  function RawOf(d: DType): RawType
  {
    match d
    case Int8 | Int16 | Int32 | Int64 | UInt8 | UInt16 | UInt32 | UInt64 => RInt
    case Float32 | Float64 => RFloat
    case Object => RObject
    case Bool => RBool
    case Category => RCategory
    case Datetime64 => RDatetime
  }

  /** A cell that a column of dtype `d` can hold as it is: integer dtypes hold
      no missing values, float dtypes hold floats or NaN, bool holds 0 or 1 and no
      missing value; object, category and datetime values are not modelled, so
      those dtypes hold any cell. */
  predicate Conforms(c: Cell, d: DType)
  {
    match RawOf(d)
    case RInt => c.IntV?
    case RFloat => c.Null? || c.FloatV?
    case RBool => c.IntV? && 0 <= c.i <= 1
    case _ => true
  }

  /** The per-value conversion a dtype cast performs; `None` when the value cannot
      be converted (the cast then raises). */
  type Caster = (Cell, DType) -> Option<Cell>

  /** A cast leaves values that already fit the target dtype as they are. */
  ghost predicate KeepsConforming(cast: Caster)
  {
    forall c, d :: Conforms(c, d) ==> cast(c, d) == Some(c)
  }

  /** A cast to an integer dtype refuses a missing value. */
  ghost predicate RejectsNullInt(cast: Caster)
  {
    forall d :: RawOf(d) == RInt ==> cast(Null, d).None?
  }

  datatype Column = Column(dtype: DType, cells: seq<Cell>)

  /** A data frame: the column order and the columns by name. */
  datatype Frame = Frame(names: seq<string>, cols: map<string, Column>)

  /** Column names are unique and name exactly the columns present. */
  ghost predicate WellFormed(x: Frame)
  {
    && (forall i, j :: 0 <= i < j < |x.names| ==> x.names[i] != x.names[j])
    && (forall f :: f in x.cols <==> f in x.names)
  }

  /** The number of missing values in a column (`isnull().sum()`). */
  function NullCount(cells: seq<Cell>): (n: nat)
    ensures n <= |cells|
    ensures n == 0 <==> forall k :: 0 <= k < |cells| ==> !cells[k].Null?
  {
    if cells == [] then 0
    else (if cells[0].Null? then 1 else 0) + NullCount(cells[1..])
  }

  /** `fillna(v)` on one column: missing values become `v`, every other value stays. */
  function FillNulls(cells: seq<Cell>, v: Cell): (r: seq<Cell>)
    ensures |r| == |cells|
    ensures forall k :: 0 <= k < |cells| ==>
              (cells[k].Null? ==> r[k] == v) && (!cells[k].Null? ==> r[k] == cells[k])
    ensures !v.Null? ==> NullCount(r) == 0
    ensures NullCount(cells) == 0 ==> r == cells
  {
    if cells == [] then []
    else [if cells[0].Null? then v else cells[0]] + FillNulls(cells[1..], v)
  }

  /** Converting every value of a column to `d`; `None` as soon as one value fails. */
  function CastCells(cells: seq<Cell>, d: DType, cast: Caster): (r: Option<seq<Cell>>)
    ensures r.Some? <==> forall k :: 0 <= k < |cells| ==> cast(cells[k], d).Some?
    ensures r.Some? ==> |r.value| == |cells|
    ensures r.Some? ==> forall k :: 0 <= k < |cells| ==> cast(cells[k], d) == Some(r.value[k])
  {
    if cells == [] then Some([])
    else
      match cast(cells[0], d)
      case None => None
      case Some(c) =>
        match CastCells(cells[1..], d, cast)
        case None => None
        case Some(rest) => Some([c] + rest)
  }

  /** A cast that keeps conforming values returns a conforming column unchanged. */
  lemma CastConforming(cells: seq<Cell>, d: DType, cast: Caster)
    requires KeepsConforming(cast)
    requires forall k :: 0 <= k < |cells| ==> Conforms(cells[k], d)
    ensures CastCells(cells, d, cast) == Some(cells)
  {
    var r := CastCells(cells, d, cast);
    assert r.Some?;
    assert forall k :: 0 <= k < |cells| ==> r.value[k] == cells[k];
    assert r.value == cells;
  }
}

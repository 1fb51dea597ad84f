/**
 * The slice of the `arrow` package the lance column code relies on: data
 * types, schemas and arrays. The package itself is not part of this model;
 * arrays are described by what the column code reads from them: a length,
 * per-slot validity, the stored values, and the null bitmap's bytes.
 */
module Arrow {
  import opened Wrappers
  import opened Bytes
  import opened Bitmaps

  datatype DataType =
    | Int32Type
    | Int64Type
    | Float32Type
    | Float64Type
    | FixedSizeListType(elem: DataType, size: int)
    | OtherType(name: string)

  datatype Field = Field(name: string, dtype: DataType, nullable: bool)

  /** Schema metadata is not modelled; two schemas are `Equal` when their fields are. */
  datatype Schema = Schema(fields: seq<Field>)

  /** A record batch: a schema, a row count and one array per field. */
  datatype RecordBatch = RecordBatch(schema: Schema, numRows: int, columns: seq<Array>)

  /** The four primitive element types the serialiser supports. */
  datatype PrimKind = Int32Kind | Int64Kind | Float32Kind | Float64Kind

  function Width(k: PrimKind): nat
  {
    match k
    case Int32Kind => 4
    case Int64Kind => 8
    case Float32Kind => 4
    case Float64Kind => 8
  }

  /** Int32/Int64 values are signed integers; Float32/Float64 values are opaque
      IEEE-754 bit patterns, kept as unsigned words. */
  predicate Signed(k: PrimKind)
  {
    k.Int32Kind? || k.Int64Kind?
  }

  predicate Fits(k: PrimKind, v: int)
  {
    if Signed(k) then InSigned(v, Width(k)) else 0 <= v < Pow256(Width(k))
  }

  function KindType(k: PrimKind): DataType
  {
    match k
    case Int32Kind => Int32Type
    case Int64Kind => Int64Type
    case Float32Kind => Float32Type
    case Float64Kind => Float64Type
  }

  datatype Array =
      /** Int32Array, Int64Array, Float32Array, Float64Array: every slot has a
          stored value, and `nulls` (nil when absent) marks the valid ones. */
    | Prim(kind: PrimKind, values: seq<int>, nulls: Option<Bitmap>)
      /** FixedSizeListArray: list `i` is `child`'s values `[i*listSize, (i+1)*listSize)`. */
    | FixedSizeList(listSize: int, child: Array, nulls: Option<Bitmap>)
      /** An array of a type the column code does not handle. */
    | Unsupported(typeName: string, length: nat)

  /** `Len()`. A fixed-size list holds as many whole lists as its child has values for. */
  function Len(a: Array): nat
  {
    match a
    case Prim(_, values, _) => |values|
    case FixedSizeList(size, child, _) =>
      if size > 0 && child.Prim? then |child.values| / size else 0
    case Unsupported(_, n) => n
  }

  /** Every stored value fits the element type, and the null bitmap, when
      present, has a bit for every slot. */
  predicate WellFormed(a: Array)
  {
    match a
    case Prim(k, values, nulls) =>
      ValuesFit(k, values) && (nulls.Some? ==> BitmapCovers(nulls.value, Len(a)))
    case FixedSizeList(_, child, nulls) =>
      (child.Prim? ==> WellFormed(child)) && (nulls.Some? ==> BitmapCovers(nulls.value, Len(a)))
    case Unsupported(_, _) => true
  }

  predicate ValuesFit(k: PrimKind, values: seq<int>)
  {
    forall i :: 0 <= i < |values| ==> Fits(k, values[i])
  }

  predicate BitmapCovers(b: Bitmap, n: nat)
  {
    forall i :: 0 <= i < n ==> InRange(b, i)
  }

  function Nulls(a: Array): Option<Bitmap>
  {
    if a.Unsupported? then None else a.nulls
  }

  /** `IsValid(i)`: no bitmap means every slot is valid. */
  predicate IsValid(a: Array, i: nat)
    requires WellFormed(a) && i < Len(a)
  {
    var nulls := Nulls(a);
    nulls.None? || IsSet(nulls.value, i)
  }

  /** `NullN() > 0`. */
  predicate HasNulls(a: Array)
    requires WellFormed(a)
  {
    exists i :: 0 <= i < Len(a) && !IsValid(a, i)
  }

  /** What a reader of a primitive array observes: each slot's value, or None when null. */
  function Logical(a: Array): (r: seq<Option<int>>)
    requires a.Prim? && WellFormed(a)
    ensures |r| == Len(a)
  {
    seq(Len(a), i requires 0 <= i < Len(a) => if IsValid(a, i) then Some(a.values[i]) else None)
  }

  /** The values of list `i` of a fixed-size list. */
  function ListValues(a: Array, i: nat): (r: seq<int>)
    requires a.FixedSizeList? && a.child.Prim? && i < Len(a)
    ensures |r| == a.listSize
  {
    var size := a.listSize;
    assert (i + 1) * size <= Len(a) * size <= |a.child.values|;
    a.child.values[i * size .. (i + 1) * size]
  }

  /** What a reader of a fixed-size list observes: each list's values, or None when null. */
  function ListLogical(a: Array): (r: seq<Option<seq<int>>>)
    requires a.FixedSizeList? && a.child.Prim? && WellFormed(a)
    ensures |r| == Len(a)
  {
    seq(Len(a), i requires 0 <= i < Len(a) => if IsValid(a, i) then Some(ListValues(a, i)) else None)
  }

  /** The arrow type an array is read back as. */
  function TypeOf(a: Array): DataType
  {
    match a
    case Prim(k, _, _) => KindType(k)
    case FixedSizeList(size, child, _) =>
      FixedSizeListType(if child.Prim? then KindType(child.kind) else OtherType("unknown"), size)
    case Unsupported(name, _) => OtherType(name)
  }
}

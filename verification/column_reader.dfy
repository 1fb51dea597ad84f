/**
 * lance/column/reader.go: reading a column back page by page, merging the
 * pages of a multi-page column into one array, and the reader's open/closed
 * state. The file is a byte sequence; the footer's page index list and the
 * schema are given to the reader (the footer's encoding and the schema's
 * JSON decoding are not part of this model). Merged arrays are described by
 * what an arrow builder holds after the appends: a value per slot (zero at
 * a null) and a validity bitmap.
 */
module ColumnReader {
  import opened Wrappers
  import opened Errors
  import opened Bytes
  import opened Bitmaps
  import opened Arrow
  import Header
  import opened Pages
  import opened PageReader
  import opened Seqs

  // ---------------------------------------------------------------------
  // Merging primitive arrays

  predicate AllPrim(arrays: seq<Array>, k: PrimKind)
  {
    forall i :: 0 <= i < |arrays| ==> arrays[i].Prim? && arrays[i].kind == k && WellFormed(arrays[i])
  }

  /** The reference for a merge: the logical views, one after another. */
  function Slots(arrays: seq<Array>, k: PrimKind): (r: seq<Option<int>>)
    requires AllPrim(arrays, k)
    ensures forall i :: 0 <= i < |r| && r[i].Some? ==> Fits(k, r[i].value)
  {
    if |arrays| == 0 then []
    else
      var a := arrays[0];
      assert forall i :: 0 <= i < Len(a) && IsValid(a, i) ==> Fits(k, a.values[i]);
      Logical(a) + Slots(arrays[1..], k)
  }

  function TotalLen(arrays: seq<Array>): nat
  {
    if |arrays| == 0 then 0 else Len(arrays[0]) + TotalLen(arrays[1..])
  }

  lemma {:induction false} SlotsLength(arrays: seq<Array>, k: PrimKind)
    requires AllPrim(arrays, k)
    ensures |Slots(arrays, k)| == TotalLen(arrays)
  {
    if |arrays| > 0 {
      SlotsLength(arrays[1..], k);
    }
  }

  /** The array a builder yields after appending `slots` in order. */
  function FromSlots(k: PrimKind, slots: seq<Option<int>>): (a: Array)
    requires forall i :: 0 <= i < |slots| && slots[i].Some? ==> Fits(k, slots[i].value)
    ensures a.Prim? && a.kind == k && WellFormed(a) && Logical(a) == slots
  {
    var n := |slots|;
    var values := seq(n, i requires 0 <= i < n => if slots[i].Some? then slots[i].value else 0);
    var a := Prim(k, values, Some(FromBools(seq(n, i requires 0 <= i < n => slots[i].Some?))));
    assert Fits(k, 0) by { if Signed(k) { Widths(); } }
    a
  }

  /** `merge{Int32,Int64,Float32,Float64}Arrays`: every slot of every array
      appended in order, a null as a null. The type assertion panics on an
      array of another type; `IsNull` needs a bitmap that covers the array. */
  function MergePrim(arrays: seq<Array>, k: PrimKind): (r: Result<Array, Error>)
    ensures r.Ok? <==> AllPrim(arrays, k)
    ensures r.Ok? ==> r.value.Prim? && r.value.kind == k && WellFormed(r.value)
    ensures r.Ok? ==> Logical(r.value) == Slots(arrays, k)
  {
    if exists i :: 0 <= i < |arrays| && !(arrays[i].Prim? && arrays[i].kind == k) then
      Err(Panic("interface conversion"))
    else if exists i :: 0 <= i < |arrays| && !WellFormed(arrays[i]) then
      Err(Panic("bitmap index out of range"))
    else Ok(FromSlots(k, Slots(arrays, k)))
  }

  // ---------------------------------------------------------------------
  // Merging fixed-size lists

  /** List arrays of the given list size whose child holds elements of kind `k`. */
  predicate AllLists(arrays: seq<Array>, size: int, k: PrimKind)
  {
    forall i :: 0 <= i < |arrays| ==>
      && arrays[i].FixedSizeList? && arrays[i].child.Prim? && arrays[i].child.kind == k
      && arrays[i].listSize == size && WellFormed(arrays[i])
  }

  /** `getFixedSizeListValues`: the list's slice of a float32 or int32
      child; a child of any other type gives `listSize` zeros. */
  function GetListValues(a: Array, i: nat): (r: seq<int>)
    requires a.FixedSizeList? && a.child.Prim? && i < Len(a)
    ensures |r| == a.listSize
    ensures a.child.kind.Float32Kind? || a.child.kind.Int32Kind? ==> r == ListValues(a, i)
    ensures !(a.child.kind.Float32Kind? || a.child.kind.Int32Kind?) ==> forall j :: 0 <= j < |r| ==> r[j] == 0
  {
    if a.child.kind.Float32Kind? || a.child.kind.Int32Kind? then ListValues(a, i)
    else seq(a.listSize, _ => 0)
  }

  /** What the merge loop appends for one array: each list's values, or a null. */
  function Appended(a: Array): (r: seq<Option<seq<int>>>)
    requires a.FixedSizeList? && a.child.Prim? && WellFormed(a)
    ensures |r| == Len(a)
    ensures a.child.kind.Float32Kind? || a.child.kind.Int32Kind? ==> r == ListLogical(a)
  {
    seq(Len(a), i requires 0 <= i < Len(a) => if IsValid(a, i) then Some(GetListValues(a, i)) else None)
  }

  /** The reference for a list merge: the lists' logical views, one after another. */
  function ListSlots(arrays: seq<Array>, size: int, k: PrimKind): (r: seq<Option<seq<int>>>)
    requires AllLists(arrays, size, k)
    ensures forall i :: 0 <= i < |r| && r[i].Some? ==> |r[i].value| == size
  {
    if |arrays| == 0 then [] else ListLogical(arrays[0]) + ListSlots(arrays[1..], size, k)
  }

  lemma {:induction false} ListSlotsFit(arrays: seq<Array>, size: nat, k: PrimKind)
    requires AllLists(arrays, size, k)
    ensures ListsFit(ListSlots(arrays, size, k), size, k)
  {
    if |arrays| > 0 {
      ListSlotsFit(arrays[1..], size, k);
      ListLogicalFits(arrays[0], k);
      ListsFitConcat(ListLogical(arrays[0]), ListSlots(arrays[1..], size, k), size, k);
    }
  }

  lemma ListsFitConcat(l1: seq<Option<seq<int>>>, l2: seq<Option<seq<int>>>, size: nat, k: PrimKind)
    requires ListsFit(l1, size, k) && ListsFit(l2, size, k)
    ensures ListsFit(l1 + l2, size, k)
  {
    var r := l1 + l2;
    forall i | |l1| <= i < |r|
      ensures r[i] == l2[i - |l1|]
    {
    }
  }

  lemma ListLogicalFits(a: Array, k: PrimKind)
    requires a.FixedSizeList? && a.child.Prim? && a.child.kind == k && WellFormed(a) && a.listSize >= 0
    ensures ListsFit(ListLogical(a), a.listSize, k)
  {
    var l := ListLogical(a);
    forall i | 0 <= i < |l| && l[i].Some?
      ensures ValuesFit(k, l[i].value)
    {
      ListValuesFit(a, i);
    }
  }

  lemma ListValuesFit(a: Array, i: nat)
    requires a.FixedSizeList? && a.child.Prim? && WellFormed(a) && i < Len(a)
    ensures ValuesFit(a.child.kind, ListValues(a, i))
  {
    var size := a.listSize;
    var v := ListValues(a, i);
    assert (i + 1) * size <= |a.child.values|;
    forall j | 0 <= j < |v|
      ensures Fits(a.child.kind, v[j])
    {
      assert v[j] == a.child.values[i * size + j];
    }
  }

  /** The flattened child values of a list builder: `size` slots per list,
      zeros for a null list. */
  function Flatten(lists: seq<Option<seq<int>>>, size: nat): (r: seq<int>)
    requires forall i :: 0 <= i < |lists| && lists[i].Some? ==> |lists[i].value| == size
    ensures |r| == |lists| * size
  {
    if |lists| == 0 then []
    else (if lists[0].Some? then lists[0].value else seq(size, _ => 0)) + Flatten(lists[1..], size)
  }

  lemma {:induction false} FlattenSlice(lists: seq<Option<seq<int>>>, size: nat, g: nat)
    requires forall i :: 0 <= i < |lists| && lists[i].Some? ==> |lists[i].value| == size
    requires g < |lists| && lists[g].Some?
    ensures (g + 1) * size <= |Flatten(lists, size)|
    ensures Flatten(lists, size)[g * size .. (g + 1) * size] == lists[g].value
  {
    var f := Flatten(lists, size);
    var head := if lists[0].Some? then lists[0].value else seq(size, _ => 0);
    var tail := Flatten(lists[1..], size);
    assert f == head + tail;
    if g == 0 {
      assert f[..size] == head;
    } else {
      FlattenSlice(lists[1..], size, g - 1);
      MulSucc(g - 1, size);
      MulSucc(g, size);
      SliceRight(head, tail, g * size, (g + 1) * size);
    }
  }

  lemma MulSucc(k: nat, n: nat)
    ensures (k + 1) * n == k * n + n
  {
  }

  /** The element kind a list builder of the given element type holds. */
  function ElemKind(elem: DataType): PrimKind
  {
    if elem.Int32Type? then Int32Kind else Float32Kind
  }

  predicate ListsFit(lists: seq<Option<seq<int>>>, size: nat, k: PrimKind)
  {
    && (forall i :: 0 <= i < |lists| && lists[i].Some? ==> |lists[i].value| == size)
    && (forall i :: 0 <= i < |lists| && lists[i].Some? ==> ValuesFit(k, lists[i].value))
  }

  function ListArray(k: PrimKind, size: nat, lists: seq<Option<seq<int>>>): Array
    requires ListsFit(lists, size, k)
  {
    var n := |lists|;
    FixedSizeList(size, Prim(k, Flatten(lists, size), None), Some(FromBools(seq(n, i requires 0 <= i < n => lists[i].Some?))))
  }

  lemma MulDiv(n: nat, size: nat)
    requires size > 0
    ensures n * size / size == n
  {
    var q := n * size / size;
    var m := n * size % size;
    assert q * size + m == n * size && 0 <= m < size;
    if q < n {
      MulLe(q + 1, n, size);
    } else if q > n {
      MulLe(n + 1, q, size);
    }
  }

  lemma MulLe(a: int, b: int, size: nat)
    requires a <= b
    ensures a * size <= b * size
  {
  }

  lemma ListArrayLen(k: PrimKind, size: nat, lists: seq<Option<seq<int>>>)
    requires size > 0 && ListsFit(lists, size, k)
    ensures Len(ListArray(k, size, lists)) == |lists|
  {
    MulDiv(|lists|, size);
  }

  lemma ListArrayShape(k: PrimKind, size: nat, lists: seq<Option<seq<int>>>)
    requires size > 0 && ListsFit(lists, size, k)
    ensures WellFormed(ListArray(k, size, lists))
  {
    ListArrayLen(k, size, lists);
    FlattenFits(lists, size, k);
  }

  lemma ListArrayLogical(k: PrimKind, size: nat, lists: seq<Option<seq<int>>>)
    requires size > 0 && ListsFit(lists, size, k)
    ensures WellFormed(ListArray(k, size, lists))
    ensures ListLogical(ListArray(k, size, lists)) == lists
  {
    var a := ListArray(k, size, lists);
    ListArrayShape(k, size, lists);
    ListArrayLen(k, size, lists);
    var r := ListLogical(a);
    forall g | 0 <= g < |lists|
      ensures r[g] == lists[g]
    {
      assert IsValid(a, g) == lists[g].Some?;
      if lists[g].Some? {
        FlattenSlice(lists, size, g);
      }
    }
  }

  /** The fixed-size list a builder yields after appending `lists` in order. */
  function FromLists(elem: DataType, size: int, lists: seq<Option<seq<int>>>): (a: Array)
    requires size > 0 && ListsFit(lists, size, ElemKind(elem))
    ensures a.FixedSizeList? && a.child.Prim? && a.listSize == size && WellFormed(a)
    ensures ListLogical(a) == lists
  {
    ListArrayLogical(ElemKind(elem), size, lists);
    ListArray(ElemKind(elem), size, lists)
  }

  lemma {:induction false} FlattenFits(lists: seq<Option<seq<int>>>, size: nat, k: PrimKind)
    requires ListsFit(lists, size, k)
    ensures ValuesFit(k, Flatten(lists, size))
  {
    if |lists| > 0 {
      FlattenFits(lists[1..], size, k);
      assert Fits(k, 0) by { if Signed(k) { Widths(); } }
    }
  }

  /** `mergeFixedSizeListArrays`: every list of every array appended in
      order, a null list as a null. The builder is assumed to lay each list
      out in `size` child slots of the element type, so arrays of another
      list size, or whose elements would need converting, are refused. */
  function MergeLists(arrays: seq<Array>, elem: DataType, size: int): (r: Result<Array, Error>)
    ensures r.Ok? <==> AllLists(arrays, size, ElemKind(elem))
    ensures r.Ok? ==> r.value.FixedSizeList? && r.value.child.Prim? && r.value.listSize == size
    ensures r.Ok? ==> r.value.child.kind == ElemKind(elem)
    ensures r.Ok? ==> WellFormed(r.value) && ListLogical(r.value) == ListSlots(arrays, size, ElemKind(elem))
  {
    var k := ElemKind(elem);
    if exists i :: 0 <= i < |arrays| && !(arrays[i].FixedSizeList? && arrays[i].child.Prim?) then
      Err(Panic("interface conversion"))
    else if exists i :: 0 <= i < |arrays| && !WellFormed(arrays[i]) then
      Err(Panic("bitmap index out of range"))
    else if exists i :: 0 <= i < |arrays| && arrays[i].listSize != size then
      Err(Panic("list size mismatch"))
    else if exists i :: 0 <= i < |arrays| && arrays[i].child.kind != k then
      Err(Invalid("element conversion not modelled"))
    else if size <= 0 then
      MergeEmpty(arrays, size, k);
      Ok(FixedSizeList(size, Prim(k, [], None), None))
    else
      ListSlotsFit(arrays, size, k);
      Ok(FromLists(elem, size, ListSlots(arrays, size, k)))
  }

  /** Lists of size zero or less hold no lists at all. */
  lemma {:induction false} MergeEmpty(arrays: seq<Array>, size: int, k: PrimKind)
    requires AllLists(arrays, size, k) && size <= 0
    ensures ListSlots(arrays, size, k) == []
  {
    if |arrays| > 0 { MergeEmpty(arrays[1..], size, k); }
  }

  /** What the merge loop appends over all the arrays, one after another. */
  function AppendedAll(arrays: seq<Array>, size: int, k: PrimKind): seq<Option<seq<int>>>
    requires AllLists(arrays, size, k)
  {
    if |arrays| == 0 then [] else Appended(arrays[0]) + AppendedAll(arrays[1..], size, k)
  }

  lemma {:induction false} ListSlotsAppended(arrays: seq<Array>, size: int, k: PrimKind)
    requires AllLists(arrays, size, k) && (k.Float32Kind? || k.Int32Kind?)
    ensures ListSlots(arrays, size, k) == AppendedAll(arrays, size, k)
  {
    if |arrays| > 0 { ListSlotsAppended(arrays[1..], size, k); }
  }

  /** A merge that succeeds holds exactly what the Go loop appends: for each
      array in turn, `getFixedSizeListValues` of every valid list and a null
      for every null one. */
  lemma {:induction false} MergeListsAppends(arrays: seq<Array>, elem: DataType, size: int)
    requires AllLists(arrays, size, ElemKind(elem))
    ensures MergeLists(arrays, elem, size).Ok?
    ensures ListLogical(MergeLists(arrays, elem, size).value) == AppendedAll(arrays, size, ElemKind(elem))
  {
    ListSlotsAppended(arrays, size, ElemKind(elem));
  }

  // ---------------------------------------------------------------------
  // mergeArrays

  /** `mergeArrays`: none is an error, one is returned as it is, several are
      merged by the declared type. */
  function MergeArrays(arrays: seq<Array>, dtype: DataType): (r: Result<Array, Error>)
    ensures |arrays| == 0 ==> r == Err(Invalid("no arrays to merge"))
    ensures |arrays| == 1 ==> r == Ok(arrays[0])
    ensures |arrays| > 1 && dtype.OtherType? ==> r == Err(Invalid("unsupported array type for merging"))
  {
    if |arrays| == 0 then Err(Invalid("no arrays to merge"))
    else if |arrays| == 1 then Ok(arrays[0])
    else
      match dtype
      case Int32Type => MergePrim(arrays, Int32Kind)
      case Int64Type => MergePrim(arrays, Int64Kind)
      case Float32Type => MergePrim(arrays, Float32Kind)
      case Float64Type => MergePrim(arrays, Float64Kind)
      case FixedSizeListType(elem, size) => MergeLists(arrays, elem, size)
      case OtherType(_) => Err(Invalid("unsupported array type for merging"))
  }

  // ---------------------------------------------------------------------
  // The reader

  datatype Reader = Reader(
    schema: Schema,
    numRows: int64,
    index: seq<PageIndex>,
    file: seq<byte>,
    closed: bool)

  /** `NewReader` over the file's bytes: the header is read from the start of
      the file, and the reader reports the header's schema, which
      `deserialize` made of the stored schema bytes; the footer's page index
      list is given. Go's reader deserialises with `Header.VectorsOnly`. */
  function Open(file: seq<byte>, index: seq<PageIndex>, deserialize: Header.Deserializer): (r: Result<Reader, Error>)
    ensures r.Ok? <==> Header.ReadFrom(file, deserialize).Ok?
    ensures r.Ok? ==> var h := Header.ReadFrom(file, deserialize).value;
      r.value == Reader(deserialize(h.schemaJson), h.header.numRows, index, file, false)
  {
    match Header.ReadFrom(file, deserialize)
    case Err(e) => Err(Context("read header failed", e))
    case Ok(h) => Ok(Reader(h.header.schema.value, h.header.numRows, index, file, false))
  }

  /** `readPage`: seek to the entry's offset (a negative offset is a seek
      error; one past the end leaves nothing to read) and read a page. */
  function ReadPageAt(file: seq<byte>, e: PageIndex): (r: Result<Page, Error>)
    ensures e.offset < 0 ==> r.Err?
    ensures r.Ok? ==> Validate(r.value).None?
  {
    if e.offset < 0 then Err(Invalid("seek: negative position"))
    else
      var start := if e.offset <= |file| then e.offset else |file|;
      var p :- Pages.ReadFrom(file[start..]);
      Ok(p.val)
  }

  /** Read and deserialise the pages of the given entries, in order. */
  function ReadArrays(file: seq<byte>, entries: seq<PageIndex>, dtype: DataType): (r: Result<seq<Array>, Error>)
    ensures r.Ok? ==> |r.value| == |entries|
    ensures r.Ok? ==> forall i :: 0 <= i < |r.value| ==> TypeOf(r.value[i]) == dtype
  {
    if |entries| == 0 then Ok([])
    else
      match ReadPageAt(file, entries[0])
      case Err(e) => Err(Context("read page failed", e))
      case Ok(page) =>
        match ReadPage(Some(page), dtype)
        case Err(e) => Err(Context("deserialize page failed", e))
        case Ok(a) =>
          var rest :- ReadArrays(file, entries[1..], dtype);
          Ok([a] + rest)
  }

  /** `readColumn`: the column's entries (the footer's `GetColumnPages` is
      taken to be `FindByColumn`), a field lookup, and the pages read and
      merged. */
  function ReadColumn(r: Reader, c: int32): (res: Result<Array, Error>)
    ensures |ForColumn(r.index, c)| == 0 ==> res == Err(Invalid("no pages found for column"))
    ensures |ForColumn(r.index, c)| > 0 && c >= |r.schema.fields| ==> res == Err(Invalid("column index out of range"))
  {
    var entries := ForColumn(r.index, c);
    if |entries| == 0 then Err(Invalid("no pages found for column"))
    else if c >= |r.schema.fields| then Err(Invalid("column index out of range"))
    else if c < 0 then Err(Panic("index out of range"))
    else
      var field := r.schema.fields[c];
      var arrays :- ReadArrays(r.file, entries, field.dtype);
      if |arrays| == 1 then Ok(arrays[0]) else MergeArrays(arrays, field.dtype)
  }

  function ReadColumns(r: Reader, from: nat): (res: Result<seq<Array>, Error>)
    requires from <= |r.schema.fields|
    ensures res.Ok? ==> |res.value| == |r.schema.fields| - from
    decreases |r.schema.fields| - from
  {
    if from == |r.schema.fields| then Ok([])
    else
      match ReadColumn(r, ToInt32(from))
      case Err(e) => Err(Context("read column failed", e))
      case Ok(a) =>
        var rest :- ReadColumns(r, from + 1);
        Ok([a] + rest)
  }

  /** `ReadRecordBatch`: refused once closed; otherwise every column of the
      schema, with the header's row count. */
  function ReadRecordBatch(r: Reader): (res: Result<RecordBatch, Error>)
    ensures r.closed ==> res == Err(Invalid("reader is closed"))
    ensures res.Ok? ==> res.value.schema == r.schema && res.value.numRows == r.numRows
    ensures res.Ok? ==> |res.value.columns| == |r.schema.fields|
  {
    if r.closed then Err(Invalid("reader is closed"))
    else
      var columns :- ReadColumns(r, 0);
      Ok(RecordBatch(r.schema, r.numRows, columns))
  }

  /** `Close`: the first call closes the reader, any later one is an error. */
  function Close(r: Reader): (res: Result<Reader, Error>)
    ensures res.Ok? <==> !r.closed
    ensures res.Ok? ==> res.value == r.(closed := true)
    ensures res.Err? ==> res.error == Invalid("reader already closed")
  {
    if r.closed then Err(Invalid("reader already closed")) else Ok(r.(closed := true))
  }

  /** Once closed, a reader neither reads nor closes again. */
  lemma ClosedReader(r: Reader)
    requires Close(r).Ok?
    ensures Close(Close(r).value).Err?
    ensures ReadRecordBatch(Close(r).value).Err?
  {
  }
}

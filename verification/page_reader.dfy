/**
 * lance/column/page_reader.go: a page's bytes become an array again, driven
 * by the column's declared data type. Every read goes through a
 * `bytes.Reader`: `binary.Read` fails on a short input, while the bitmap is
 * read with `Reader.Read`, which fails only at end of input and otherwise
 * copies what is left. Negative counts make `make` panic.
 */
module PageReader {
  import opened Wrappers
  import opened Errors
  import opened Bytes
  import opened Bitmaps
  import opened Arrow
  import opened Pages

  /** One value of the given kind from its `Width(k)` bytes. */
  function DecodeValue(k: PrimKind, chunk: seq<byte>): (v: int)
    requires |chunk| == Width(k)
    ensures Fits(k, v)
  {
    if Signed(k) then ParseIntLE(chunk) else ParseUIntLE(chunk)
  }

  /** `count` values read one by one; any short read fails. */
  function ReadValues(input: seq<byte>, k: PrimKind, count: nat): (r: Result<Read<seq<int>>, Error>)
    ensures r.Ok? <==> count * Width(k) <= |input|
    ensures r.Ok? ==> |r.value.val| == count && ValuesFit(k, r.value.val)
    ensures r.Ok? ==> r.value.rest == input[count * Width(k)..]
    decreases count
  {
    if count == 0 then Ok(Read([], input))
    else
      match Take(input, Width(k))
      case Err(e) => Err(e)
      case Ok(v) =>
        var vs :- ReadValues(v.rest, k, count - 1);
        Ok(Read([DecodeValue(k, v.val)] + vs.val, vs.rest))
  }

  /** `copy(dst.Bytes(), src)`: the first `min(len(dst), len(src))` bytes. */
  function CopyInto(b: Bitmap, src: seq<byte>): (r: Bitmap)
    ensures r.length == b.length && |r.buf| == |b.buf|
    ensures forall i :: 0 <= i < |b.buf| ==> r.buf[i] == if i < |src| then src[i] as bv8 else b.buf[i]
  {
    b.(buf := seq(|b.buf|, i requires 0 <= i < |b.buf| => if i < |src| then src[i] as bv8 else b.buf[i]))
  }

  /** The null section: a flag, and when it is set an int32 byte count, that
      many bytes read with `Reader.Read`, and a bitmap of `int32(count * 8)`
      bits holding them. */
  function ReadNulls(input: seq<byte>): (r: Result<Read<Option<Bitmap>>, Error>)
    ensures |input| == 0 ==> r == Err(ShortRead)
    ensures |input| > 0 && input[0] == 0 ==> r == Ok(Read(None, input[1..]))
    ensures r.Ok? && r.value.val.Some? ==> Covers(r.value.val.value)
  {
    var flag :- ReadBool(input);
    if !flag.val then Ok(Read(None, flag.rest))
    else
      var count :- ReadInt(flag.rest, 4);
      if count.val < 0 then Err(Panic("make: negative bitmap size"))
      else
        var chunk :- ReadSome(count.rest, count.val);
        var bits := ToInt32(count.val * 8);
        if ByteCount(bits) < 0 then Err(Panic("make: negative bitmap length"))
        else Ok(Read(Some(CopyInto(NewBitmap(bits), chunk.val)), chunk.rest))
  }

  /** An int32 count (a negative one makes `make` panic), then that many values. */
  function ReadCounted(input: seq<byte>, k: PrimKind): (r: Result<seq<int>, Error>)
    ensures r.Ok? ==> ValuesFit(k, r.value)
  {
    var count :- ReadInt(input, 4);
    if count.val < 0 then Err(Panic("make: negative value count"))
    else
      var values :- ReadValues(count.rest, k, count.val);
      Ok(values.val)
  }

  /** A primitive array: null section, then its counted values. */
  function ReadPrim(data: seq<byte>, k: PrimKind): (r: Result<Array, Error>)
    ensures r.Ok? ==> r.value.Prim? && r.value.kind == k && ValuesFit(k, r.value.values)
  {
    var nulls :- ReadNulls(data);
    var values :- ReadCounted(nulls.rest, k);
    Ok(Prim(k, values, nulls.val))
  }

  /** The flattened values of a fixed-size list: float32 and int32 element
      types are read; any other is an error. */
  function ReadElements(input: seq<byte>, elem: DataType): (r: Result<Array, Error>)
    ensures !(elem.Float32Type? || elem.Int32Type?) ==> r == Err(Invalid("unsupported FixedSizeList element type"))
    ensures r.Ok? ==> r.value.Prim? && r.value.nulls.None? && elem == KindType(r.value.kind)
    ensures r.Ok? ==> ValuesFit(r.value.kind, r.value.values)
  {
    if !(elem.Float32Type? || elem.Int32Type?) then Err(Invalid("unsupported FixedSizeList element type"))
    else
      var k := if elem.Float32Type? then Float32Kind else Int32Kind;
      var values :- ReadCounted(input, k);
      Ok(Prim(k, values, None))
  }

  /** A fixed-size list: list size (which must match the type), null
      section, list count (read, then ignored), and the flattened values. */
  function ReadList(data: seq<byte>, elem: DataType, size: int): (r: Result<Array, Error>)
    ensures r.Ok? ==> r.value.FixedSizeList? && r.value.listSize == size
    ensures r.Ok? ==> r.value.child.Prim? && r.value.child.nulls.None?
    ensures r.Ok? ==> elem == KindType(r.value.child.kind) && ValuesFit(r.value.child.kind, r.value.child.values)
    ensures !(elem.Float32Type? || elem.Int32Type?) ==> r.Err?
    ensures |data| < 4 ==> r.Err?
    ensures |data| >= 4 && ParseIntLE(data[..4]) != size ==> r == Err(Invalid("list size mismatch"))
  {
    var listSize :- ReadInt(data, 4);
    assert listSize.val == ParseIntLE(data[..4]);
    if listSize.val != size then Err(Invalid("list size mismatch"))
    else
      var nulls :- ReadNulls(listSize.rest);
      var numLists :- ReadInt(nulls.rest, 4);
      var child :- ReadElements(numLists.rest, elem);
      Ok(FixedSizeList(listSize.val, child, nulls.val))
  }

  /** `deserializeArray`: dispatch on the declared type. The array read back
      always has that type. */
  function Deserialize(data: seq<byte>, dtype: DataType): (r: Result<Array, Error>)
    ensures dtype.OtherType? ==> r == Err(Invalid("unsupported data type"))
    ensures r.Ok? ==> TypeOf(r.value) == dtype && !r.value.Unsupported?
  {
    match dtype
    case Int32Type => ReadPrim(data, Int32Kind)
    case Int64Type => ReadPrim(data, Int64Kind)
    case Float32Type => ReadPrim(data, Float32Kind)
    case Float64Type => ReadPrim(data, Float64Kind)
    case FixedSizeListType(elem, size) => ReadList(data, elem, size)
    case OtherType(_) => Err(Invalid("unsupported data type"))
  }

  /** `ReadPage`: a nil page and an empty page are errors. */
  function ReadPage(page: Option<Page>, dtype: DataType): (r: Result<Array, Error>)
    ensures page.None? ==> r == Err(Invalid("page is nil"))
    ensures page.Some? && |page.value.data| == 0 ==> r == Err(Invalid("page data is empty"))
    ensures r.Ok? ==> TypeOf(r.value) == dtype
  {
    if page.None? then Err(Invalid("page is nil"))
    else if |page.value.data| == 0 then Err(Invalid("page data is empty"))
    else Deserialize(page.value.data, dtype)
  }
}

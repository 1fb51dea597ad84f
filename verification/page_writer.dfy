/**
 * lance/column/page_writer.go: an array becomes a single data page. The page
 * bytes are a null section (a has-nulls flag, then the bitmap's byte count and
 * its first bytes when there are nulls) and the values, each count written as
 * a little-endian int32 and each value in its natural width.
 */
module PageWriter {
  import opened Wrappers
  import opened Errors
  import opened Bytes
  import opened Bitmaps
  import opened Arrow
  import opened Format
  import opened Pages

  /** One value of a primitive array: signed kinds in two's complement,
      float kinds as their stored IEEE-754 word. */
  function EncodeValue(k: PrimKind, v: int): (b: seq<byte>)
    requires Fits(k, v)
    ensures |b| == Width(k)
  {
    if Signed(k) then IntLE(v, Width(k)) else UIntLE(v, Width(k))
  }

  function EncodeValues(k: PrimKind, values: seq<int>): (b: seq<byte>)
    requires ValuesFit(k, values)
    ensures |b| == |values| * Width(k)
  {
    if |values| == 0 then []
    else EncodeValue(k, values[0]) + EncodeValues(k, values[1..])
  }

  /** `(array.Len() + 7) / 8`. */
  function BitmapBytes(n: nat): nat
  {
    (n + 7) / 8
  }

  /** A bitmap that covers `n > 0` slots has at least `BitmapBytes(n)` bytes. */
  lemma CoversBytes(b: Bitmap, n: nat)
    requires BitmapCovers(b, n) && n > 0
    ensures BitmapBytes(n) <= |b.buf|
  {
    assert InRange(b, n - 1);
  }

  /** `nullBitmap.Bytes()[:count]`, as bytes. */
  function BufferPrefix(b: Bitmap, count: nat): (r: seq<byte>)
    requires count <= |b.buf|
    ensures |r| == count
  {
    seq(count, i requires 0 <= i < count => b.buf[i] as int)
  }

  /** A present bitmap is all a null slot can come from. */
  lemma HasNullsBitmap(a: Array)
    requires !a.Unsupported? && WellFormed(a) && HasNulls(a)
    ensures Nulls(a).Some? && Len(a) > 0 && BitmapBytes(Len(a)) <= |Nulls(a).value.buf|
  {
    CoversBytes(Nulls(a).value, Len(a));
  }

  /** The flag byte and, when the array has nulls, the bitmap's byte count
      and that many bytes of its buffer. */
  function NullSection(a: Array): (b: seq<byte>)
    requires !a.Unsupported? && WellFormed(a)
    ensures |b| == 1 + (if HasNulls(a) then 4 + BitmapBytes(Len(a)) else 0)
  {
    if HasNulls(a) then
      HasNullsBitmap(a);
      [BoolByte(true)] + IntLE(ToInt32(BitmapBytes(Len(a))), 4)
      + BufferPrefix(Nulls(a).value, BitmapBytes(Len(a)))
    else [BoolByte(false)]
  }

  /** The count and values of a primitive array. */
  function ValueSection(a: Array): (b: seq<byte>)
    requires a.Prim? && WellFormed(a)
    ensures |b| == 4 + |a.values| * Width(a.kind)
  {
    IntLE(ToInt32(|a.values|), 4) + EncodeValues(a.kind, a.values)
  }

  /** The element kinds a fixed-size list's child may have. */
  predicate ListElement(child: Array)
  {
    child.Prim? && (child.kind.Float32Kind? || child.kind.Int32Kind?)
  }

  /** `serializeArray`: the four primitive arrays and fixed-size lists of
      float32 or int32 elements; anything else is an error. */
  function Serialize(a: Array): (r: Result<seq<byte>, Error>)
    requires WellFormed(a)
    ensures r.Ok? <==> a.Prim? || (a.FixedSizeList? && ListElement(a.child))
    ensures a.Prim? ==> r == Ok(NullSection(a) + ValueSection(a))
    ensures a.FixedSizeList? && ListElement(a.child) ==>
      r == Ok(IntLE(ToInt32(a.listSize), 4) + NullSection(a) + IntLE(ToInt32(Len(a)), 4)
              + ValueSection(a.child))
  {
    match a
    case Prim(_, _, _) => Ok(NullSection(a) + ValueSection(a))
    case FixedSizeList(listSize, child, _) =>
      if ListElement(child) then
        Ok(IntLE(ToInt32(listSize), 4) + NullSection(a) + IntLE(ToInt32(Len(a)), 4) + ValueSection(child))
      else Err(Invalid("unsupported FixedSizeList element type"))
    case Unsupported(_, _) => Err(Invalid("unsupported array type"))
  }

  /** The serialised size of a primitive array: flag, optional bitmap
      section, count, values. */
  lemma SerializedSize(a: Array)
    requires a.Prim? && WellFormed(a)
    ensures |Serialize(a).value|
         == 1 + (if HasNulls(a) then 4 + (|a.values| + 7) / 8 else 0) + 4 + |a.values| * Width(a.kind)
  {
  }

  /** `WritePages`: a nil or empty array is refused; otherwise one data page
      of the column holding the serialised bytes, uncompressed. */
  function WritePages(a: Option<Array>, columnIndex: int32, encoding: byte): (r: Result<seq<Page>, Error>)
    requires a.Some? ==> WellFormed(a.value)
    ensures a.None? || Len(a.value) == 0 ==> r == Err(Invalid("cannot write empty array"))
    ensures r.Ok? <==> a.Some? && Len(a.value) > 0 && Serialize(a.value).Ok?
    ensures r.Ok? ==> |r.value| == 1
    ensures r.Ok? ==> var p := r.value[0];
      && p.data == Serialize(a.value).value
      && p.columnIndex == columnIndex && p.ptype == PageTypeData && p.encoding == encoding
      && p.numValues == ToInt32(Len(a.value))
      && p.uncompressedSize == p.compressedSize == ToInt32(|p.data|)
      && p.checksum == Checksum(p.data)
  {
    if a.None? || Len(a.value) == 0 then Err(Invalid("cannot write empty array"))
    else
      match Serialize(a.value)
      case Err(e) => Err(Context("serialize page failed", e))
      case Ok(data) =>
        var page := NewPage(columnIndex, PageTypeData, encoding).(numValues := ToInt32(Len(a.value)));
        Ok([SetData(page, data, ToInt32(|data|))])
  }

  /** The page `WritePages` produces passes `Validate` exactly when its bytes
      fit the page limit: the writer itself does not check the size, so an
      oversized array is refused only later, when the page is written. */
  lemma WrittenPageValid(a: Array, columnIndex: int32, encoding: byte)
    requires WellFormed(a) && Len(a) > 0 && Serialize(a).Ok?
    requires |Serialize(a).value| < 0x8000_0000
    ensures WritePages(Some(a), columnIndex, encoding).Ok?
    ensures var p := WritePages(Some(a), columnIndex, encoding).value[0];
      Validate(p).None? <==> |Serialize(a).value| <= MaxPageSize
  {
    var p := WritePages(Some(a), columnIndex, encoding).value[0];
    if |Serialize(a).value| <= MaxPageSize {
      SerializedCoversLen(a);
    }
  }

  /** The serialised bytes are at least as many as the array's slots. */
  lemma SerializedCoversLen(a: Array)
    requires WellFormed(a) && Serialize(a).Ok?
    ensures Len(a) <= |Serialize(a).value|
  {
    if a.Prim? {
      MulMono(|a.values|, Width(a.kind));
    } else {
      var c := a.child;
      MulMono(|c.values|, Width(c.kind));
      assert |ValueSection(c)| <= |Serialize(a).value|;
      if a.listSize > 0 {
        DivLe(|c.values|, a.listSize);
      }
    }
  }

  lemma MulMono(n: nat, w: nat)
    requires w >= 1
    ensures n <= n * w
  {
  }

  lemma DivLe(n: nat, d: int)
    requires d > 0
    ensures n / d <= n
  {
    var q := n / d;
    assert q * d + n % d == n;
    MulMono(q, d);
  }
}

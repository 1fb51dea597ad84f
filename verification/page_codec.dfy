/**
 * The page writer and the page reader are inverse on the arrays the writer
 * accepts: reading back a serialised array under its own type restores its
 * values and its validity, slot for slot. Counts are written as int32, so the
 * arrays here have fewer than 2^28 slots (the bitmap's bit count,
 * `bytes * 8`, is also an int32).
 */
module PageCodec {
  import opened Wrappers
  import opened Errors
  import opened Bytes
  import opened Bitmaps
  import opened Arrow
  import opened Pages
  import opened PageWriter
  import opened PageReader
  import opened Seqs

  const MaxSlots: nat := 0x1000_0000

  lemma DecodeEncodedValue(k: PrimKind, v: int)
    requires Fits(k, v)
    ensures DecodeValue(k, EncodeValue(k, v)) == v
  {
    if Signed(k) { IntRoundTrip(v, Width(k)); } else { UIntRoundTrip(v, Width(k)); }
  }

  /** One encoded value in front of `n` readable ones makes `n + 1`. */
  lemma ReadValuesCons(k: PrimKind, v: int, head: seq<byte>, tail: seq<byte>, n: nat, vs: seq<int>, rest: seq<byte>)
    requires Fits(k, v) && head == EncodeValue(k, v)
    requires ReadValues(tail, k, n) == Ok(Read(vs, rest))
    ensures ReadValues(head + tail, k, n + 1) == Ok(Read([v] + vs, rest))
  {
    TakeAfterWrite(head, tail);
    DecodeEncodedValue(k, v);
  }

  lemma {:induction false} ReadValuesAfterWrite(k: PrimKind, values: seq<int>, rest: seq<byte>)
    requires ValuesFit(k, values)
    ensures ReadValues(EncodeValues(k, values) + rest, k, |values|) == Ok(Read(values, rest))
  {
    if |values| > 0 {
      var head := EncodeValue(k, values[0]);
      var more := EncodeValues(k, values[1..]);
      var tail := more + rest;
      assert EncodeValues(k, values) == head + more;
      Assoc(head, more, rest);
      ReadValuesAfterWrite(k, values[1..], rest);
      ReadValuesCons(k, values[0], head, tail, |values| - 1, values[1..], rest);
      assert [values[0]] + values[1..] == values;
    }
  }

  /** A bitmap read back for array `a` says of each slot what `a` says. */
  predicate SameValidity(a: Array, nulls: Option<Bitmap>)
    requires !a.Unsupported? && WellFormed(a)
  {
    nulls.Some? ==>
      && BitmapCovers(nulls.value, Len(a))
      && forall i :: 0 <= i < Len(a) ==> IsSet(nulls.value, i) == IsValid(a, i)
  }

  /** Reading a flagged null section of `bb` bytes. */
  lemma ReadNullsBitmap(bb: nat, prefix: seq<byte>, rest: seq<byte>)
    requires |prefix| == bb && bb * 8 < 0x8000_0000 && |rest| > 0
    ensures ReadNulls([BoolByte(true)] + IntLE(bb, 4) + prefix + rest)
         == Ok(Read(Some(CopyInto(NewBitmap(bb * 8), prefix)), rest))
  {
    var after := IntLE(bb, 4) + (prefix + rest);
    assert [BoolByte(true)] + IntLE(bb, 4) + prefix + rest == [BoolByte(true)] + after;
    ReadBoolAfterWrite(true, after);
    ReadIntAfterWrite(bb, 4, prefix + rest);
    assert (prefix + rest)[..bb] == prefix;
    assert (prefix + rest)[bb..] == rest;
  }

  /** The bitmap rebuilt from the first bytes of `src` agrees with `src` on
      every slot those bytes cover. */
  lemma CopiedBitmap(src: Bitmap, n: nat)
    requires BitmapCovers(src, n) && n > 0
    ensures BitmapBytes(n) <= |src.buf|
    ensures var b := CopyInto(NewBitmap(BitmapBytes(n) * 8), BufferPrefix(src, BitmapBytes(n)));
      BitmapCovers(b, n) && forall i :: 0 <= i < n ==> IsSet(b, i) == IsSet(src, i)
  {
    CoversBytes(src, n);
    var bb := BitmapBytes(n);
    var prefix := BufferPrefix(src, bb);
    var b := CopyInto(NewBitmap(bb * 8), prefix);
    forall i | 0 <= i < n
      ensures InRange(b, i) && IsSet(b, i) == IsSet(src, i)
    {
      assert InRange(src, i);
      assert b.buf[i / 8] == (src.buf[i / 8] as int) as bv8 == src.buf[i / 8];
    }
  }

  /** The null section reads back as a bitmap agreeing with every slot, or as
      nil exactly when the array has no nulls. */
  lemma ReadNullsAfterWrite(a: Array, rest: seq<byte>)
    requires !a.Unsupported? && WellFormed(a) && Len(a) < MaxSlots && |rest| > 0
    ensures ReadNulls(NullSection(a) + rest).Ok?
    ensures var r := ReadNulls(NullSection(a) + rest).value;
      && r.rest == rest
      && (r.val.None? <==> !HasNulls(a))
      && SameValidity(a, r.val)
  {
    if HasNulls(a) {
      HasNullsBitmap(a);
      var n := Len(a);
      var bb := BitmapBytes(n);
      var src := Nulls(a).value;
      var prefix := BufferPrefix(src, bb);
      assert NullSection(a) + rest == [BoolByte(true)] + IntLE(bb, 4) + prefix + rest;
      ReadNullsBitmap(bb, prefix, rest);
      CopiedBitmap(src, n);
    } else {
      assert NullSection(a) + rest == [BoolByte(false)] + rest;
      ReadBoolAfterWrite(false, rest);
    }
  }

  /** A bitmap read back with the same validity gives the same logical view. */
  lemma SameLogical(a: Array, nulls: Option<Bitmap>)
    requires a.Prim? && WellFormed(a) && SameValidity(a, nulls) && (nulls.None? ==> !HasNulls(a))
    ensures WellFormed(Prim(a.kind, a.values, nulls))
    ensures Logical(Prim(a.kind, a.values, nulls)) == Logical(a)
  {
    var b := Prim(a.kind, a.values, nulls);
    forall i | 0 <= i < Len(a)
      ensures IsValid(b, i) == IsValid(a, i)
    {
    }
  }

  lemma ReadCountedAfterWrite(k: PrimKind, values: seq<int>)
    requires ValuesFit(k, values) && |values| < MaxSlots
    ensures ReadCounted(IntLE(ToInt32(|values|), 4) + EncodeValues(k, values), k) == Ok(values)
  {
    var vals := EncodeValues(k, values);
    ReadIntAfterWrite(|values|, 4, vals);
    ReadValuesAfterWrite(k, values, []);
    assert vals + [] == vals;
  }

  lemma ReadPrimAfterWrite(a: Array)
    requires a.Prim? && WellFormed(a) && Len(a) < MaxSlots
    ensures ReadNulls(Serialize(a).value).Ok?
    ensures var nulls := ReadNulls(Serialize(a).value).value.val;
      && ReadPrim(Serialize(a).value, a.kind) == Ok(Prim(a.kind, a.values, nulls))
      && SameValidity(a, nulls) && (nulls.None? <==> !HasNulls(a))
  {
    var vs := ValueSection(a);
    ReadNullsAfterWrite(a, vs);
    ReadCountedAfterWrite(a.kind, a.values);
  }

  /** Reading a primitive array back restores its kind, its values and the
      validity of every slot. */
  lemma PrimRoundTrip(a: Array)
    requires a.Prim? && WellFormed(a) && Len(a) < MaxSlots
    ensures Deserialize(Serialize(a).value, TypeOf(a)).Ok?
    ensures var b := Deserialize(Serialize(a).value, TypeOf(a)).value;
      && b.Prim? && b.kind == a.kind && b.values == a.values
      && WellFormed(b) && Logical(b) == Logical(a)
  {
    ReadPrimAfterWrite(a);
    SameLogical(a, ReadNulls(Serialize(a).value).value.val);
  }

  lemma ListLenBound(a: Array)
    requires a.FixedSizeList? && a.child.Prim?
    ensures Len(a) <= |a.child.values|
  {
    if a.listSize > 0 { DivLe(|a.child.values|, a.listSize); }
  }

  /** The flattened values of a list read back as a primitive array without a bitmap. */
  lemma ReadElementsAfterWrite(c: Array)
    requires ListElement(c) && WellFormed(c) && |c.values| < MaxSlots
    ensures ReadElements(ValueSection(c), KindType(c.kind)) == Ok(Prim(c.kind, c.values, None))
  {
    ReadCountedAfterWrite(c.kind, c.values);
  }

  /** The fields of a list encoding, read one after the other. */
  lemma ReadListFields(size: int, nulls: seq<byte>, n: int, vs: seq<byte>, elem: DataType,
                       bitmap: Option<Bitmap>, child: Array)
    requires InSigned(size, 4) && InSigned(n, 4)
    requires ReadNulls(nulls + (IntLE(n, 4) + vs)) == Ok(Read(bitmap, IntLE(n, 4) + vs))
    requires ReadElements(vs, elem) == Ok(child)
    ensures ReadList(IntLE(size, 4) + (nulls + (IntLE(n, 4) + vs)), elem, size)
         == Ok(FixedSizeList(size, child, bitmap))
  {
    ReadIntAfterWrite(size, 4, nulls + (IntLE(n, 4) + vs));
    ReadIntAfterWrite(n, 4, vs);
  }

  lemma ReadListAfterWrite(a: Array)
    requires a.FixedSizeList? && ListElement(a.child) && WellFormed(a)
    requires InSigned(a.listSize, 4) && |a.child.values| < MaxSlots
    ensures var data := Serialize(a).value;
      && ReadNulls(data[4..]).Ok?
      && var nulls := ReadNulls(data[4..]).value.val;
      && ReadList(data, KindType(a.child.kind), a.listSize)
         == Ok(FixedSizeList(a.listSize, Prim(a.child.kind, a.child.values, None), nulls))
      && SameValidity(a, nulls) && (nulls.None? <==> !HasNulls(a))
  {
    ListLenBound(a);
    var tail := IntLE(Len(a), 4) + ValueSection(a.child);
    ReadListOf(a, Serialize(a).value, tail);
    ReadNullsAfterWrite(a, tail);
  }

  lemma ReadListOf(a: Array, data: seq<byte>, tail: seq<byte>)
    requires a.FixedSizeList? && ListElement(a.child) && WellFormed(a)
    requires InSigned(a.listSize, 4) && |a.child.values| < MaxSlots
    requires Len(a) <= |a.child.values| && tail == IntLE(Len(a), 4) + ValueSection(a.child)
    requires data == Serialize(a).value
    ensures data[4..] == NullSection(a) + tail
    ensures ReadNulls(data[4..]).Ok?
    ensures ReadList(data, KindType(a.child.kind), a.listSize)
         == Ok(FixedSizeList(a.listSize, Prim(a.child.kind, a.child.values, None), ReadNulls(data[4..]).value.val))
  {
    var c := a.child;
    var vs := ValueSection(c);
    var afterSize := NullSection(a) + tail;
    ListSerialized(a);
    Halves(IntLE(a.listSize, 4), afterSize);
    ReadNullsAfterWrite(a, tail);
    ReadElementsAfterWrite(c);
    ReadListFields(a.listSize, NullSection(a), Len(a), vs, KindType(c.kind),
                   ReadNulls(afterSize).value.val, Prim(c.kind, c.values, None));
  }

  /** A list read back with the same validity and the same flattened values
      gives the same logical view. */
  lemma SameListLogical(a: Array, nulls: Option<Bitmap>)
    requires a.FixedSizeList? && a.child.Prim? && WellFormed(a)
    requires SameValidity(a, nulls) && (nulls.None? ==> !HasNulls(a))
    ensures var b := FixedSizeList(a.listSize, Prim(a.child.kind, a.child.values, None), nulls);
      WellFormed(b) && ListLogical(b) == ListLogical(a)
  {
    var b := FixedSizeList(a.listSize, Prim(a.child.kind, a.child.values, None), nulls);
    assert Len(b) == Len(a);
    forall i | 0 <= i < Len(a)
      ensures IsValid(b, i) == IsValid(a, i) && ListValues(b, i) == ListValues(a, i)
    {
    }
  }

  /** Reading a fixed-size list back restores its list size, its flattened
      values and the validity of every list. The child's own null bitmap is
      not part of the encoding. */
  lemma ListRoundTrip(a: Array)
    requires a.FixedSizeList? && ListElement(a.child) && WellFormed(a)
    requires InSigned(a.listSize, 4) && |a.child.values| < MaxSlots
    ensures Deserialize(Serialize(a).value, TypeOf(a)).Ok?
    ensures var b := Deserialize(Serialize(a).value, TypeOf(a)).value;
      && b.FixedSizeList? && b.listSize == a.listSize
      && b.child == Prim(a.child.kind, a.child.values, None)
      && WellFormed(b) && ListLogical(b) == ListLogical(a)
  {
    var data := Serialize(a).value;
    ListReadBack(a, data, Deserialize(data, TypeOf(a)));
  }

  lemma ListReadBack(a: Array, data: seq<byte>, r: Result<Array, Error>)
    requires a.FixedSizeList? && ListElement(a.child) && WellFormed(a)
    requires InSigned(a.listSize, 4) && |a.child.values| < MaxSlots
    requires data == Serialize(a).value && r == Deserialize(data, TypeOf(a))
    ensures r.Ok? && r.value.FixedSizeList? && r.value.listSize == a.listSize
    ensures r.value.child == Prim(a.child.kind, a.child.values, None)
    ensures WellFormed(r.value) && ListLogical(r.value) == ListLogical(a)
  {
    ReadListAfterWrite(a);
    var nulls := ReadNulls(data[4..]).value.val;
    DeserializeList(a, data);
    SameListLogical(a, nulls);
  }

  /** A fixed-size list's own type sends the reader to the list decoder. */
  lemma DeserializeList(a: Array, data: seq<byte>)
    requires a.FixedSizeList? && a.child.Prim?
    ensures Deserialize(data, TypeOf(a)) == ReadList(data, KindType(a.child.kind), a.listSize)
  {
  }

  /** What a reader of an array observes, for the arrays the writer accepts. */
  predicate SameContents(a: Array, b: Array)
    requires WellFormed(a) && WellFormed(b)
  {
    if a.Prim? then b.Prim? && b.kind == a.kind && Logical(b) == Logical(a)
    else if a.FixedSizeList? && a.child.Prim? then
      b.FixedSizeList? && b.child.Prim? && b.listSize == a.listSize && ListLogical(b) == ListLogical(a)
    else false
  }

  /** Arrays `WritePages` accepts and the reader can restore. */
  predicate Restorable(a: Array)
  {
    && WellFormed(a)
    && (a.Prim? || (a.FixedSizeList? && ListElement(a.child) && InSigned(a.listSize, 4)))
    && (if a.Prim? then |a.values| else |a.child.values|) < MaxSlots
  }

  /** The page `WritePages` makes of a restorable array reads back, under the
      array's own type, as an array with the same contents. */
  lemma PageRoundTrip(a: Array, columnIndex: int32, encoding: byte)
    requires Restorable(a) && Len(a) > 0
    ensures WritePages(Some(a), columnIndex, encoding).Ok?
    ensures var p := WritePages(Some(a), columnIndex, encoding).value[0];
      && ReadPage(Some(p), TypeOf(a)).Ok?
      && WellFormed(ReadPage(Some(p), TypeOf(a)).value)
      && SameContents(a, ReadPage(Some(p), TypeOf(a)).value)
  {
    if a.Prim? { PrimRoundTrip(a); } else { ListRoundTrip(a); }
  }

  // ---------------------------------------------------------------------
  // Truncated input

  /** A null section cut short either fails or reads to the end of what is
      there: `Reader.Read` accepts a partial bitmap, so the failure of a cut
      inside the bitmap comes from the next read. */
  lemma NullsTruncated(a: Array, k: nat)
    requires !a.Unsupported? && WellFormed(a) && Len(a) < MaxSlots && k <= |NullSection(a)|
    ensures ReadNulls(NullSection(a)[..k]).Err? || ReadNulls(NullSection(a)[..k]).value.rest == []
  {
    if k == 0 {
      assert NullSection(a)[..k] == [];
    } else if !HasNulls(a) {
      assert NullSection(a)[..k] == [BoolByte(false)];
    } else {
      FlaggedSection(a, k);
    }
  }

  lemma FlaggedSection(a: Array, k: nat)
    requires !a.Unsupported? && WellFormed(a) && Len(a) < MaxSlots && HasNulls(a)
    requires 0 < k <= |NullSection(a)|
    ensures ReadNulls(NullSection(a)[..k]).Err? || ReadNulls(NullSection(a)[..k]).value.rest == []
  {
    HasNullsBitmap(a);
    var bb := BitmapBytes(Len(a));
    var prefix := BufferPrefix(Nulls(a).value, bb);
    var tail := IntLE(bb, 4) + prefix;
    assert NullSection(a) == [BoolByte(true)] + tail;
    TakeRight([BoolByte(true)], tail, k);
    FlaggedTruncated(bb, prefix, k - 1);
  }

  /** A set flag followed by a cut-short bitmap section. */
  lemma FlaggedTruncated(bb: nat, prefix: seq<byte>, j: nat)
    requires |prefix| == bb && 0 < bb < MaxSlots && j <= 4 + bb
    ensures var input := [BoolByte(true)] + (IntLE(bb, 4) + prefix)[..j];
      ReadNulls(input).Err? || ReadNulls(input).value.rest == []
  {
    var t := (IntLE(bb, 4) + prefix)[..j];
    Halves([BoolByte(true)], t);
    if j >= 4 {
      TakeRight(IntLE(bb, 4), prefix, j);
      Halves(IntLE(bb, 4), prefix[..j - 4]);
      IntRoundTrip(bb, 4);
      assert ReadInt(t, 4) == Ok(Read(bb as int, prefix[..j - 4]));
    }
  }

  /** A counted value section cut short fails: either its int32 count or
      one of the values it announces is missing. */
  lemma CountedTruncated(c: Array, j: nat)
    requires c.Prim? && WellFormed(c) && |c.values| < MaxSlots && j < |ValueSection(c)|
    ensures ReadCounted(ValueSection(c)[..j], c.kind).Err?
  {
    var n := |c.values|;
    var head := IntLE(n, 4);
    var values := EncodeValues(c.kind, c.values);
    assert ValueSection(c) == head + values;
    if j >= 4 {
      TakeRight(head, values, j);
      Halves(head, values[..j - 4]);
      IntRoundTrip(n, 4);
      assert ReadInt(ValueSection(c)[..j], 4) == Ok(Read(n as int, values[..j - 4]));
    }
  }

  /** A primitive array's encoding cut short does not decode. */
  lemma PrimTruncated(a: Array, k: nat)
    requires a.Prim? && WellFormed(a) && Len(a) < MaxSlots && k < |Serialize(a).value|
    ensures ReadPrim(Serialize(a).value[..k], a.kind).Err?
  {
    var ns := NullSection(a);
    var vs := ValueSection(a);
    assert Serialize(a).value == ns + vs;
    if k <= |ns| {
      TakeLeft(ns, vs, k);
      NullsTruncated(a, k);
      CountedTruncated(a, 0);
      assert vs[..0] == [];
    } else {
      TakeRight(ns, vs, k);
      ReadNullsAfterWrite(a, vs[..k - |ns|]);
      CountedTruncated(a, k - |ns|);
    }
  }

  /** What follows a list's size field, cut short, does not decode. */
  lemma ListBodyTruncated(a: Array, q: seq<byte>, j: nat)
    requires a.FixedSizeList? && ListElement(a.child) && WellFormed(a)
    requires |a.child.values| < MaxSlots && Len(a) <= |a.child.values|
    requires j < |NullSection(a) + (IntLE(Len(a), 4) + ValueSection(a.child))|
    requires q == (NullSection(a) + (IntLE(Len(a), 4) + ValueSection(a.child)))[..j]
    ensures ReadNulls(q).Ok? ==> ReadInt(ReadNulls(q).value.rest, 4).Ok? ==>
      ReadElements(ReadInt(ReadNulls(q).value.rest, 4).value.rest, KindType(a.child.kind)).Err?
  {
    var ns := NullSection(a);
    if j <= |ns| {
      TakeLeft(ns, IntLE(Len(a), 4) + ValueSection(a.child), j);
      NullsTruncated(a, j);
    } else {
      TakeRight(ns, IntLE(Len(a), 4) + ValueSection(a.child), j);
      ListTailTruncated(a, (IntLE(Len(a), 4) + ValueSection(a.child))[..j - |ns|]);
    }
  }

  /** The list count and the child's values, cut short after an intact null section. */
  lemma ListTailTruncated(a: Array, t: seq<byte>)
    requires a.FixedSizeList? && ListElement(a.child) && WellFormed(a)
    requires |a.child.values| < MaxSlots && Len(a) <= |a.child.values|
    requires 0 < |t| < 4 + |ValueSection(a.child)|
    requires t == (IntLE(Len(a), 4) + ValueSection(a.child))[..|t|]
    ensures var q := NullSection(a) + t;
      ReadNulls(q).Ok? ==> ReadInt(ReadNulls(q).value.rest, 4).Ok? ==>
      ReadElements(ReadInt(ReadNulls(q).value.rest, 4).value.rest, KindType(a.child.kind)).Err?
  {
    ReadNullsAfterWrite(a, t);
    if |t| >= 4 {
      var count := IntLE(Len(a), 4);
      var vs := ValueSection(a.child);
      TakeRight(count, vs, |t|);
      Halves(count, vs[..|t| - 4]);
      CountedTruncated(a.child, |t| - 4);
    }
  }

  /** A list encoding whose size field is intact and whose remainder does
      not decode. */
  lemma ListAfterSize(size: int, p: seq<byte>, elem: DataType)
    requires InSigned(size, 4) && |p| >= 4 && p[..4] == IntLE(size, 4)
    requires ReadNulls(p[4..]).Ok? ==> ReadInt(ReadNulls(p[4..]).value.rest, 4).Ok? ==>
      ReadElements(ReadInt(ReadNulls(p[4..]).value.rest, 4).value.rest, elem).Err?
    ensures ReadList(p, elem, size).Err?
  {
    IntRoundTrip(size, 4);
  }

  /** A fixed-size list's encoding cut short does not decode. */
  lemma ListTruncated(a: Array, k: nat)
    requires a.FixedSizeList? && ListElement(a.child) && WellFormed(a)
    requires InSigned(a.listSize, 4) && |a.child.values| < MaxSlots
    requires k < |Serialize(a).value|
    ensures ReadList(Serialize(a).value[..k], KindType(a.child.kind), a.listSize).Err?
  {
    if k >= 4 {
      ListCut(a, k);
    }
  }

  /** A list encoding cut past its size field. */
  lemma ListCut(a: Array, k: nat)
    requires a.FixedSizeList? && ListElement(a.child) && WellFormed(a)
    requires InSigned(a.listSize, 4) && |a.child.values| < MaxSlots
    requires 4 <= k < |Serialize(a).value|
    ensures ReadList(Serialize(a).value[..k], KindType(a.child.kind), a.listSize).Err?
  {
    ListLenBound(a);
    var size := IntLE(a.listSize, 4);
    var body := NullSection(a) + (IntLE(Len(a), 4) + ValueSection(a.child));
    ListSerialized(a);
    var p := (size + body)[..k];
    TakeRight(size, body, k);
    Halves(size, body[..k - 4]);
    ListBodyTruncated(a, p[4..], k - 4);
    ListAfterSize(a.listSize, p, KindType(a.child.kind));
  }

  /** A list's serialisation as its size field followed by the rest. */
  lemma ListSerialized(a: Array)
    requires a.FixedSizeList? && ListElement(a.child) && WellFormed(a)
    requires InSigned(a.listSize, 4) && Len(a) <= |a.child.values| < MaxSlots
    ensures Serialize(a).value
         == IntLE(a.listSize, 4) + (NullSection(a) + (IntLE(Len(a), 4) + ValueSection(a.child)))
  {
    assert ToInt32(a.listSize) == a.listSize && ToInt32(Len(a)) == Len(a);
    var size, nulls, count, values := IntLE(a.listSize, 4), NullSection(a), IntLE(Len(a), 4), ValueSection(a.child);
    assert Serialize(a).value == size + nulls + count + values;
    Regroup(size, nulls, count, values);
  }

  /** Every strict prefix of a restorable array's serialisation fails to
      decode under the array's type: no truncated page passes for an array. */
  lemma TruncatedFails(a: Array, k: nat)
    requires Restorable(a) && k < |Serialize(a).value|
    ensures Deserialize(Serialize(a).value[..k], TypeOf(a)).Err?
  {
    if a.Prim? {
      PrimTruncated(a, k);
    } else {
      ListTruncated(a, k);
      DeserializeList(a, Serialize(a).value[..k]);
    }
  }
}

/**
 * lance/format/page.go: a data page (a 30-byte header followed by the page
 * bytes, guarded by a CRC-32 checksum) and the page index list that records
 * where each page of each column lies in the file.
 */
module Pages {
  import opened Wrappers
  import opened Errors
  import opened Bytes
  import opened Format
  import Crc32
  import opened Seqs

  datatype Page = Page(
    ptype: byte,
    encoding: byte,
    columnIndex: int32,
    numValues: int32,
    uncompressedSize: int32,
    compressedSize: int32,
    checksum: uint32,
    data: seq<byte>,
    offset: int64)

  /** Type, encoding, five 4-byte words and 8 reserved bytes. */
  const HeaderSize: nat := 1 + 1 + 4 + 4 + 4 + 4 + 4 + 8

  function Checksum(data: seq<byte>): uint32
  {
    Crc32.ChecksumIEEE(data)
  }

  /** `Validate`: the checks in source order; `None` is success. The length
      comparison is made after Go's `int32(len(p.Data))`. */
  function Validate(p: Page): (r: Option<Error>)
    ensures r.None? <==>
      && p.numValues >= 0
      && p.uncompressedSize >= 0
      && 0 <= p.compressedSize <= MaxPageSize
      && ToInt32(|p.data|) == p.compressedSize
      && Checksum(p.data) == p.checksum
  {
    if p.numValues < 0 then Some(Invalid("invalid num values"))
    else if p.uncompressedSize < 0 then Some(Invalid("invalid uncompressed size"))
    else if p.compressedSize < 0 || p.compressedSize > MaxPageSize then Some(Invalid("invalid compressed size"))
    else if ToInt32(|p.data|) != p.compressedSize then Some(Invalid("data size mismatch"))
    else if Checksum(p.data) != p.checksum then Some(Invalid("checksum mismatch"))
    else None
  }

  /** A valid page smaller than 2 GiB carries exactly `compressedSize` bytes. */
  lemma ValidSize(p: Page)
    requires Validate(p).None? && |p.data| < 0x8000_0000
    ensures |p.data| == p.compressedSize <= MaxPageSize
  {
  }

  /** `NewPage`: an empty page of the given column, type and encoding. */
  function NewPage(columnIndex: int32, ptype: byte, encoding: byte): (p: Page)
    ensures p.columnIndex == columnIndex && p.ptype == ptype && p.encoding == encoding
    ensures p.data == [] && p.numValues == 0
    ensures Validate(p).None?
  {
    Page(ptype, encoding, columnIndex, 0, 0, 0, 0, [], 0)
  }

  /** `SetData`: store the bytes and derive size and checksum from them. The
      page then passes validation exactly when its counts are non-negative and
      the (wrapped) byte count is within the page limit. */
  function SetData(p: Page, data: seq<byte>, uncompressedSize: int32): (r: Page)
    ensures r.data == data && r.uncompressedSize == uncompressedSize
    ensures r == p.(data := data, uncompressedSize := uncompressedSize,
                    compressedSize := r.compressedSize, checksum := r.checksum)
    ensures r.compressedSize == ToInt32(|data|) && r.checksum == Checksum(data)
    ensures |data| <= MaxPageSize ==> r.compressedSize == |data|
    ensures Validate(r).None? <==>
      p.numValues >= 0 && uncompressedSize >= 0 && 0 <= ToInt32(|data|) <= MaxPageSize
  {
    p.(data := data, uncompressedSize := uncompressedSize,
       compressedSize := ToInt32(|data|), checksum := Checksum(data))
  }

  /** `EncodedSize`: header plus the recorded data size. */
  function EncodedSize(p: Page): int
  {
    HeaderSize + p.compressedSize
  }

  function HeaderBytes(p: Page): (b: seq<byte>)
    ensures |b| == HeaderSize
  {
    [p.ptype, p.encoding] + IntLE(p.columnIndex, 4) + IntLE(p.numValues, 4)
    + IntLE(p.uncompressedSize, 4) + IntLE(p.compressedSize, 4)
    + UIntLE(p.checksum, 4) + Zeros(8)
  }

  /** `WriteTo`: an invalid page yields an error and writes nothing; a valid
      one is its header followed by its bytes. */
  function WriteTo(p: Page): (r: Result<seq<byte>, Error>)
    ensures r.Ok? <==> Validate(p).None?
    ensures r.Err? ==> r.error == FileError("write page", Validate(p).value)
    ensures r.Ok? ==> |r.value| == HeaderSize + |p.data| && r.value[HeaderSize..] == p.data
    ensures r.Ok? ==> r.value[0] == p.ptype && r.value[1] == p.encoding
  {
    var err := Validate(p);
    if err.Some? then Err(FileError("write page", err.value))
    else Ok(HeaderBytes(p) + p.data)
  }

  /** A valid page below 2 GiB occupies exactly `EncodedSize` bytes. */
  lemma EncodedSizeMatches(p: Page)
    requires Validate(p).None? && |p.data| < 0x8000_0000
    ensures WriteTo(p).Ok? && |WriteTo(p).value| == EncodedSize(p)
  {
  }

  /** Parse the 30-byte header. Every field read is from the 28 bytes after
      type and encoding, so none of them can fail. */
  function ParseHeader(b: seq<byte>): (p: Page)
    requires |b| == HeaderSize
    ensures p.data == [] && p.offset == 0
  {
    Widths();
    Page(b[0], b[1], ParseIntLE(b[2..6]), ParseIntLE(b[6..10]), ParseIntLE(b[10..14]),
         ParseIntLE(b[14..18]), ParseUIntLE(b[18..22]), [], 0)
  }

  /** `ReadFrom` into a fresh page: read the header, allocate and read
      `compressedSize` bytes, then validate. A negative size makes `make`
      panic. The unread remainder of the input is returned alongside. */
  function ReadFrom(input: seq<byte>): (r: Result<Read<Page>, Error>)
    ensures |input| < HeaderSize ==> r == Err(FileError("read page header", ShortRead))
    ensures r.Ok? ==> Validate(r.value.val).None? && r.value.val.offset == 0
    ensures r.Ok? ==> input == input[..HeaderSize] + r.value.val.data + r.value.rest
  {
    match Take(input, HeaderSize)
    case Err(e) => Err(FileError("read page header", e))
    case Ok(hdr) =>
      var p := ParseHeader(hdr.val);
      if p.compressedSize < 0 then Err(Panic("make: negative page size"))
      else
        match Take(hdr.rest, p.compressedSize)
        case Err(e) => Err(FileError("read page data", e))
        case Ok(data) =>
          var page := p.(data := data.val);
          var err := Validate(page);
          if err.Some? then Err(err.value)
          else Ok(Read(page, data.rest))
  }

  /** The header bytes of a page are exactly what its fields print to. */
  lemma ParseHeaderBytes(b: seq<byte>, page: Page)
    requires |b| == HeaderSize && b[22..] == Zeros(8)
    requires page == ParseHeader(b).(data := page.data)
    ensures HeaderBytes(page) == b
  {
    ParseIntRoundTrip(b[2..6]);
    ParseIntRoundTrip(b[6..10]);
    ParseIntRoundTrip(b[10..14]);
    ParseIntRoundTrip(b[14..18]);
    ParseUIntRoundTrip(b[18..22]);
    assert b == [b[0], b[1]] + b[2..6] + b[6..10] + b[10..14] + b[14..18] + b[18..22] + b[22..];
  }

  lemma ParseHeaderOfBytes(p: Page)
    ensures ParseHeader(HeaderBytes(p)) == p.(data := [], offset := 0)
  {
    var b := HeaderBytes(p);
    assert b[2..6] == IntLE(p.columnIndex, 4);
    assert b[6..10] == IntLE(p.numValues, 4);
    assert b[10..14] == IntLE(p.uncompressedSize, 4);
    assert b[14..18] == IntLE(p.compressedSize, 4);
    assert b[18..22] == UIntLE(p.checksum, 4);
    IntRoundTrip(p.columnIndex, 4);
    IntRoundTrip(p.numValues, 4);
    IntRoundTrip(p.uncompressedSize, 4);
    IntRoundTrip(p.compressedSize, 4);
    UIntRoundTrip(p.checksum, 4);
  }

  /** Reading back what `WriteTo` wrote restores the page (its file offset is
      not part of the encoding) and consumes exactly its bytes. */
  lemma RoundTrip(p: Page, rest: seq<byte>)
    requires Validate(p).None? && |p.data| < 0x8000_0000
    ensures WriteTo(p).Ok?
    ensures ReadFrom(WriteTo(p).value + rest) == Ok(Read(p.(offset := 0), rest))
  {
    var hb := HeaderBytes(p);
    var input := WriteTo(p).value + rest;
    assert input == hb + (p.data + rest);
    TakeAfterWrite(hb, p.data + rest);
    ParseHeaderOfBytes(p);
    TakeAfterWrite(p.data, rest);
  }

  /** Conversely, when the reserved bytes are zero, writing a page read from
      the input reproduces the bytes it was read from. */
  lemma ReadThenWrite(input: seq<byte>)
    requires ReadFrom(input).Ok? && input[22..HeaderSize] == Zeros(8)
    ensures WriteTo(ReadFrom(input).value.val).value + ReadFrom(input).value.rest == input
  {
    var r := ReadFrom(input).value;
    ParseHeaderBytes(input[..HeaderSize], r.val);
  }

  /** A stored checksum that does not match the bytes is always rejected. */
  lemma CorruptionDetected(input: seq<byte>)
    requires |input| >= HeaderSize
    requires ParseIntLE(input[14..18]) >= 0 && |input| >= HeaderSize + ParseIntLE(input[14..18])
    requires Checksum(input[HeaderSize..HeaderSize + ParseIntLE(input[14..18])]) != ParseUIntLE(input[18..22])
    ensures ReadFrom(input).Err?
  {
    var hdr := input[..HeaderSize];
    assert hdr[14..18] == input[14..18];
    assert hdr[18..22] == input[18..22];
    assert input[HeaderSize..][..ParseIntLE(input[14..18])] == input[HeaderSize..HeaderSize + ParseIntLE(input[14..18])];
  }

  // ---------------------------------------------------------------------
  // Page index list

  datatype PageIndex = PageIndex(
    columnIndex: int32,
    pageNum: int32,
    offset: int64,
    size: int32,
    numValues: int32)

  /** Column, page number, offset, size, value count. */
  const EntrySize: nat := 4 + 4 + 8 + 4 + 4

  /** `Add`: append one entry, keeping the ones before it. */
  function Add(l: seq<PageIndex>, columnIndex: int32, pageNum: int32, offset: int64,
               size: int32, numValues: int32): (r: seq<PageIndex>)
    ensures |r| == |l| + 1 && r[..|l|] == l
    ensures r[|l|] == PageIndex(columnIndex, pageNum, offset, size, numValues)
  {
    l + [PageIndex(columnIndex, pageNum, offset, size, numValues)]
  }

  /** The entries of one column, in list order: the reference for `FindByColumn`. */
  function ForColumn(l: seq<PageIndex>, c: int): (r: seq<PageIndex>)
    ensures |r| <= |l|
    ensures forall e :: e in r <==> e in l && e.columnIndex == c
  {
    if |l| == 0 then []
    else ForColumn(l[..|l| - 1], c) + (if l[|l| - 1].columnIndex == c then [l[|l| - 1]] else [])
  }

  lemma {:induction false} ForColumnConcat(a: seq<PageIndex>, b: seq<PageIndex>, c: int)
    ensures ForColumn(a + b, c) == ForColumn(a, c) + ForColumn(b, c)
    decreases |b|
  {
    if |b| > 0 {
      var b' := b[..|b| - 1];
      assert (a + b)[..|a + b| - 1] == a + b';
      ForColumnConcat(a, b', c);
    } else {
      assert a + b == a;
    }
  }

  /** `Add` extends the entries of the added entry's column, and only those. */
  lemma ForColumnAdd(l: seq<PageIndex>, columnIndex: int32, pageNum: int32, offset: int64,
                     size: int32, numValues: int32, c: int)
    ensures ForColumn(Add(l, columnIndex, pageNum, offset, size, numValues), c)
         == ForColumn(l, c) + (if columnIndex == c then [PageIndex(columnIndex, pageNum, offset, size, numValues)] else [])
  {
    var r := Add(l, columnIndex, pageNum, offset, size, numValues);
    assert r[..|r| - 1] == l;
  }

  /** `FindByColumn`: the loop over the list, collecting matching entries. */
  method FindByColumn(l: seq<PageIndex>, c: int32) returns (result: seq<PageIndex>)
    ensures result == ForColumn(l, c)
    ensures forall i :: 0 <= i < |result| ==> result[i].columnIndex == c
  {
    result := [];
    for i := 0 to |l|
      invariant result == ForColumn(l[..i], c)
    {
      assert l[..i + 1][..i] == l[..i];
      result := result + (if l[i].columnIndex == c then [l[i]] else []);
    }
    assert l[..|l|] == l;
  }

  /** `EncodedSize` of the list: a count and 24 bytes per entry. */
  function IndexEncodedSize(l: seq<PageIndex>): nat
  {
    4 + |l| * EntrySize
  }

  function EntryBytes(e: PageIndex): (b: seq<byte>)
    ensures |b| == EntrySize
  {
    IntLE(e.columnIndex, 4) + IntLE(e.pageNum, 4) + IntLE(e.offset, 8)
    + IntLE(e.size, 4) + IntLE(e.numValues, 4)
  }

  function EntriesBytes(l: seq<PageIndex>): (b: seq<byte>)
    ensures |b| == |l| * EntrySize
  {
    if |l| == 0 then [] else EntryBytes(l[0]) + EntriesBytes(l[1..])
  }

  /** `WriteTo` of the list: `int32(len)` then every entry; it never fails. */
  function IndexWriteTo(l: seq<PageIndex>): (b: seq<byte>)
    ensures |b| == IndexEncodedSize(l)
  {
    IntLE(ToInt32(|l|), 4) + EntriesBytes(l)
  }

  function ReadEntry(input: seq<byte>): (r: Result<Read<PageIndex>, Error>)
    ensures r.Ok? <==> |input| >= EntrySize
    ensures r.Ok? ==> r.value.rest == input[EntrySize..]
  {
    var col :- ReadInt(input, 4);
    var num :- ReadInt(col.rest, 4);
    var off :- ReadInt(num.rest, 8);
    var size :- ReadInt(off.rest, 4);
    var nv :- ReadInt(size.rest, 4);
    Ok(Read(PageIndex(col.val, num.val, off.val, size.val, nv.val), nv.rest))
  }

  function ReadEntries(input: seq<byte>, count: nat): (r: Result<Read<seq<PageIndex>>, Error>)
    ensures r.Ok? <==> |input| >= count * EntrySize
    ensures r.Ok? ==> |r.value.val| == count && r.value.rest == input[count * EntrySize..]
  {
    if count == 0 then Ok(Read([], input))
    else
      var e :- ReadEntry(input);
      var es :- ReadEntries(e.rest, count - 1);
      Ok(Read([e.val] + es.val, es.rest))
  }

  /** `ReadFrom` of the list: a count (a negative one makes `make` panic),
      then that many entries; a short input fails. */
  function IndexReadFrom(input: seq<byte>): (r: Result<Read<seq<PageIndex>>, Error>)
    ensures |input| < 4 ==> r == Err(FileError("read page index count", ShortRead))
    ensures r.Ok? ==> |input| == IndexEncodedSize(r.value.val) + |r.value.rest|
  {
    match ReadInt(input, 4)
    case Err(e) => Err(FileError("read page index count", e))
    case Ok(count) =>
      if count.val < 0 then Err(Panic("make: negative page index count"))
      else ReadEntries(count.rest, count.val)
  }

  lemma ReadEntryAfterWrite(e: PageIndex, rest: seq<byte>)
    ensures ReadEntry(EntryBytes(e) + rest) == Ok(Read(e, rest))
  {
    var s4 := IntLE(e.numValues, 4) + rest;
    var s3 := IntLE(e.size, 4) + s4;
    var s2 := IntLE(e.offset, 8) + s3;
    var s1 := IntLE(e.pageNum, 4) + s2;
    assert EntryBytes(e) + rest == IntLE(e.columnIndex, 4) + s1;
    ReadIntAfterWrite(e.columnIndex, 4, s1);
    ReadIntAfterWrite(e.pageNum, 4, s2);
    ReadIntAfterWrite(e.offset, 8, s3);
    ReadIntAfterWrite(e.size, 4, s4);
    ReadIntAfterWrite(e.numValues, 4, rest);
  }

  /** One encoded entry in front of `n` readable ones makes `n + 1`. */
  lemma ReadEntriesCons(e: PageIndex, tail: seq<byte>, n: nat, es: seq<PageIndex>, rest: seq<byte>)
    requires ReadEntries(tail, n) == Ok(Read(es, rest))
    ensures ReadEntries(EntryBytes(e) + tail, n + 1) == Ok(Read([e] + es, rest))
  {
    ReadEntryAfterWrite(e, tail);
  }

  lemma {:induction false} ReadEntriesAfterWrite(l: seq<PageIndex>, rest: seq<byte>)
    ensures ReadEntries(EntriesBytes(l) + rest, |l|) == Ok(Read(l, rest))
  {
    if |l| > 0 {
      var tail := EntriesBytes(l[1..]) + rest;
      assert EntriesBytes(l) == EntryBytes(l[0]) + EntriesBytes(l[1..]);
      Assoc(EntryBytes(l[0]), EntriesBytes(l[1..]), rest);
      ReadEntriesAfterWrite(l[1..], rest);
      ReadEntriesCons(l[0], tail, |l| - 1, l[1..], rest);
      SplitFirst(l);
    }
  }

  /** Reading back a written index list (of fewer than 2^31 entries) restores it. */
  lemma IndexRoundTrip(l: seq<PageIndex>, rest: seq<byte>)
    requires |l| < 0x8000_0000
    ensures IndexReadFrom(IndexWriteTo(l) + rest) == Ok(Read(l, rest))
  {
    assert IndexWriteTo(l) + rest == IntLE(|l|, 4) + (EntriesBytes(l) + rest);
    ReadIntAfterWrite(|l|, 4, EntriesBytes(l) + rest);
    ReadEntriesAfterWrite(l, rest);
  }
}

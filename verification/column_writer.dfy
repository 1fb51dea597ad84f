/**
 * lance/column/writer.go: a file is a header padded to a reserved 8 KiB,
 * then one page per column per record batch, appended in order, each
 * recorded in the footer's page index list; closing rewrites the header in
 * place with the final row count. The file is the byte sequence written so
 * far; the footer is kept as the structured list (its byte encoding is not
 * part of this model), and the schema's JSON bytes are given.
 */
module ColumnWriter {
  import opened Wrappers
  import opened Errors
  import opened Bytes
  import opened Arrow
  import opened Format
  import Header
  import opened Pages
  import opened PageWriter

  const HeaderReservedSize: nat := 8192

  datatype Writer = Writer(
    header: Header.Header,
    schemaJson: seq<byte>,
    file: seq<byte>,
    index: seq<PageIndex>,
    numPages: int32,
    currentPos: int64,
    encoding: byte,
    closed: bool)

  /** The writer after a call, and the error the call returned. A failed
      call may already have changed the writer, as the source's does. */
  datatype Step = Step(writer: Writer, err: Option<Error>)

  /** The bytes a header serialises to, at most the reserved size of them. */
  function HeaderBytes(h: Header.Header, schemaJson: seq<byte>): (r: Result<seq<byte>, Error>)
    requires |h.reserved| == 32
    ensures r.Ok? <==> Header.Validate(h).None? && Header.EncodedSize + 4 + |schemaJson| <= HeaderReservedSize
    ensures r.Ok? ==> r == Header.WriteTo(h, schemaJson)
  {
    match Header.WriteTo(h, schemaJson)
    case Err(e) => Err(Context("serialize header failed", e))
    case Ok(b) =>
      if |b| > HeaderReservedSize then Err(Invalid("header size exceeds reserved size"))
      else Ok(b)
  }

  /** `writeHeaderWithPadding`: the header, then zeros up to the reserved size. */
  function HeaderWithPadding(h: Header.Header, schemaJson: seq<byte>): (r: Result<seq<byte>, Error>)
    requires |h.reserved| == 32
    ensures r.Ok? <==> HeaderBytes(h, schemaJson).Ok?
    ensures r.Ok? ==> |r.value| == HeaderReservedSize
    ensures r.Ok? ==> var b := HeaderBytes(h, schemaJson).value;
      r.value[..|b|] == b && forall i :: |b| <= i < HeaderReservedSize ==> r.value[i] == 0
  {
    var b :- HeaderBytes(h, schemaJson);
    Ok(b + Zeros(HeaderReservedSize - |b|))
  }

  /** `NewWriter`: a header with no rows, padded; pages start after it. */
  function NewWriter(schema: Schema, schemaJson: seq<byte>, encoding: byte): (r: Result<Writer, Error>)
    ensures r.Ok? <==> Header.EncodedSize + 4 + |schemaJson| <= HeaderReservedSize
    ensures r.Ok? ==> var w := r.value;
      && w.header == Header.NewHeader(schema, 0) && w.schemaJson == schemaJson
      && |w.file| == HeaderReservedSize == w.currentPos
      && w.index == [] && !w.closed && w.encoding == encoding
  {
    var h := Header.NewHeader(schema, 0);
    match HeaderWithPadding(h, schemaJson)
    case Err(e) => Err(Context("write initial header failed", e))
    case Ok(file) => Ok(Writer(h, schemaJson, file, [], 0, HeaderReservedSize, encoding, false))
  }

  /** The pages of one column from `pageNum` on: each is written at the
      current position and recorded in the index. */
  function WritePageList(w: Writer, columnIndex: int32, pages: seq<Page>, pageNum: nat): (s: Step)
    requires pageNum <= |pages|
    ensures s.writer == w.(file := s.writer.file, index := s.writer.index, currentPos := s.writer.currentPos)
    ensures |s.writer.index| <= |w.index| + |pages| - pageNum
    ensures w.index <= s.writer.index && w.file <= s.writer.file
    decreases |pages| - pageNum
  {
    if pageNum == |pages| then Step(w, None)
    else
      var page := pages[pageNum];
      match Pages.WriteTo(page)
      case Err(e) => Step(w, Some(Context("write page failed", e)))
      case Ok(bytes) =>
        var n := |bytes|;
        var w' := w.(file := w.file + bytes,
                     currentPos := ToInt64(w.currentPos + n),
                     index := Add(w.index, columnIndex, ToInt32(pageNum), w.currentPos, ToInt32(n), page.numValues));
        WritePageList(w', columnIndex, pages, pageNum + 1)
  }

  /** `writeColumn`: the column's pages, then each page written. An array
      whose null bitmap does not cover it makes `IsNull` panic. */
  function WriteColumn(w: Writer, columnIndex: int32, a: Array): (s: Step)
    ensures s.writer == w.(file := s.writer.file, index := s.writer.index, currentPos := s.writer.currentPos)
    ensures w.index <= s.writer.index && w.file <= s.writer.file
  {
    if !WellFormed(a) then Step(w, Some(Panic("bitmap index out of range")))
    else
      match WritePages(Some(a), columnIndex, w.encoding)
      case Err(e) => Step(w, Some(Context("create pages failed", e)))
      case Ok(pages) => WritePageList(w, columnIndex, pages, 0)
  }

  /** The columns of a batch from `from` on, in order; the first failure stops. */
  function WriteColumns(w: Writer, batch: RecordBatch, from: nat): (s: Step)
    requires from <= |batch.columns|
    ensures s.writer == w.(file := s.writer.file, index := s.writer.index, currentPos := s.writer.currentPos)
    ensures w.index <= s.writer.index && w.file <= s.writer.file
    decreases |batch.columns| - from
  {
    if from == |batch.columns| then Step(w, None)
    else if from >= |batch.schema.fields| then Step(w, Some(Panic("index out of range")))
    else
      var s := WriteColumn(w, ToInt32(from), batch.columns[from]);
      if s.err.Some? then Step(s.writer, Some(Context("write column failed", s.err.value)))
      else
        WriteColumns(s.writer, batch, from + 1)
  }

  /** `WriteRecordBatch`: refused when closed, nil, or of another schema;
      otherwise the row count grows (as an int64) and the columns are written. */
  function WriteRecordBatch(w: Writer, batch: Option<RecordBatch>): (s: Step)
    ensures w.closed ==> s == Step(w, Some(Invalid("writer is closed")))
    ensures !w.closed && batch.None? ==> s == Step(w, Some(Invalid("batch is nil")))
    ensures !w.closed && batch.Some? && w.header.schema != Some(batch.value.schema) ==>
      s == Step(w, Some(Invalid("schema mismatch")))
    // The rows are counted before any column is written, so they stay
    // counted when a column then fails.
    ensures !w.closed && batch.Some? && w.header.schema == Some(batch.value.schema) ==>
      s.writer.header.numRows == ToInt64(w.header.numRows + batch.value.numRows)
    ensures s.writer.header == w.header.(numRows := s.writer.header.numRows)
    ensures w.index <= s.writer.index && w.file <= s.writer.file
    ensures s.writer.closed == w.closed && s.writer.schemaJson == w.schemaJson && s.writer.encoding == w.encoding
  {
    if w.closed then Step(w, Some(Invalid("writer is closed")))
    else if batch.None? then Step(w, Some(Invalid("batch is nil")))
    else if w.header.schema != Some(batch.value.schema) then Step(w, Some(Invalid("schema mismatch")))
    else
      var b := batch.value;
      var w' := w.(header := w.header.(numRows := ToInt64(w.header.numRows + b.numRows)));
      WriteColumns(w', b, 0)
  }

  /** `file.Write` at offset 0 over the existing bytes. */
  function Overwrite(file: seq<byte>, b: seq<byte>): (r: seq<byte>)
    ensures |r| == if |b| <= |file| then |file| else |b|
    ensures r[..|b|] == b
    ensures forall i :: |b| <= i < |file| ==> r[i] == file[i]
  {
    if |b| <= |file| then b + file[|b|..] else b
  }

  /** `Close`: refused the second time; otherwise the writer is marked
      closed, the footer's page count set, and the header rewritten in
      place. The header's reserved field is a 32-byte array. */
  function Close(w: Writer): (s: Step)
    requires |w.header.reserved| == 32
    ensures w.closed ==> s == Step(w, Some(Invalid("writer already closed")))
    ensures !w.closed ==> s.writer.closed && s.writer.numPages == ToInt32(|w.index|)
    ensures !w.closed ==> s.writer.index == w.index && s.writer.header == w.header
    ensures !w.closed ==> (s.err.None? <==> HeaderBytes(w.header, w.schemaJson).Ok?)
  {
    if w.closed then Step(w, Some(Invalid("writer already closed")))
    else
      var w' := w.(closed := true, numPages := ToInt32(|w.index|));
      match HeaderBytes(w.header, w.schemaJson)
      case Err(e) => Step(w', Some(e))
      case Ok(b) => Step(w'.(file := Overwrite(w.file, b)), None)
  }
}

/**
 * How the column writer lays a file out: a header padded to the reserved
 * space, then, for each record batch, one page per column in column order,
 * each recorded in the page index list at the offset it was written to.
 * The invariant is stated on the bytes: every index entry points at the
 * bytes of the page it records.
 */
module FileLayout {
  import opened Wrappers
  import opened Errors
  import opened Bytes
  import opened Arrow
  import opened Format
  import Header
  import opened Pages
  import opened PageWriter
  import opened PageCodec
  import opened ColumnReader
  import opened ColumnWriter
  import opened Seqs

  // ---------------------------------------------------------------------
  // Pages in the file

  /** What `WriteTo` writes for a valid page. */
  function PageBytes(p: Page): (b: seq<byte>)
    ensures Validate(p).None? ==> Pages.WriteTo(p) == Ok(b)
  {
    Pages.HeaderBytes(p) + p.data
  }

  /** The page's bytes sit in the file at the entry's offset, past the
      reserved header space. */
  predicate StoredAt(file: seq<byte>, e: PageIndex, p: Page)
  {
    && HeaderReservedSize <= e.offset
    && e.offset + |PageBytes(p)| <= |file|
    && file[e.offset .. e.offset + |PageBytes(p)|] == PageBytes(p)
  }

  /** `file'` holds `file`'s bytes past the reserved header space. */
  predicate SameFrom(file: seq<byte>, file': seq<byte>)
  {
    |file| <= |file'| && forall i :: HeaderReservedSize <= i < |file| ==> file'[i] == file[i]
  }

  lemma StoredKeep(file: seq<byte>, file': seq<byte>, e: PageIndex, p: Page)
    requires StoredAt(file, e, p) && SameFrom(file, file')
    ensures StoredAt(file', e, p)
  {
    assert file'[e.offset .. e.offset + |PageBytes(p)|] == file[e.offset .. e.offset + |PageBytes(p)|];
  }

  /** Appending to a file keeps what it held. */
  lemma GrowKeeps(file: seq<byte>, file': seq<byte>)
    requires file <= file'
    ensures SameFrom(file, file')
  {
  }

  /** Rewriting the header keeps every byte past the reserved space. */
  lemma OverwriteKeeps(file: seq<byte>, b: seq<byte>)
    requires |b| <= HeaderReservedSize
    ensures SameFrom(file, Overwrite(file, b))
  {
  }

  // ---------------------------------------------------------------------
  // Writing one column

  /** The writer's state between calls: the position is the file's length,
      past the reserved header. */
  predicate Good(w: Writer)
  {
    && |w.header.reserved| == 32
    && HeaderReservedSize <= |w.file| == w.currentPos
  }

  /** Arrays a column of the file can hold: restorable, not empty, and
      within the page limit once serialised. */
  predicate Storable(a: Array)
  {
    Restorable(a) && Len(a) > 0 && |Serialize(a).value| <= MaxPageSize
  }

  /** The single page `WritePages` makes of a storable array. */
  function ColumnPage(a: Array, c: int32, encoding: byte): (p: Page)
    requires Storable(a)
    ensures Validate(p).None? && p.offset == 0 && |p.data| <= MaxPageSize
  {
    WrittenPageValid(a, c, encoding);
    WritePages(Some(a), c, encoding).value[0]
  }

  /** Room for one more page before the position would wrap. */
  const PageRoom: nat := HeaderSize + MaxPageSize

  /** The writer once page `p` of column `c` is written at its position. */
  function AfterPage(w: Writer, c: int32, p: Page): (w': Writer)
    ensures w'.encoding == w.encoding
  {
    var bytes := PageBytes(p);
    w.(file := w.file + bytes, currentPos := ToInt64(w.currentPos + |bytes|),
       index := Add(w.index, c, ToInt32(0), w.currentPos, ToInt32(|bytes|), p.numValues))
  }

  /** A storable column is written as its single page, without error. */
  lemma WriteColumnIs(w: Writer, c: int32, a: Array)
    requires Storable(a)
    ensures WriteColumn(w, c, a) == Step(AfterPage(w, c, ColumnPage(a, c, w.encoding)), None)
  {
    var p := ColumnPage(a, c, w.encoding);
    assert WriteColumn(w, c, a) == WritePageList(AfterPage(w, c, p), c, [p], 1);
  }

  lemma AfterPageSpec(w: Writer, c: int32, p: Page)
    requires Good(w) && |PageBytes(p)| <= PageRoom && |w.file| + PageRoom < 0x8000_0000_0000_0000
    ensures var w' := AfterPage(w, c, p);
      && Good(w') && w'.index == w.index + [w'.index[|w.index|]]
      && w'.index[|w.index|].columnIndex == c && StoredAt(w'.file, w'.index[|w.index|], p)
      && w.file <= w'.file && |w'.file| <= |w.file| + PageRoom
  {
    var w' := AfterPage(w, c, p);
    assert w'.file[|w.file| .. |w.file| + |PageBytes(p)|] == PageBytes(p);
  }

  /** The page each column of a batch is written as. */
  function BatchPages(batch: RecordBatch, encoding: byte): (pages: seq<Page>)
    requires |batch.columns| < 0x8000_0000
    requires forall j :: 0 <= j < |batch.columns| ==> Storable(batch.columns[j])
    ensures |pages| == |batch.columns|
    ensures forall j :: 0 <= j < |pages| ==> |PageBytes(pages[j])| <= PageRoom
  {
    seq(|batch.columns|, j requires 0 <= j < |batch.columns| => ColumnPage(batch.columns[j], j, encoding))
  }

  /** The file bytes `n` more pages can take at most. */
  function Room(n: nat): nat
  {
    n * PageRoom
  }

  lemma RoomStep(n: nat)
    ensures Room(n + 1) == Room(n) + PageRoom
  {
  }

  /** Index entries for pages `from` on: one per column, in column order,
      each page stored at its entry's offset. */
  predicate ColumnEntries(file: seq<byte>, entries: seq<PageIndex>, pages: seq<Page>, from: nat)
  {
    && from + |entries| <= |pages|
    && forall j :: 0 <= j < |entries| ==>
         entries[j].columnIndex == from + j && StoredAt(file, entries[j], pages[from + j])
  }

  /** `w'` is `w` with pages `from` to `from + count` appended, each
      recorded and stored. */
  predicate Appended(w: Writer, w': Writer, pages: seq<Page>, from: nat, count: nat)
  {
    Grown(w, w', count) && ColumnEntries(w'.file, w'.index[|w.index|..], pages, from)
  }

  /** `w'` is `w` with `count` more entries and at most `count` pages' worth
      of bytes appended, and nothing else changed. */
  predicate Grown(w: Writer, w': Writer, count: nat)
  {
    && Good(w') && w'.encoding == w.encoding
    && w'.header == w.header && w'.schemaJson == w.schemaJson && w'.closed == w.closed
    && |w'.index| == |w.index| + count && w.index <= w'.index && w.file <= w'.file
    && |w'.file| <= |w.file| + Room(count)
  }

  lemma AppendedAfterPage(w: Writer, pages: seq<Page>, from: nat)
    requires Good(w) && from < |pages| && from < 0x8000_0000
    requires |PageBytes(pages[from])| <= PageRoom && |w.file| + PageRoom < 0x8000_0000_0000_0000
    ensures Appended(w, AfterPage(w, from, pages[from]), pages, from, 1)
  {
    var w1 := AfterPage(w, from, pages[from]);
    AfterPageSpec(w, from, pages[from]);
    assert w1.index[|w.index|..] == [w1.index[|w.index|]];
  }

  lemma AppendedCompose(w: Writer, w1: Writer, w2: Writer, pages: seq<Page>, from: nat, count: nat)
    requires Appended(w, w1, pages, from, 1) && Appended(w1, w2, pages, from + 1, count)
    ensures Appended(w, w2, pages, from, count + 1)
  {
    RoomStep(count);
    var e := w1.index[|w.index|];
    assert w1.index[|w.index|..][0] == e;
    GrowKeeps(w1.file, w2.file);
    StoredKeep(w1.file, w2.file, e, pages[from]);
    assert w2.index[|w.index|..] == [e] + w2.index[|w1.index|..];
    ColumnEntriesCons(w2.file, e, w2.index[|w1.index|..], pages, from);
  }

  lemma ColumnEntriesCons(file: seq<byte>, e: PageIndex, later: seq<PageIndex>, pages: seq<Page>, from: nat)
    requires from < |pages| && e.columnIndex == from && StoredAt(file, e, pages[from])
    requires ColumnEntries(file, later, pages, from + 1)
    ensures ColumnEntries(file, [e] + later, pages, from)
  {
    var entries := [e] + later;
    forall j | 0 <= j < |entries|
      ensures entries[j].columnIndex == from + j && StoredAt(file, entries[j], pages[from + j])
    {
      if j > 0 { assert entries[j] == later[j - 1]; }
    }
  }

  /** The writer once pages `from` on are written, one per column. */
  function AfterPages(w: Writer, pages: seq<Page>, from: nat): Writer
    requires from <= |pages| < 0x8000_0000
    decreases |pages| - from
  {
    if from == |pages| then w else AfterPages(AfterPage(w, from, pages[from]), pages, from + 1)
  }

  /** Column `j` of the batch is written, by every writer using `enc`, as page `pages[j]`. */
  ghost predicate WritesPage(batch: RecordBatch, pages: seq<Page>, enc: byte, from: nat)
    requires from <= |batch.columns| <= |pages| < 0x8000_0000
  {
    forall w: Writer, j :: w.encoding == enc && from <= j < |batch.columns| ==>
      WriteColumns(w, batch, j) == WriteColumns(AfterPage(w, j, pages[j]), batch, j + 1)
  }

  lemma {:induction false} WriteColumnsFrom(w: Writer, batch: RecordBatch, pages: seq<Page>, enc: byte, from: nat)
    requires from <= |batch.columns| == |pages| < 0x8000_0000
    requires w.encoding == enc && WritesPage(batch, pages, enc, from)
    ensures WriteColumns(w, batch, from) == Step(AfterPages(w, pages, from), None)
    decreases |batch.columns| - from
  {
    if from < |batch.columns| {
      WriteColumnsFrom(AfterPage(w, from, pages[from]), batch, pages, enc, from + 1);
    }
  }

  lemma BatchWritesPages(batch: RecordBatch, enc: byte)
    requires |batch.columns| == |batch.schema.fields| < 0x8000_0000
    requires forall j :: 0 <= j < |batch.columns| ==> Storable(batch.columns[j])
    ensures WritesPage(batch, BatchPages(batch, enc), enc, 0)
  {
    forall w: Writer, j | w.encoding == enc && 0 <= j < |batch.columns|
      ensures WriteColumns(w, batch, j) == WriteColumns(AfterPage(w, j, BatchPages(batch, enc)[j]), batch, j + 1)
    {
      WriteColumnsUnfold(w, batch, j);
    }
  }

  /** Writing storable columns writes their pages, one after another. */
  lemma WriteColumnsIs(w: Writer, batch: RecordBatch)
    requires |batch.columns| == |batch.schema.fields| < 0x8000_0000
    requires forall j :: 0 <= j < |batch.columns| ==> Storable(batch.columns[j])
    ensures WriteColumns(w, batch, 0) == Step(AfterPages(w, BatchPages(batch, w.encoding), 0), None)
  {
    BatchWritesPages(batch, w.encoding);
    WriteColumnsFrom(w, batch, BatchPages(batch, w.encoding), w.encoding, 0);
  }

  /** One column of a batch written: its page appended, then the rest. */
  lemma WriteColumnsUnfold(w: Writer, batch: RecordBatch, from: nat)
    requires from < |batch.columns| == |batch.schema.fields| < 0x8000_0000
    requires forall j :: 0 <= j < |batch.columns| ==> Storable(batch.columns[j])
    ensures WriteColumns(w, batch, from)
         == WriteColumns(AfterPage(w, from, BatchPages(batch, w.encoding)[from]), batch, from + 1)
  {
    WriteColumnIs(w, from, batch.columns[from]);
    WriteColumnsStep(w, batch, from);
  }

  /** The pages from `from` on, appended: each recorded and stored. */
  lemma {:induction false} AfterPagesSpec(w: Writer, pages: seq<Page>, from: nat)
    requires Good(w) && from <= |pages| < 0x8000_0000
    requires forall j :: 0 <= j < |pages| ==> |PageBytes(pages[j])| <= PageRoom
    requires |w.file| + Room(|pages| - from) < 0x8000_0000_0000_0000
    ensures Appended(w, AfterPages(w, pages, from), pages, from, |pages| - from)
    decreases |pages| - from
  {
    if from < |pages| {
      RoomStep(|pages| - from - 1);
      AppendedAfterPage(w, pages, from);
      var w1 := AfterPage(w, from, pages[from]);
      AfterPagesSpec(w1, pages, from + 1);
      AppendedCompose(w, w1, AfterPages(w1, pages, from + 1), pages, from, |pages| - from - 1);
    } else {
      AppendedNone(w, pages, from);
    }
  }

  lemma AppendedNone(w: Writer, pages: seq<Page>, from: nat)
    requires Good(w) && from <= |pages|
    ensures Appended(w, w, pages, from, 0)
  {
    assert w.index[|w.index|..] == [];
  }

  lemma WriteColumnsStep(w: Writer, batch: RecordBatch, from: nat)
    requires from < |batch.columns| && from < |batch.schema.fields|
    requires WriteColumn(w, ToInt32(from), batch.columns[from]).err.None?
    ensures WriteColumns(w, batch, from) == WriteColumns(WriteColumn(w, ToInt32(from), batch.columns[from]).writer, batch, from + 1)
  {
  }

  // ---------------------------------------------------------------------
  // Writing record batches

  /** A batch the writer of `schema` accepts and the reader restores: one
      storable column per field, each of the field's type, and a row count
      that is not negative. */
  predicate Writable(b: RecordBatch, schema: Schema)
  {
    && b.schema == schema && b.numRows >= 0
    && |b.columns| == |schema.fields| < 0x8000_0000
    && (forall j :: 0 <= j < |b.columns| ==> Storable(b.columns[j]))
    && (forall j :: 0 <= j < |b.columns| ==> TypeOf(b.columns[j]) == schema.fields[j].dtype)
  }

  predicate AllWritable(batches: seq<RecordBatch>, schema: Schema)
  {
    forall i :: 0 <= i < |batches| ==> Writable(batches[i], schema)
  }

  /** A client's calls: the batches written in order, the first failure
      stopping the rest. */
  function WriteBatches(w: Writer, batches: seq<RecordBatch>): (s: Step)
    ensures s.writer.header == w.header.(numRows := s.writer.header.numRows)
    ensures s.writer.closed == w.closed && s.writer.encoding == w.encoding
    ensures s.writer.schemaJson == w.schemaJson
  {
    if |batches| == 0 then Step(w, None)
    else
      var s := WriteBatches(w, batches[..|batches| - 1]);
      if s.err.Some? then s else WriteRecordBatch(s.writer, Some(batches[|batches| - 1]))
  }

  function TotalRows(batches: seq<RecordBatch>): int
  {
    if |batches| == 0 then 0 else TotalRows(batches[..|batches| - 1]) + batches[|batches| - 1].numRows
  }

  /** The index holds one block of entries per batch, in order; each block
      records the batch's pages, one per column, and every page's bytes sit
      in the file where its entry says. */
  predicate Layout(file: seq<byte>, index: seq<PageIndex>, batches: seq<RecordBatch>, schema: Schema, enc: byte)
    requires AllWritable(batches, schema)
    decreases |batches|
  {
    if |batches| == 0 then index == []
    else
      var n := |schema.fields|;
      && n <= |index|
      && Layout(file, index[..|index| - n], batches[..|batches| - 1], schema, enc)
      && ColumnEntries(file, index[|index| - n..], BatchPages(batches[|batches| - 1], enc), 0)
  }

  lemma ColumnEntriesKeep(file: seq<byte>, file': seq<byte>, entries: seq<PageIndex>, pages: seq<Page>, from: nat)
    requires ColumnEntries(file, entries, pages, from) && SameFrom(file, file')
    ensures ColumnEntries(file', entries, pages, from)
  {
    forall j | 0 <= j < |entries|
      ensures StoredAt(file', entries[j], pages[from + j])
    {
      StoredKeep(file, file', entries[j], pages[from + j]);
    }
  }

  /** The layout survives anything that keeps the bytes past the header. */
  lemma {:induction false} LayoutKeep(file: seq<byte>, file': seq<byte>, index: seq<PageIndex>,
                                      batches: seq<RecordBatch>, schema: Schema, enc: byte)
    requires AllWritable(batches, schema) && Layout(file, index, batches, schema, enc)
    requires SameFrom(file, file')
    ensures Layout(file', index, batches, schema, enc)
    decreases |batches|
  {
    if |batches| > 0 {
      var n := |schema.fields|;
      LayoutKeep(file, file', index[..|index| - n], batches[..|batches| - 1], schema, enc);
      ColumnEntriesKeep(file, file', index[|index| - n..], BatchPages(batches[|batches| - 1], enc), 0);
    }
  }

  /** The writer once a batch's rows are counted, as an int64. */
  function Counted(w: Writer, b: RecordBatch): Writer
  {
    w.(header := w.header.(numRows := ToInt64(w.header.numRows + b.numRows)))
  }

  /** An accepted batch: its rows counted, then its columns written. */
  lemma WriteRecordBatchIs(w: Writer, b: RecordBatch)
    ensures !w.closed && w.header.schema == Some(b.schema) ==>
      WriteRecordBatch(w, Some(b)) == WriteColumns(Counted(w, b), b, 0)
  {
  }

  /** One accepted batch: the row count grows by the batch's rows, and its
      pages are appended, one per column. */
  lemma BatchStep(w: Writer, b: RecordBatch, schema: Schema)
    requires Good(w) && !w.closed && w.header.schema == Some(schema) && Writable(b, schema)
    requires 0 <= w.header.numRows && w.header.numRows + b.numRows < 0x8000_0000_0000_0000
    requires |w.file| + Room(|b.columns|) < 0x8000_0000_0000_0000
    ensures WriteRecordBatch(w, Some(b)).err.None?
    ensures Appended(Counted(w, b), WriteRecordBatch(w, Some(b)).writer, BatchPages(b, w.encoding), 0, |b.columns|)
  {
    WriteRecordBatchIs(w, b);
    var w' := Counted(w, b);
    WriteColumnsIs(w', b);
    AfterPagesSpec(w', BatchPages(b, w.encoding), 0);
  }

  /** The room for `m` batches of `n` pages is that for `k` and one more. */
  lemma RoomAdd(k: nat, m: nat, n: nat)
    requires k + 1 == m
    ensures k * n + n == m * n
    ensures Room(k * n) + Room(n) == Room(m * n)
  {
  }

  lemma RoomMono(m: nat, n: nat)
    requires m <= n
    ensures Room(m) <= Room(n)
  {
  }

  /** What a fresh writer holds once the batches are written. */
  predicate WrittenAs(w0: Writer, w: Writer, batches: seq<RecordBatch>, schema: Schema)
    requires AllWritable(batches, schema)
  {
    && Tally(w0, w, |batches|, TotalRows(batches), |schema.fields|)
    && Layout(w.file, w.index, batches, schema, w0.encoding)
  }

  /** The writer after `k` batches of `n` columns holding `rows` rows. */
  predicate Tally(w0: Writer, w: Writer, k: nat, rows: int, n: nat)
  {
    && Good(w) && !w.closed && w.encoding == w0.encoding && w.schemaJson == w0.schemaJson
    && 0 <= rows < 0x8000_0000_0000_0000
    && w.header == w0.header.(numRows := rows)
    && |w.index| == k * n
    && |w.file| <= HeaderReservedSize + Room(k * n)
  }

  /** The tally after one more batch. */
  lemma TallyGrow(w0: Writer, w: Writer, b: RecordBatch, w2: Writer, k: nat, rows: int, n: nat, k': nat, rows': int)
    requires Tally(w0, w, k, rows, n) && 0 <= b.numRows && rows + b.numRows < 0x8000_0000_0000_0000
    requires Grown(Counted(w, b), w2, n)
    requires k' == k + 1 && rows' == rows + b.numRows
    ensures Tally(w0, w2, k', rows', n)
  {
    RoomAdd(k, k', n);
  }

  lemma {:induction false} TotalRowsBounds(batches: seq<RecordBatch>, schema: Schema)
    requires AllWritable(batches, schema)
    ensures 0 <= TotalRows(batches)
    ensures |batches| > 0 ==> TotalRows(batches[..|batches| - 1]) <= TotalRows(batches)
  {
    if |batches| > 0 { TotalRowsBounds(batches[..|batches| - 1], schema); }
  }

  /** Batches of the writer's schema are all written, without error, each as
      its pages in column order. */
  lemma {:induction false} WriteBatchesSpec(w0: Writer, batches: seq<RecordBatch>, schema: Schema)
    requires Good(w0) && !w0.closed && w0.index == [] && |w0.file| == HeaderReservedSize
    requires w0.header.schema == Some(schema) && w0.header.numRows == 0
    requires AllWritable(batches, schema)
    requires TotalRows(batches) < 0x8000_0000_0000_0000
    requires HeaderReservedSize + Room(|batches| * |schema.fields|) < 0x8000_0000_0000_0000
    ensures WriteBatches(w0, batches).err.None?
    ensures WrittenAs(w0, WriteBatches(w0, batches).writer, batches, schema)
  {
    if |batches| > 0 {
      var pre := batches[..|batches| - 1];
      TotalRowsBounds(batches, schema);
      RoomMono(|pre| * |schema.fields|, |batches| * |schema.fields|);
      WriteBatchesSpec(w0, pre, schema);
      WrittenStep(w0, WriteBatches(w0, pre).writer, batches, schema);
    }
  }

  /** The invariant after one more batch. */
  lemma WrittenStep(w0: Writer, w: Writer, batches: seq<RecordBatch>, schema: Schema)
    requires |batches| > 0 && AllWritable(batches, schema) && w0.header.schema == Some(schema)
    requires WrittenAs(w0, w, batches[..|batches| - 1], schema)
    requires TotalRows(batches) < 0x8000_0000_0000_0000
    requires HeaderReservedSize + Room(|batches| * |schema.fields|) < 0x8000_0000_0000_0000
    ensures WriteRecordBatch(w, Some(batches[|batches| - 1])).err.None?
    ensures WrittenAs(w0, WriteRecordBatch(w, Some(batches[|batches| - 1])).writer, batches, schema)
  {
    var s := WriteRecordBatch(w, Some(batches[|batches| - 1]));
    WrittenStepAs(w0, w, batches, schema, s);
  }

  lemma WrittenStepAs(w0: Writer, w: Writer, batches: seq<RecordBatch>, schema: Schema, s: Step)
    requires |batches| > 0 && AllWritable(batches, schema) && w0.header.schema == Some(schema)
    requires WrittenAs(w0, w, batches[..|batches| - 1], schema)
    requires TotalRows(batches) < 0x8000_0000_0000_0000
    requires HeaderReservedSize + Room(|batches| * |schema.fields|) < 0x8000_0000_0000_0000
    requires s == WriteRecordBatch(w, Some(batches[|batches| - 1]))
    ensures s.err.None? && WrittenAs(w0, s.writer, batches, schema)
  {
    var b := batches[|batches| - 1];
    BatchReady(w0, w, batches, schema);
    BatchStep(w, b, schema);
    WrittenGrow(w0, w, s.writer, batches, schema);
  }

  /** The writer left by the earlier batches accepts the last one. */
  lemma BatchReady(w0: Writer, w: Writer, batches: seq<RecordBatch>, schema: Schema)
    requires |batches| > 0 && AllWritable(batches, schema) && w0.header.schema == Some(schema)
    requires WrittenAs(w0, w, batches[..|batches| - 1], schema)
    requires TotalRows(batches) < 0x8000_0000_0000_0000
    requires HeaderReservedSize + Room(|batches| * |schema.fields|) < 0x8000_0000_0000_0000
    ensures var b := batches[|batches| - 1];
      && Good(w) && !w.closed && w.header.schema == Some(schema) && Writable(b, schema)
      && 0 <= w.header.numRows && w.header.numRows + b.numRows < 0x8000_0000_0000_0000
      && |w.file| + Room(|b.columns|) < 0x8000_0000_0000_0000
  {
    RoomAdd(|batches| - 1, |batches|, |schema.fields|);
  }

  /** The invariant holds once the last batch's pages are appended. */
  lemma WrittenGrow(w0: Writer, w: Writer, w2: Writer, batches: seq<RecordBatch>, schema: Schema)
    requires |batches| > 0 && AllWritable(batches, schema)
    requires WrittenAs(w0, w, batches[..|batches| - 1], schema)
    requires TotalRows(batches) < 0x8000_0000_0000_0000
    requires 0 <= batches[|batches| - 1].numRows
    requires var b := batches[|batches| - 1];
      Appended(Counted(w, b), w2, BatchPages(b, w.encoding), 0, |b.columns|)
    ensures WrittenAs(w0, w2, batches, schema)
  {
    var n := |schema.fields|;
    var pre := batches[..|batches| - 1];
    var b := batches[|batches| - 1];
    assert w.encoding == w0.encoding && |b.columns| == n;
    SplitLast(batches);
    TallyGrow(w0, w, b, w2, |pre|, TotalRows(pre), n, |batches|, TotalRows(batches));
    AppendedLayout(w, Counted(w, b), w2, pre, b, schema, w0.encoding);
  }

  /** A batch's block appended after the layout of the batches before it. */
  lemma AppendedLayout(w: Writer, w1: Writer, w2: Writer, pre: seq<RecordBatch>, b: RecordBatch, schema: Schema, enc: byte)
    requires AllWritable(pre, schema) && Writable(b, schema)
    requires Layout(w.file, w.index, pre, schema, enc)
    requires w1.file == w.file && w1.index == w.index
    requires Appended(w1, w2, BatchPages(b, enc), 0, |b.columns|)
    ensures AllWritable(pre + [b], schema)
    ensures Layout(w2.file, w2.index, pre + [b], schema, enc)
  {
    var batches := pre + [b];
    var n := |schema.fields|;
    assert batches[..|batches| - 1] == pre;
    assert w2.index[..|w2.index| - n] == w.index;
    GrowKeeps(w.file, w2.file);
    LayoutKeep(w.file, w2.file, w.index, pre, schema, enc);
  }
}

/**
 * Reading back a file the column writer produced: the header gives the row
 * count, each column's index entries lead to its pages in batch order, and
 * every column reads back, merged across batches, with the values and nulls
 * that were written.
 */
module FileRoundTrip {
  import opened Wrappers
  import opened Errors
  import opened Bytes
  import opened Arrow
  import opened Format
  import Header
  import opened Pages
  import opened PageWriter
  import opened PageReader
  import opened PageCodec
  import opened ColumnReader
  import opened ColumnWriter
  import opened FileLayout
  import opened Seqs

  // ---------------------------------------------------------------------
  // What a reader observes of a column

  /** A column as its reader sees it: primitive slots, or lists of a size. */
  datatype View =
    | Values(kind: PrimKind, slots: seq<Option<int>>)
    | Lists(size: int, kind: PrimKind, lists: seq<Option<seq<int>>>)
    | Opaque

  function ViewOf(a: Array): View
    requires WellFormed(a)
  {
    if a.Prim? then Values(a.kind, Logical(a))
    else if a.FixedSizeList? && a.child.Prim? then Lists(a.listSize, a.child.kind, ListLogical(a))
    else Opaque
  }

  /** Two views, one after the other; views of different shapes do not join. */
  function Join(v: View, u: View): View
  {
    if v.Values? && u.Values? && v.kind == u.kind then Values(v.kind, v.slots + u.slots)
    else if v.Lists? && u.Lists? && v.size == u.size && v.kind == u.kind then
      Lists(v.size, v.kind, v.lists + u.lists)
    else Opaque
  }

  function Concat(vs: seq<View>): View
    requires |vs| > 0
  {
    if |vs| == 1 then vs[0] else Join(vs[0], Concat(vs[1..]))
  }

  function Views(arrays: seq<Array>): (vs: seq<View>)
    requires forall i :: 0 <= i < |arrays| ==> WellFormed(arrays[i])
    ensures |vs| == |arrays|
  {
    seq(|arrays|, i requires 0 <= i < |arrays| => ViewOf(arrays[i]))
  }

  /** Column `c` of every batch. */
  function Column(batches: seq<RecordBatch>, c: int): (col: seq<Array>)
    requires 0 <= c && forall i :: 0 <= i < |batches| ==> c < |batches[i].columns|
    ensures |col| == |batches|
  {
    seq(|batches|, i requires 0 <= i < |batches| => batches[i].columns[c])
  }

  /** What the writer's batches hold in column `c`, one batch after another. */
  function Expected(batches: seq<RecordBatch>, schema: Schema, c: int): View
    requires |batches| > 0 && AllWritable(batches, schema) && 0 <= c < |schema.fields|
  {
    Concat(Views(Column(batches, c)))
  }

  // ---------------------------------------------------------------------
  // Merging agrees with joining the views

  lemma {:induction false} ConcatSlots(arrays: seq<Array>, k: PrimKind)
    requires |arrays| > 0 && AllPrim(arrays, k)
    ensures Concat(Views(arrays)) == Values(k, Slots(arrays, k))
  {
    var vs := Views(arrays);
    assert Slots(arrays, k) == Logical(arrays[0]) + Slots(arrays[1..], k);
    if |arrays| == 1 {
      assert Logical(arrays[0]) + [] == Logical(arrays[0]);
    } else {
      ConcatSlots(arrays[1..], k);
      assert Views(arrays[1..]) == vs[1..];
    }
  }

  lemma {:induction false} ConcatLists(arrays: seq<Array>, size: int, k: PrimKind)
    requires |arrays| > 0 && AllLists(arrays, size, k)
    ensures Concat(Views(arrays)) == Lists(size, k, ListSlots(arrays, size, k))
  {
    var vs := Views(arrays);
    assert ListSlots(arrays, size, k) == ListLogical(arrays[0]) + ListSlots(arrays[1..], size, k);
    if |arrays| == 1 {
      assert ListLogical(arrays[0]) + [] == ListLogical(arrays[0]);
    } else {
      ConcatLists(arrays[1..], size, k);
      assert Views(arrays[1..]) == vs[1..];
    }
  }

  /** An array the reader returns for a column of type `dtype`, as the
      merge functions expect it. */
  predicate Mergeable(a: Array, dtype: DataType)
  {
    WellFormed(a) && TypeOf(a) == dtype && (a.Prim? || (a.FixedSizeList? && ListElement(a.child)))
  }

  lemma KindTypeInjective(k: PrimKind, k': PrimKind)
    requires KindType(k) == KindType(k')
    ensures k == k'
  {
  }

  /** Several arrays of one type merge into an array whose view is theirs,
      one after another. */
  lemma MergedView(arrays: seq<Array>, dtype: DataType)
    requires |arrays| > 1 && forall i :: 0 <= i < |arrays| ==> Mergeable(arrays[i], dtype)
    ensures MergeArrays(arrays, dtype).Ok?
    ensures WellFormed(MergeArrays(arrays, dtype).value)
    ensures ViewOf(MergeArrays(arrays, dtype).value) == Concat(Views(arrays))
  {
    var a := arrays[0];
    if a.Prim? {
      var k := a.kind;
      forall i | 0 <= i < |arrays|
        ensures arrays[i].Prim? && arrays[i].kind == k
      {
        KindTypeInjective(arrays[i].kind, k);
      }
      assert AllPrim(arrays, k);
      ConcatSlots(arrays, k);
      assert MergeArrays(arrays, dtype) == MergePrim(arrays, k);
    } else {
      var k := a.child.kind;
      var size := a.listSize;
      assert ElemKind(KindType(k)) == k;
      forall i | 0 <= i < |arrays|
        ensures arrays[i].FixedSizeList? && arrays[i].child.Prim? && arrays[i].child.kind == k
        ensures arrays[i].listSize == size
      {
        KindTypeInjective(arrays[i].child.kind, k);
      }
      assert AllLists(arrays, size, k);
      ConcatLists(arrays, size, k);
      assert MergeArrays(arrays, dtype) == MergeLists(arrays, KindType(k), size);
    }
  }

  /** An array read back with the same contents and type has the same view. */
  lemma SameView(a: Array, b: Array)
    requires WellFormed(a) && WellFormed(b) && SameContents(a, b) && TypeOf(a) == TypeOf(b)
    ensures ViewOf(a) == ViewOf(b)
  {
    if a.FixedSizeList? {
      KindTypeInjective(a.child.kind, b.child.kind);
    }
  }

  // ---------------------------------------------------------------------
  // Pages of a column, read back

  /** A page stored at an entry's offset reads back as itself. */
  lemma ReadStored(file: seq<byte>, e: PageIndex, p: Page)
    requires StoredAt(file, e, p) && Pages.Validate(p).None? && p.offset == 0 && |p.data| < 0x8000_0000
    ensures ReadPageAt(file, e) == Ok(p)
  {
    var end := e.offset + |PageBytes(p)|;
    var rest := file[end..];
    assert file[e.offset..] == PageBytes(p) + rest;
    Pages.RoundTrip(p, rest);
  }

  /** Entry `i` leads to page `i`. */
  predicate PagesAt(file: seq<byte>, entries: seq<PageIndex>, pages: seq<Page>)
  {
    |entries| == |pages| && forall i :: 0 <= i < |pages| ==> StoredAt(file, entries[i], pages[i])
  }

  /** Array `x`, read back, has the contents of `a` and the type `dtype`. */
  predicate RestoredAs(a: Array, x: Array, dtype: DataType)
  {
    WellFormed(a) && WellFormed(x) && TypeOf(x) == dtype && SameContents(a, x)
  }

  /** Each array read back has the contents and the type of the column written. */
  predicate Restored(cols: seq<Array>, arrays: seq<Array>, dtype: DataType)
  {
    |arrays| == |cols| && forall i :: 0 <= i < |cols| ==> RestoredAs(cols[i], arrays[i], dtype)
  }

  /** The page at entry `e` reads back as an array restoring `a`. */
  predicate PageReads(file: seq<byte>, e: PageIndex, a: Array, dtype: DataType)
  {
    && ReadPageAt(file, e).Ok?
    && ReadPage(Some(ReadPageAt(file, e).value), dtype).Ok?
    && RestoredAs(a, ReadPage(Some(ReadPageAt(file, e).value), dtype).value, dtype)
  }

  /** Page `p` is what column `c`'s array `a`, of type `dtype`, was written as. */
  predicate WrittenAsPage(a: Array, p: Page, c: int32, enc: byte, dtype: DataType)
  {
    Storable(a) && TypeOf(a) == dtype && p == ColumnPage(a, c, enc)
  }

  /** The page of one stored column reads back with the column's contents. */
  lemma ReadOneStored(file: seq<byte>, e: PageIndex, a: Array, p: Page, c: int32, enc: byte, dtype: DataType)
    requires WrittenAsPage(a, p, c, enc, dtype) && StoredAt(file, e, p)
    ensures ReadPageAt(file, e) == Ok(p)
    ensures PageReads(file, e, a, dtype)
  {
    ReadStored(file, e, p);
    PageRoundTrip(a, c, enc);
  }

  lemma ReadArraysCons(file: seq<byte>, entries: seq<PageIndex>, dtype: DataType, a: Array, rest: seq<Array>)
    requires |entries| > 0 && PageReads(file, entries[0], a, dtype)
    requires ReadArrays(file, entries[1..], dtype) == Ok(rest)
    ensures ReadArrays(file, entries, dtype).Ok?
    ensures ReadArrays(file, entries, dtype).value
         == [ReadPage(Some(ReadPageAt(file, entries[0]).value), dtype).value] + rest
  {
  }

  lemma RestoredCons(a: Array, x: Array, cols: seq<Array>, arrays: seq<Array>, dtype: DataType)
    requires RestoredAs(a, x, dtype) && Restored(cols, arrays, dtype)
    ensures Restored([a] + cols, [x] + arrays, dtype)
  {
    var cs, xs := [a] + cols, [x] + arrays;
    forall i | 1 <= i < |cs|
      ensures RestoredAs(cs[i], xs[i], dtype)
    {
      assert cs[i] == cols[i - 1] && xs[i] == arrays[i - 1];
    }
  }

  /** Entries whose pages each read back as the matching column read back,
      together, as arrays restoring the columns in order. */
  lemma {:induction false} ReadArraysEach(file: seq<byte>, entries: seq<PageIndex>, cols: seq<Array>, dtype: DataType)
    requires |entries| == |cols| && forall i :: 0 <= i < |cols| ==> PageReads(file, entries[i], cols[i], dtype)
    ensures ReadArrays(file, entries, dtype).Ok?
    ensures Restored(cols, ReadArrays(file, entries, dtype).value, dtype)
  {
    if |cols| > 0 {
      var es, cs := entries[1..], cols[1..];
      assert forall i :: 0 <= i < |cs| ==> es[i] == entries[i + 1] && cs[i] == cols[i + 1];
      ReadArraysEach(file, es, cs, dtype);
      var rest := ReadArrays(file, es, dtype).value;
      ReadArraysCons(file, entries, dtype, cols[0], rest);
      var x := ReadPage(Some(ReadPageAt(file, entries[0]).value), dtype).value;
      RestoredCons(cols[0], x, cs, rest, dtype);
      SplitFirst(cols);
    }
  }

  /** Reading the pages of such entries gives, in order, arrays with the
      contents of the columns written. */
  lemma ReadArraysStored(file: seq<byte>, entries: seq<PageIndex>, pages: seq<Page>,
                         cols: seq<Array>, c: int32, enc: byte, dtype: DataType)
    requires |pages| == |cols| && forall i :: 0 <= i < |cols| ==> WrittenAsPage(cols[i], pages[i], c, enc, dtype)
    requires PagesAt(file, entries, pages)
    ensures ReadArrays(file, entries, dtype).Ok?
    ensures Restored(cols, ReadArrays(file, entries, dtype).value, dtype)
  {
    forall i | 0 <= i < |cols|
      ensures PageReads(file, entries[i], cols[i], dtype)
    {
      ReadOneStored(file, entries[i], cols[i], pages[i], c, enc, dtype);
    }
    ReadArraysEach(file, entries, cols, dtype);
  }

  /** The first `m` entries of a batch's block hold at most one entry of column `c`. */
  lemma {:induction false} ForColumnBlock(block: seq<PageIndex>, c: int, m: nat)
    requires m <= |block| && forall j :: 0 <= j < |block| ==> block[j].columnIndex == j
    ensures ForColumn(block[..m], c) == if 0 <= c < m then [block[c]] else []
  {
    if m > 0 {
      assert block[..m][..m - 1] == block[..m - 1];
      ForColumnBlock(block, c, m - 1);
    }
  }

  /** A batch's block of entries holds exactly one entry of column `c`. */
  lemma BlockColumn(block: seq<PageIndex>, c: int)
    requires 0 <= c < |block| && forall j :: 0 <= j < |block| ==> block[j].columnIndex == j
    ensures ForColumn(block, c) == [block[c]]
  {
    ForColumnBlock(block, c, |block|);
    assert block[..|block|] == block;
  }

  /** The pages column `c` was written as, one per batch. */
  function ColumnPages(batches: seq<RecordBatch>, schema: Schema, enc: byte, c: int): (pages: seq<Page>)
    requires AllWritable(batches, schema) && 0 <= c < |schema.fields|
    ensures |pages| == |batches|
  {
    seq(|batches|, i requires 0 <= i < |batches| => BatchPages(batches[i], enc)[c])
  }

  lemma ColumnPagesSplit(batches: seq<RecordBatch>, schema: Schema, enc: byte, c: int)
    requires |batches| > 0 && AllWritable(batches, schema) && 0 <= c < |schema.fields|
    ensures AllWritable(batches[..|batches| - 1], schema)
    ensures ColumnPages(batches, schema, enc, c)
         == ColumnPages(batches[..|batches| - 1], schema, enc, c) + [BatchPages(batches[|batches| - 1], enc)[c]]
  {
    var pre := batches[..|batches| - 1];
    assert AllWritable(pre, schema);
    var a := ColumnPages(batches, schema, enc, c);
    var b := ColumnPages(pre, schema, enc, c) + [BatchPages(batches[|batches| - 1], enc)[c]];
    forall i | 0 <= i < |a|
      ensures a[i] == b[i]
    {
      if i < |pre| { assert pre[i] == batches[i]; }
    }
  }

  lemma PagesAtAppend(file: seq<byte>, e1: seq<PageIndex>, e2: seq<PageIndex>, p1: seq<Page>, p2: seq<Page>)
    requires PagesAt(file, e1, p1) && PagesAt(file, e2, p2)
    ensures PagesAt(file, e1 + e2, p1 + p2)
  {
    var es, ps := e1 + e2, p1 + p2;
    forall i | |p1| <= i < |ps|
      ensures StoredAt(file, es[i], ps[i])
    {
      assert es[i] == e2[i - |p1|] && ps[i] == p2[i - |p1|];
    }
  }

  /** The last batch's block: one entry of column `c`, leading to its page. */
  lemma LastBlock(file: seq<byte>, block: seq<PageIndex>, pages: seq<Page>, c: int)
    requires ColumnEntries(file, block, pages, 0) && |block| == |pages| && 0 <= c < |block|
    ensures ForColumn(block, c) == [block[c]]
    ensures PagesAt(file, [block[c]], [pages[c]])
  {
    BlockColumn(block, c);
  }

  /** The entries of column `c` in a file laid out batch by batch: one per
      batch, leading to that batch's page for the column. */
  lemma {:induction false} ForColumnLayout(file: seq<byte>, index: seq<PageIndex>, batches: seq<RecordBatch>,
                                           schema: Schema, enc: byte, c: int)
    requires AllWritable(batches, schema) && Layout(file, index, batches, schema, enc)
    requires 0 <= c < |schema.fields|
    ensures PagesAt(file, ForColumn(index, c), ColumnPages(batches, schema, enc, c))
    decreases |batches|
  {
    if |batches| > 0 {
      var n := |schema.fields|;
      var pre := batches[..|batches| - 1];
      var head := index[..|index| - n];
      var block := index[|index| - n..];
      var pages := BatchPages(batches[|batches| - 1], enc);
      ColumnPagesSplit(batches, schema, enc, c);
      ForColumnLayout(file, head, pre, schema, enc, c);
      LastBlock(file, block, pages, c);
      PagesAtAppend(file, ForColumn(head, c), [block[c]], ColumnPages(pre, schema, enc, c), [pages[c]]);
      SplitAt(index, |index| - n);
      ForColumnConcat(head, block, c);
    }
  }

  // ---------------------------------------------------------------------
  // Reading a column and a record batch back

  /** The arrays read back for column `c` have the view of the batches' column `c`. */
  lemma RestoredViews(cols: seq<Array>, arrays: seq<Array>, dtype: DataType)
    requires Restored(cols, arrays, dtype)
    requires forall i :: 0 <= i < |cols| ==> Restorable(cols[i]) && TypeOf(cols[i]) == dtype
    ensures forall i :: 0 <= i < |arrays| ==> Mergeable(arrays[i], dtype)
    ensures Views(arrays) == Views(cols)
  {
    forall i | 0 <= i < |arrays|
      ensures Mergeable(arrays[i], dtype) && ViewOf(arrays[i]) == ViewOf(cols[i])
    {
      SameView(cols[i], arrays[i]);
      if cols[i].FixedSizeList? {
        KindTypeInjective(arrays[i].child.kind, cols[i].child.kind);
      }
    }
  }

  /** `readColumn` once the arrays are read: one is returned, several merged. */
  lemma ReadColumnIs(r: Reader, c: int32, arrays: seq<Array>)
    requires 0 <= c < |r.schema.fields| && |ForColumn(r.index, c)| > 0
    requires ReadArrays(r.file, ForColumn(r.index, c), r.schema.fields[c].dtype) == Ok(arrays)
    ensures ReadColumn(r, c) == if |arrays| == 1 then Ok(arrays[0]) else MergeArrays(arrays, r.schema.fields[c].dtype)
  {
  }

  /** The reader returns column `c` with the view of the batches' column
      `c`, one batch after another. */
  lemma ReadColumnStored(r: Reader, batches: seq<RecordBatch>, schema: Schema, enc: byte, c: int32)
    requires |batches| > 0 && AllWritable(batches, schema) && r.schema == schema
    requires Layout(r.file, r.index, batches, schema, enc)
    requires 0 <= c < |schema.fields|
    ensures ReadColumn(r, c).Ok? && WellFormed(ReadColumn(r, c).value)
    ensures ViewOf(ReadColumn(r, c).value) == Expected(batches, schema, c)
  {
    var entries := ForColumn(r.index, c);
    var cols := Column(batches, c);
    var pages := ColumnPages(batches, schema, enc, c);
    var dtype := schema.fields[c].dtype;
    ForColumnLayout(r.file, r.index, batches, schema, enc, c);
    ColumnPagesAre(batches, schema, enc, c);
    ReadArraysStored(r.file, entries, pages, cols, c, enc, dtype);
    var arrays := ReadArrays(r.file, entries, dtype).value;
    RestoredViews(cols, arrays, dtype);
    ReadColumnIs(r, c, arrays);
    if |arrays| > 1 {
      MergedView(arrays, dtype);
    }
  }

  /** Page `i` of column `c` is column `c` of batch `i`, written as a page. */
  lemma ColumnPagesAre(batches: seq<RecordBatch>, schema: Schema, enc: byte, c: int32)
    requires AllWritable(batches, schema) && 0 <= c < |schema.fields|
    ensures var cols, pages := Column(batches, c), ColumnPages(batches, schema, enc, c);
      && |pages| == |cols|
      && forall i :: 0 <= i < |cols| ==> WrittenAsPage(cols[i], pages[i], c, enc, schema.fields[c].dtype)
  {
  }

  /** What each column of the schema holds across the batches. */
  function ExpectedColumns(batches: seq<RecordBatch>, schema: Schema): (vs: seq<View>)
    requires |batches| > 0 && AllWritable(batches, schema)
    ensures |vs| == |schema.fields|
  {
    seq(|schema.fields|, c requires 0 <= c < |schema.fields| => Expected(batches, schema, c))
  }

  /** Columns read back with the expected views from `from` on. */
  predicate ColumnsRestored(cols: seq<Array>, expected: seq<View>, from: nat)
  {
    forall j :: 0 <= j < |cols| ==>
      from + j < |expected| && WellFormed(cols[j]) && ViewOf(cols[j]) == expected[from + j]
  }

  lemma ColumnsRestoredCons(x: Array, rest: seq<Array>, expected: seq<View>, from: nat)
    requires from < |expected| && WellFormed(x) && ViewOf(x) == expected[from]
    requires ColumnsRestored(rest, expected, from + 1)
    ensures ColumnsRestored([x] + rest, expected, from)
  {
    var cols := [x] + rest;
    forall j | 1 <= j < |cols|
      ensures from + j < |expected| && WellFormed(cols[j]) && ViewOf(cols[j]) == expected[from + j]
    {
      assert cols[j] == rest[j - 1];
    }
  }

  lemma ReadColumnsCons(r: Reader, from: nat, x: Array, rest: seq<Array>)
    requires from < |r.schema.fields| && ReadColumn(r, ToInt32(from)) == Ok(x)
    requires ReadColumns(r, from + 1) == Ok(rest)
    ensures ReadColumns(r, from) == Ok([x] + rest)
  {
  }

  /** Column `c` reads back with view `v`. */
  predicate ColumnReads(r: Reader, c: nat, v: View)
  {
    ReadColumn(r, ToInt32(c)).Ok? && WellFormed(ReadColumn(r, ToInt32(c)).value) && ViewOf(ReadColumn(r, ToInt32(c)).value) == v
  }

  /** When every column from `from` on reads back, so do they all together. */
  lemma {:induction false} ReadColumnsEach(r: Reader, expected: seq<View>, from: nat)
    requires from <= |r.schema.fields| == |expected|
    requires forall c :: from <= c < |expected| ==> ColumnReads(r, c, expected[c])
    ensures ReadColumns(r, from).Ok?
    ensures ColumnsRestored(ReadColumns(r, from).value, expected, from)
    decreases |expected| - from
  {
    if from < |expected| {
      assert ColumnReads(r, from, expected[from]);
      ReadColumnsEach(r, expected, from + 1);
      var x := ReadColumn(r, ToInt32(from)).value;
      var rest := ReadColumns(r, from + 1).value;
      ReadColumnsCons(r, from, x, rest);
      ColumnsRestoredCons(x, rest, expected, from);
    }
  }

  /** Every column of a file laid out batch by batch reads back. */
  lemma ReadColumnsStored(r: Reader, batches: seq<RecordBatch>, schema: Schema, enc: byte)
    requires |batches| > 0 && AllWritable(batches, schema) && r.schema == schema
    requires Layout(r.file, r.index, batches, schema, enc)
    ensures ReadColumns(r, 0).Ok?
    ensures ColumnsRestored(ReadColumns(r, 0).value, ExpectedColumns(batches, schema), 0)
  {
    var expected := ExpectedColumns(batches, schema);
    forall c | 0 <= c < |expected|
      ensures ColumnReads(r, c, expected[c])
    {
      ReadColumnStored(r, batches, schema, enc, ToInt32(c));
    }
    ReadColumnsEach(r, expected, 0);
  }

  /** An open reader over a file laid out batch by batch returns one batch
      of the schema whose every column holds the batches' columns in order. */
  lemma ReadBatchStored(r: Reader, batches: seq<RecordBatch>, schema: Schema, enc: byte)
    requires |batches| > 0 && AllWritable(batches, schema) && r.schema == schema && !r.closed
    requires Layout(r.file, r.index, batches, schema, enc)
    ensures ReadRecordBatch(r).Ok?
    ensures var out := ReadRecordBatch(r).value;
      && out.schema == schema && out.numRows == r.numRows && |out.columns| == |schema.fields|
      && forall c :: 0 <= c < |schema.fields| ==>
           WellFormed(out.columns[c]) && ViewOf(out.columns[c]) == Expected(batches, schema, c)
  {
    ReadColumnsStored(r, batches, schema, enc);
    var expected := ExpectedColumns(batches, schema);
    var cols := ReadColumns(r, 0).value;
    assert ReadRecordBatch(r) == Ok(RecordBatch(schema, r.numRows, cols));
    forall c | 0 <= c < |schema.fields|
      ensures WellFormed(cols[c]) && ViewOf(cols[c]) == Expected(batches, schema, c)
    {
      assert ViewOf(cols[c]) == expected[c];
    }
  }

  // ---------------------------------------------------------------------
  // The whole file

  /** A client writing a file: a writer, the batches in order, then `Close`;
      the first failure is returned. */
  function WriteFile(schema: Schema, schemaJson: seq<byte>, encoding: byte, batches: seq<RecordBatch>): (r: Result<Writer, Error>)
    ensures r.Ok? ==> r.value.closed && r.value.numPages == ToInt32(|r.value.index|)
  {
    var w :- NewWriter(schema, schemaJson, encoding);
    var s := WriteBatches(w, batches);
    if s.err.Some? then Err(s.err.value)
    else
      var c := ColumnWriter.Close(s.writer);
      if c.err.Some? then Err(c.err.value) else Ok(c.writer)
  }

  /** `Close` on an open writer whose header fits rewrites the header in place. */
  lemma CloseIs(w: Writer)
    requires |w.header.reserved| == 32
    ensures !w.closed && ColumnWriter.HeaderBytes(w.header, w.schemaJson).Ok? ==>
      ColumnWriter.Close(w).err.None? &&
      ColumnWriter.Close(w).writer.file == Overwrite(w.file, ColumnWriter.HeaderBytes(w.header, w.schemaJson).value)
  {
  }

  /** Writing the batches succeeds, and the closed file holds the final
      header at its start and every batch's pages where the index says. */
  lemma WrittenFile(schema: Schema, schemaJson: seq<byte>, encoding: byte, batches: seq<RecordBatch>,
                    deserialize: Header.Deserializer)
    requires AllWritable(batches, schema)
    requires Header.EncodedSize + 4 + |schemaJson| <= HeaderReservedSize
    requires TotalRows(batches) < 0x8000_0000_0000_0000
    requires HeaderReservedSize + Room(|batches| * |schema.fields|) < 0x8000_0000_0000_0000
    ensures WriteFile(schema, schemaJson, encoding, batches).Ok?
    ensures var w := WriteFile(schema, schemaJson, encoding, batches).value;
      && Layout(w.file, w.index, batches, schema, encoding)
      && Header.ReadFrom(w.file, deserialize).Ok?
      && Header.ReadFrom(w.file, deserialize).value.header.numRows == TotalRows(batches)
      && Header.ReadFrom(w.file, deserialize).value.schemaJson == schemaJson
  {
    var w0 := NewWriter(schema, schemaJson, encoding).value;
    WriteBatchesSpec(w0, batches, schema);
    var ws := WriteBatches(w0, batches).writer;
    var h := ws.header;
    assert Header.Validate(h).None?;
    var hb := ColumnWriter.HeaderBytes(h, schemaJson).value;
    CloseIs(ws);
    var file := Overwrite(ws.file, hb);
    OverwriteKeeps(ws.file, hb);
    LayoutKeep(ws.file, file, ws.index, batches, schema, encoding);
    var rest := ws.file[|hb|..];
    assert file == hb + rest;
    Header.RoundTrip(h, schemaJson, rest, deserialize);
  }

  /** A batch read back holds the schema and, column by column, the
      batches' columns one after another. */
  predicate HoldsBatches(out: RecordBatch, batches: seq<RecordBatch>, schema: Schema)
    requires |batches| > 0 && AllWritable(batches, schema)
  {
    && out.schema == schema && |out.columns| == |schema.fields|
    && forall c :: 0 <= c < |schema.fields| ==>
         WellFormed(out.columns[c]) && ViewOf(out.columns[c]) == Expected(batches, schema, c)
  }

  /** Writing batches of one schema and reading the file back with a
      deserialiser that recovers that schema from its JSON bytes: the reader
      opens, reports the rows written, and returns a batch of the schema
      whose every column holds the batches' columns, one after another. */
  lemma FileRoundTrip(schema: Schema, schemaJson: seq<byte>, encoding: byte, batches: seq<RecordBatch>,
                      deserialize: Header.Deserializer)
    requires |batches| > 0 && AllWritable(batches, schema)
    requires Header.EncodedSize + 4 + |schemaJson| <= HeaderReservedSize
    requires TotalRows(batches) < 0x8000_0000_0000_0000
    requires HeaderReservedSize + Room(|batches| * |schema.fields|) < 0x8000_0000_0000_0000
    requires deserialize(schemaJson) == schema
    ensures WriteFile(schema, schemaJson, encoding, batches).Ok?
    ensures var w := WriteFile(schema, schemaJson, encoding, batches).value;
      && Open(w.file, w.index, deserialize).Ok?
      && var r := Open(w.file, w.index, deserialize).value;
      && ReadRecordBatch(r).Ok?
      && ReadRecordBatch(r).value.numRows == TotalRows(batches)
      && HoldsBatches(ReadRecordBatch(r).value, batches, schema)
  {
    WrittenFile(schema, schemaJson, encoding, batches, deserialize);
    var w := WriteFile(schema, schemaJson, encoding, batches).value;
    var r := Open(w.file, w.index, deserialize).value;
    ReadBatchStored(r, batches, schema, encoding);
  }

  /** Go's reader as written: whatever schema the file was written with, it
      opens reporting the vector schema, so a file written under any other
      schema does not read back with its own. */
  lemma SchemaNotRestored(schema: Schema, schemaJson: seq<byte>, encoding: byte, batches: seq<RecordBatch>,
                          vectors: Schema)
    requires AllWritable(batches, schema)
    requires Header.EncodedSize + 4 + |schemaJson| <= HeaderReservedSize
    requires TotalRows(batches) < 0x8000_0000_0000_0000
    requires HeaderReservedSize + Room(|batches| * |schema.fields|) < 0x8000_0000_0000_0000
    requires schema != vectors
    ensures WriteFile(schema, schemaJson, encoding, batches).Ok?
    ensures var w := WriteFile(schema, schemaJson, encoding, batches).value;
      && Open(w.file, w.index, Header.VectorsOnly(vectors)).Ok?
      && var r := Open(w.file, w.index, Header.VectorsOnly(vectors)).value;
      && r.schema == vectors && r.schema != schema
      && (ReadRecordBatch(r).Ok? ==> ReadRecordBatch(r).value.schema != schema)
  {
    WrittenFile(schema, schemaJson, encoding, batches, Header.VectorsOnly(vectors));
  }
}

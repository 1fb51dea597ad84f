# AgentBot's columnar file codec and HNSW layer search, in Dafny

This project models two parts of the AgentBot repository and proves properties of the model.

**The lance columnar file format** (`lance/`):
- the null bitmap;
- the format constants and validators;
- the 56-byte file header with its schema length and schema bytes;
- the 30-byte page record protected by a CRC-32 checksum;
- the page index list;
- the array-to-page serialiser and deserialiser for int32, int64, float32, float64 and fixed-size-list arrays;
- the column writer, which writes pages after an 8192-byte reserved header and records them in the index;
- the column reader, which reads a column's pages back and merges them.

A file is a byte sequence. Float values are kept as the 32- or 64-bit words they are stored as. An array's logical view is a sequence of `Option` values: `None` marks a null slot.

**The HNSW layer search** (`hnsw/search.go`, `hnsw/distance.go`):
- the two heap types and Go's `container/heap` `Push`/`Pop`/`up`/`down` algorithm that drives them;
- `searchLayer`, as a state machine over the visited set, the candidate frontier and the result heap;
- `L2Distance`.

The distance function is a parameter of the query, with integer values. The graph level is given as per-node connection lists.

Go's fixed-width integers are modelled explicitly:
- `int32(...)` and `int64(...)` conversions wrap (`Bytes.ToInt32`, `Bytes.ToInt64`);
- integer division truncates toward zero (`Bitmaps.GoDiv`, `Heaps.Parent`).

Panics are handled in two ways:
- a panic a caller can avoid, such as a bitmap index out of range or vectors of different dimension, is a precondition;
- a panic that decoded bytes can trigger, such as `make` with a negative count, is an error result.

The code is followed where it departs from its own comments and from the textbook algorithm:
- **The candidate frontier is a `MaxHeap`** (`hnsw/search.go:86`). The comment at line 101 says the nearest candidate is taken, but the farthest is popped first. `Search.SearchLayerAsWritten` uses the max-heap. `Search.SearchLayer` is the nearest-first version the comments describe. Both share every other line of the loop, see "## Findings".
- **The early stop does not require a full result set.** It only requires that the result set is non-empty (`hnsw/search.go:105-110`). Both versions keep that test.

Modules follow the source files:

| module | models |
|---|---|
| `Bitmaps` | `lance/arrow/bitmap.go` |
| `Format` | `lance/format/format.go` |
| `Header` | `lance/format/header.go` |
| `Pages` | `lance/format/page.go` |
| `PageWriter` | `lance/column/page_writer.go` |
| `PageReader` | `lance/column/page_reader.go` |
| `ColumnReader` | `lance/column/reader.go` |
| `ColumnWriter` | `lance/column/writer.go` |
| `Heaps` | the heaps of `hnsw/search.go` |
| `Search` | `searchLayer` |
| `Distance` | `hnsw/distance.go` |

Further modules hold the cross-file properties:
- `PageCodec`: page round trips;
- `FileLayout`: where the writer puts pages;
- `FileRoundTrip`: a written file read back;
- `SearchExample`: a concrete search.

Support modules:
- `Wrappers` and `Errors`: `Option`, `Result` and the error values;
- `Seqs`: sequence lemmas;
- `Bytes`: little-endian integers and bounded reads;
- `Arrow`: the array types;
- `Crc32`: the IEEE CRC-32.

## Model

| member | source | states |
|---|---|---|
| Bitmaps.NewBitmap | lance/arrow/bitmap.go:11-17 | the bitmap has the requested length, `(length + 7) / 8` bytes, covers every index below its length, and no index is set |
| Bitmaps.Set | lance/arrow/bitmap.go:38-43 | the index becomes set and every other in-range index keeps its value; the length and byte count do not change |
| Bitmaps.Clear | lance/arrow/bitmap.go:46-51 | the index becomes clear and every other in-range index keeps its value |
| Bitmaps.SetIdempotent | lance/arrow/bitmap.go:38-43 | setting an index twice gives the same bitmap as setting it once |
| Bitmaps.SetAll | lance/arrow/bitmap.go:62-66 | every in-range index is set afterwards |
| Bitmaps.ClearAll | lance/arrow/bitmap.go:69-73 | every in-range index is clear afterwards |
| Bitmaps.CountSet | lance/arrow/bitmap.go:76-84 | the count is the number of indices below the length whose bit is set, so it lies between 0 and the length |
| Bitmaps.NewBitmapAllSet | lance/arrow/bitmap.go:89-93 | every index below the length is set |
| Bitmaps.AllSetCount | lance/arrow/bitmap.go:89-93 | a bitmap created all set counts exactly its length |
| Bitmaps.ClearAllCount | lance/arrow/bitmap.go:69-84 | after `ClearAll` the count is zero |
| Format.PageSizeBounds | lance/format/format.go:19-23 | the default page size is positive and no larger than the maximum |
| Format.ValidateMagicNumber | lance/format/format.go:114-119 | success exactly for 0x4C414E43; otherwise the error carries the magic read |
| Format.ValidateVersion | lance/format/format.go:122-130 | success exactly inside the supported window, which is version 1 alone; too old and too new are distinct errors |
| Format.NewFileError | lance/format/format.go:101-111 | nil stays nil; any other error is wrapped with its operation and `Unwrap` gives it back |
| Format.EncodingNameInjective | lance/format/format.go:40-55 | distinct encodings print distinct names, `Unknown(n)` included |
| Format.PageTypeNameInjective | lance/format/format.go:66-77 | distinct page types print distinct names |
| Header.NewHeader | lance/format/header.go:34-44 | magic, current version, no flags, the schema's field count as an int32, default page size; the header validates exactly when the row count is not negative |
| Header.SetFlag | lance/format/header.go:47-54 | only the flags change, the flag becomes present when non-zero, and flags present before stay present |
| Header.NewHeaderHasNoFlags | lance/format/header.go:34-54 | a fresh header has no flag |
| Header.Validate | lance/format/header.go:57-77 | success exactly when magic, version, schema, row count, column count and page size are all acceptable; a bad magic is reported first |
| Header.WriteTo | lance/format/header.go:86-111 | an invalid header gives a wrapped error and no bytes; a valid one gives the 56-byte prefix, the length and the schema bytes |
| Header.ReadFrom | lance/format/header.go:114-160 | short input, then a bad magic, then an unsupported version are rejected before anything else is read; a success has the right magic and version, reports the bytes it consumed, and carries the schema the deserialiser made of the schema bytes |
| Header.RoundTrip | lance/format/header.go:86-160 | reading back what `WriteTo` wrote restores every fixed field and the schema bytes, sets the schema the deserialiser makes of those bytes, and reports the byte count written |
| Header.SchemaLengthOffset | lance/format/header.go:94-106 | the schema length sits at byte offset 56 of the encoding |
| Pages.NewPage | lance/format/page.go:39-45 | an empty page of the given column, type and encoding, which validates |
| Pages.SetData | lance/format/page.go:48-53 | data and uncompressed size are stored, the checksum is the CRC-32 of the data, the compressed size is the data length as an int32, nothing else changes, and the page then validates exactly when its sizes are in range |
| Pages.Validate | lance/format/page.go:56-77 | success exactly when every count is non-negative, the size is within the page limit and matches the data, and the checksum matches |
| Pages.ValidSize | lance/format/page.go:56-77 | a valid page below 2 GiB carries exactly `compressedSize` bytes |
| Pages.WriteTo | lance/format/page.go:85-117 | an invalid page is a wrapped error and no bytes; a valid one is a 30-byte header followed by its data |
| Pages.EncodedSizeMatches | lance/format/page.go:80-117 | a valid page occupies exactly `EncodedSize` bytes |
| Pages.ReadFrom | lance/format/page.go:120-155 | a short input is rejected; a page read validates and its bytes are the header, its data and the rest |
| Pages.RoundTrip | lance/format/page.go:85-155 | reading back a written page restores it and leaves the following bytes unread |
| Pages.ReadThenWrite | lance/format/page.go:85-155 | a page read from bytes with zero reserved bytes writes back to those bytes |
| Pages.CorruptionDetected | lance/format/page.go:149-152 | a stored checksum that does not match the data is always rejected |
| Pages.Add | lance/format/page.go:179-187 | one entry is appended at the end and earlier entries are unchanged |
| Pages.ForColumnAdd | lance/format/page.go:179-198 | adding an entry extends the entries of its own column and no other |
| Pages.FindByColumn | lance/format/page.go:190-198 | the result is exactly the entries of the column, in list order |
| Pages.IndexWriteTo | lance/format/page.go:201-225 | the encoding is `EncodedSize` bytes long: a count and 24 bytes per entry |
| Pages.IndexReadFrom | lance/format/page.go:228-262 | a short input is rejected; a success consumes exactly the encoding of the entries read |
| Pages.IndexRoundTrip | lance/format/page.go:201-262 | reading back a written index list restores every entry |
| PageWriter.Serialize | lance/column/page_writer.go:50-65 | the four primitive kinds and float32/int32 lists are accepted, everything else refused; primitives are the null section then count and values, lists are prefixed by the list size and count |
| PageWriter.NullSection | lance/column/page_writer.go:68-99 | a flag byte, then a count and `(n + 7) / 8` bitmap bytes only when there are nulls |
| PageWriter.SerializedSize | lance/column/page_writer.go:68-99 | a primitive array takes `1 + (4 + (n + 7) / 8 if nulls) + 4 + width * n` bytes |
| PageWriter.WritePages | lance/column/page_writer.go:24-47 | nil and empty arrays are refused; otherwise one data page of the column with the value count, the serialised bytes, their length and their checksum |
| PageWriter.WrittenPageValid | lance/column/page_writer.go:24-47 | the page made validates exactly when its bytes are within the page limit |
| PageReader.ReadValues | lance/column/page_reader.go:80-88 | success exactly when the input holds `count` values, which all fit the kind; the rest follows them |
| PageReader.ReadNulls | lance/column/page_reader.go:56-76 | an empty input fails, a zero flag gives no bitmap, and a bitmap read covers its slots |
| PageReader.ReadList | lance/column/page_reader.go:215-299 | input too short for the list size fails, and a stored list size other than the type's is refused; a list read has the expected list size and a child of the element type without a bitmap; an unsupported element type fails |
| PageReader.ReadElements | lance/column/page_reader.go:257-298 | float32 and int32 elements are read, any other element type is refused |
| PageReader.Deserialize | lance/column/page_reader.go:34-50 | an unsupported type is refused; an array read always has the declared type |
| PageReader.ReadPage | lance/column/page_reader.go:20-31 | a nil page and an empty page are refused; an array read has the declared type |
| PageCodec.ReadValuesAfterWrite | lance/column/page_reader.go:78-91 | the values written read back unchanged, and the following bytes are left |
| PageCodec.CopiedBitmap | lance/column/page_reader.go:69-75 | the bitmap rebuilt from the written bytes agrees with the original on every slot |
| PageCodec.ReadNullsAfterWrite | lance/column/page_reader.go:56-76 | the null section reads back as no bitmap exactly when the array has no nulls, and otherwise with the same validity in every slot |
| PageCodec.PrimRoundTrip | lance/column/page_reader.go:53-92 | a primitive array read back has its kind, its values and the same logical view |
| PageCodec.ListRoundTrip | lance/column/page_reader.go:215-274 | a fixed-size list read back has its list size, its flattened values and the same logical view |
| PageCodec.PageRoundTrip | lance/column/page_reader.go:20-50 | the page made of an array reads back, under the array's own type, as an array with the same contents |
| PageCodec.TruncatedFails | lance/column/page_reader.go:53-299 | every strict prefix of an accepted array's serialisation fails to decode under the array's type, including a cut inside the bitmap, which `Reader.Read` accepts partially and the next read then rejects |
| ColumnReader.MergePrim | lance/column/reader.go:189-286 | arrays all of the kind merge into one whose logical view is theirs, one after another; any other array is refused |
| ColumnReader.GetListValues | lance/column/reader.go:317-339 | the list's slice of a float32 or int32 child, int32 values as stored, or `listSize` zeros for another child |
| ColumnReader.MergeLists | lance/column/reader.go:289-314 | list arrays of the declared size and element kind merge into one list array whose lists are theirs, one after another; arrays Go would append unchecked (another list size or element kind, a non-primitive child) are refused |
| ColumnReader.MergeListsAppends | lance/column/reader.go:298-312 | such a merge succeeds and holds exactly what the loop appends: each array's lists in turn, `getFixedSizeListValues` of a valid list and a null for a null one |
| ColumnReader.MergeEmpty | lance/column/reader.go:289-314 | lists whose size is zero or less contribute no lists |
| ColumnReader.MergeArrays | lance/column/reader.go:163-186 | no arrays is an error, one array is returned as it is, and an unsupported type is refused |
| ColumnReader.Open | lance/column/reader.go:21-46 | the reader opens exactly when the header reads, holds the header's row count, and reports the schema the deserialiser made of the stored schema bytes |
| ColumnReader.ReadPageAt | lance/column/reader.go:342-355 | a negative offset fails; a page read validates |
| ColumnReader.ReadColumn | lance/column/reader.go:124-160 | a column without pages, and a column past the schema, are refused in that order |
| ColumnReader.ReadRecordBatch | lance/column/reader.go:96-121 | a closed reader refuses; a batch read has the schema, the header's row count and one column per field |
| ColumnReader.Close | lance/column/reader.go:358-365 | the first call closes the reader, a second is an error |
| ColumnReader.ClosedReader | lance/column/reader.go:96-99 | a closed reader neither reads nor closes again |
| ColumnWriter.HeaderBytes | lance/column/writer.go:59-74 | the header bytes are produced exactly when the header validates and fits the 8192 reserved bytes |
| ColumnWriter.HeaderWithPadding | lance/column/writer.go:59-90 | exactly 8192 bytes: the header, then zeros |
| ColumnWriter.NewWriter | lance/column/writer.go:31-56 | a header with no rows, padded to 8192 bytes, the first page to go at offset 8192, and an empty index |
| ColumnWriter.WriteColumn | lance/column/writer.go:128-160 | only the file, index and position change, and the file and index only grow |
| ColumnWriter.WriteRecordBatch | lance/column/writer.go:93-125 | closed, nil and mismatched batches are refused with the writer untouched; an accepted batch's rows are counted before any column is written |
| ColumnWriter.Close | lance/column/writer.go:163-213 | a second close is an error; the first closes, records the page count, keeps index and header, and fails exactly when the final header does not validate or does not fit the reserved space |
| FileLayout.AfterPageSpec | lance/column/writer.go:136-157 | a page is stored at the current position, its entry appended, and the position advanced by its bytes |
| FileLayout.WriteColumnIs | lance/column/writer.go:128-160 | a storable column is written, without error, as its single page |
| FileLayout.BatchStep | lance/column/writer.go:93-125 | an accepted batch is written without error, its pages appended one per column in column order |
| FileLayout.WriteBatchesSpec | lance/column/writer.go:93-160 | batches of the writer's schema are all written, each as its pages in column order, with the row count their total |
| FileRoundTrip.MergedView | lance/column/reader.go:163-314 | several arrays of one type merge into an array whose view is theirs, one after another |
| FileRoundTrip.ReadColumnStored | lance/column/reader.go:124-160 | a column of a file written batch by batch reads back as the batches' column, one after another |
| FileRoundTrip.ReadBatchStored | lance/column/reader.go:96-121 | every column of such a file reads back that way |
| FileRoundTrip.WrittenFile | lance/column/writer.go:163-213 | the closed file holds the final header, with the total row count and the schema bytes, and every batch's pages where the index says |
| FileRoundTrip.FileRoundTrip | lance/column/writer.go:93-213 | a file written batch by batch and closed, read with a deserialiser that recovers the written schema from its bytes, opens, and reads back as one batch of that schema whose every column holds the batches' columns in write order |
| FileRoundTrip.SchemaNotRestored | lance/format/header.go:192-203 | with the deserialiser as written, a file written under any schema other than the vector schema opens reporting the vector schema, and a batch read from it does not carry the schema written |
| Heaps.Swap | hnsw/search.go:52-56 | the two items change slots and learn their new slots; the others are untouched and the entries are the same |
| Heaps.Append | hnsw/search.go:58-63 | the item goes in a new last slot with that slot as its index |
| Heaps.RemoveLast | hnsw/search.go:65-73 | the last slot is removed and its item's index becomes -1 |
| Heaps.Peek | hnsw/search.go:75-80 | nil exactly on an empty heap, otherwise an entry of the heap |
| Heaps.PeekFarthest | hnsw/search.go:75-80 | on a max-heap, no entry is farther than the one `Peek` gives |
| Heaps.Push | hnsw/search.go:96-97 | the heap gains the item and keeps its other entries, with every index naming its slot |
| Heaps.PushKeepsHeap | hnsw/search.go:48-50 | pushing keeps the heap order |
| Heaps.Pop | hnsw/search.go:102 | the heap loses one entry, the item taken, whose index becomes -1 |
| Heaps.PopFirst | hnsw/search.go:102 | popping a heap takes out slot 0, which no entry comes out strictly before, and leaves a heap |
| Distance.L2Distance | hnsw/distance.go:5-15 | the sum of squared coordinate differences of vectors of one dimension |
| Distance.NonNegative | hnsw/distance.go:9-14 | the distance is never negative |
| Distance.Symmetric | hnsw/distance.go:9-14 | the distance does not depend on the order of its arguments |
| Distance.ZeroIffEqual | hnsw/distance.go:9-14 | the distance is zero exactly between equal vectors |
| Distance.Example | hnsw/hnsw_test.go:83-91 | the distance from (1, 2, 3) to (4, 5, 6) is 27 |
| Search.Visit | hnsw/search.go:119-143 | the neighbour becomes visited; an already visited neighbour changes nothing |
| Search.VisitAll | hnsw/search.go:119-144 | the visited set only grows, and when it grows some neighbour of the list was new |
| Search.Next | hnsw/search.go:100-144 | a round either visits a new node or takes a candidate out of the frontier, so the loop ends |
| Search.Shrinks | hnsw/search.go:119-123 | visiting a new node leaves fewer nodes unvisited |
| Search.StartInv | hnsw/search.go:93-98 | the start state satisfies the walk's invariant |
| Search.ResultsAdd | hnsw/search.go:129-131 | while the results have room, a new entry joins and they stay a bounded max-heap without repeats |
| Search.ResultsReplace | hnsw/search.go:132-141 | a nearer entry joins full results and the farthest is dropped, keeping them within `ef` |
| Search.VisitKeeps | hnsw/search.go:119-143 | visiting a reachable neighbour keeps the invariant |
| Search.PopCandidate | hnsw/search.go:100-102 | the popped candidate was visited, and no candidate left comes out before it |
| Search.NeighboursReachable | hnsw/search.go:113-119 | the neighbours of a reachable node are nodes and reachable |
| Search.NextKeeps | hnsw/search.go:100-144 | a round keeps the invariant |
| Search.ExpandKeeps | hnsw/search.go:100-145 | the whole loop keeps the invariant |
| Search.DrainSpec | hnsw/search.go:147-157 | draining a max-heap gives its entries, nearest first |
| Search.SearchLayerSpec | hnsw/search.go:82-158 | for either frontier order, the output has between 1 and `max(ef, 1)` entries, is nearest first, repeats no id, and every entry is a node reachable from the entry point with its true distance |
| Search.NextSettles | hnsw/search.go:104-110 | with the nearest-first frontier, a round that stops leaves every candidate farther than every result |
| Search.SearchLayerSettles | hnsw/search.go:100-110 | with the nearest-first frontier the walk ends with every unexpanded candidate farther than every result |
| SearchExample.AsWrittenMisses | hnsw/search.go:86 | on a four-node level the search as written returns node 2 at distance 4, while node 3 at distance 1 is reachable, and it stops with a candidate nearer than its result |
| SearchExample.CorrectedFinds | hnsw/search.go:100-110 | the nearest-first search on the same level returns node 3 and ends settled |

## Left out

- File I/O (`os.File`, `Seek`, `Stat`, `Close` of the file) is left out. A file is the byte sequence written so far, and reading is done from that sequence.
- The footer's byte encoding and `GetColumnPages` are not part of this model. The reader is given the footer's page index list, and the writer keeps the index as a value. A column's pages, `GetColumnPages` in Go, are taken to be `Pages.FindByColumn` over that list: the entries of the column in the order they were added. `Close` writing the footer after the pages is therefore not represented as bytes.
- Schema JSON is treated as opaque bytes (`lance/format/header.go:163-203`). `serializeSchemaToJSON` is not part of this model: the writer is given the bytes it produces. The header reader takes the deserialiser as a parameter. Go's placeholder is `Header.VectorsOnly`, which ignores its input and returns `arrow.SchemaForVectors(768)`. That constructor is not part of this model, so its schema is a parameter too.
- `validateArray` is not part of this model. Every array is treated as passing it.
- The arrow builders and array constructors are not part of this model. Merged arrays are described by their logical views. `arrow.NewRecordBatch` in `ReadRecordBatch` is taken never to fail, so its error path (`lance/column/reader.go:115-118`) is not modelled.
- Float32 and float64 values are opaque stored words. IEEE arithmetic is not modelled.
- PageCodec.ListRoundTrip: stated for float32 and int32 children as stored. The reader's widening of int32 list elements to float32 (`lance/column/page_reader.go:289-294`) is lossy and not modelled, so an int32 child reads back as int32 here.
- PageCodec.PrimRoundTrip: stated for arrays of fewer than 2^28 slots (`PageCodec.MaxSlots`), as are the other array round trips. The value count and the bitmap byte count are written as int32, and the reader multiplies the bitmap byte count by 8 in int32 (`lance/column/page_reader.go:74`); 2^28 slots keeps both well clear of wrap-around. This is a simpler bound than the exact int32 limit.
- Pages.RoundTrip: stated for page data shorter than 2^31 bytes, because its length is stored as an int32. Header.RoundTrip bounds the schema bytes, and Pages.IndexRoundTrip the entry count, the same way.
- ColumnReader.GetListValues: int32 list elements are returned as stored. Go converts them to float32 (`lance/column/reader.go:332-335`). That conversion rounds, and float values are opaque words here, so it is not modelled.
- ColumnReader.MergeLists: the merge is stated only for list arrays of the declared list size and element kind with a primitive child. Go's loop (`lance/column/reader.go:298-312`) appends any list array without checking, and what the arrow list builder makes of a mismatched one is not part of this model, so the model refuses those arrays.
- Error messages are modelled as distinct error values, not as formatted strings.
- FileRoundTrip.FileRoundTrip: stated for at least one batch. With none, every column has no pages and `readColumn` reports that error. It is also stated for a deserialiser that recovers the written schema. Go's placeholder does so only for files written under the vector schema; see Findings.
- The HNSW index type, nodes, insertion, locking and concurrency are left out (`hnsw/hnsw.go`, `hnsw/node.go`, `hnsw/insert.go` are not part of this model). `searchLayer` reads a copy of each neighbour list, as the locked copy does.
- Distance.L2Distance: coordinates and distances are integers; float32 rounding and overflow are not modelled. NaN distances are outside the model too: in Go a comparison with NaN is false, so a NaN coordinate can change when `searchLayer` stops and which candidates it admits.
- `heap.Init` is only called on empty heaps in `searchLayer`, so it is left out.
- The min-heap `PriorityQueue` is the same algorithm in the opposite order. `Heaps` covers it through the order parameter (`MinFirst`), which is also the corrected search's frontier.

## Findings

| source | as written | input that shows it | evidently intended | confidence | as-written member | corrected member |
|---|---|---|---|---|---|---|
| hnsw/search.go:86 | the candidate frontier is a `MaxHeap`, so each round expands the farthest candidate although line 101 says the nearest; the search can stop before reaching nearer nodes | nodes 0..3 with one-dimensional vectors 4, 3, 2, 1, connections 0→{1, 2} and 2→{3}, query 0, `ef` = 1, entry point 0: the result is node 2 at distance 4 while node 3 at distance 1 is reachable | a nearest-first (min-heap) frontier, which on the same input returns node 3 and stops only once no candidate is nearer than a result | not executed | SearchExample.AsWrittenMisses | SearchExample.CorrectedFinds |
| lance/format/header.go:192-203 | `deserializeSchemaFromJSON` ignores the stored JSON and returns `arrow.SchemaForVectors(768)`. `NewReader` then reports that schema, and `ReadRecordBatch` reads the columns by its fields | a file written with the two-field schema of `lance/column/reader_writer_test.go:274-277` (`id` int32, `value` float32), or any schema other than the vector schema: the reader's `Schema()` is the vector schema, not the schema written, which the test at line 324 expects | the stored JSON parsed back into the schema written, so that the file reads back under its own schema | not executed | FileRoundTrip.SchemaNotRestored | FileRoundTrip.FileRoundTrip |

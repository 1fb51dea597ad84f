/**
 * lance/format/header.go: the file header, its feature flags, validation,
 * and its byte layout: a fixed 56-byte little-endian prefix, an int32 schema
 * length at offset 56, then the schema's JSON bytes. The JSON text is opaque
 * here: the writer is given the bytes `serializeSchemaToJSON` produced, and
 * the reader hands back the bytes it found together with the schema a given
 * deserialiser makes of them.
 */
module Header {
  import opened Wrappers
  import opened Errors
  import opened Bytes
  import opened Format
  import opened Arrow
  import opened Seqs

  datatype Header = Header(
    magic: uint32,
    version: uint16,
    flags: bv16,
    schema: Option<Schema>,
    numRows: int64,
    numColumns: int32,
    pageSize: int32,
    reserved: seq<byte>)

  // HeaderFlags, `1 << iota`.
  const FlagCompressed: bv16 := 1
  const FlagEncrypted: bv16 := 2
  const FlagIndexed: bv16 := 4
  const FlagVersioned: bv16 := 8

  /** Magic, version, flags, numRows, numColumns, pageSize, reserved. */
  const EncodedSize: nat := 4 + 2 + 2 + 8 + 4 + 4 + 32

  function NumFields(s: Schema): nat { |s.fields| }

  function NewHeader(schema: Schema, numRows: int64): (h: Header)
    ensures h.magic == MagicNumber && h.version == CurrentVersion && h.flags == 0
    ensures h.schema == Some(schema) && h.numRows == numRows
    ensures h.numColumns == ToInt32(NumFields(schema)) && h.pageSize == DefaultPageSize
    ensures Validate(h).None? <==> numRows >= 0
  {
    Header(MagicNumber, CurrentVersion, 0, Some(schema), numRows, ToInt32(NumFields(schema)),
           DefaultPageSize, Zeros(32))
  }

  function SetFlag(h: Header, flag: bv16): (r: Header)
    ensures r == h.(flags := r.flags)
    ensures HasFlag(r, flag) <==> flag != 0
    ensures forall g :: HasFlag(h, g) ==> HasFlag(r, g)
  {
    var r := h.(flags := h.flags | flag);
    OwnBits(h.flags, flag);
    forall g | HasFlag(h, g)
      ensures HasFlag(r, g)
    {
      KeepsBits(h.flags, flag, g);
    }
    r
  }

  lemma KeepsBits(x: bv16, f: bv16, g: bv16)
    requires x & g != 0
    ensures (x | f) & g != 0
  {
  }

  lemma OwnBits(x: bv16, f: bv16)
    ensures (x | f) & f != 0 <==> f != 0
  {
  }

  predicate HasFlag(h: Header, flag: bv16)
  {
    h.flags & flag != 0
  }

  lemma NewHeaderHasNoFlags(schema: Schema, numRows: int64, flag: bv16)
    ensures !HasFlag(NewHeader(schema, numRows), flag)
  {
  }

  /** `Validate`: the checks in source order; `None` is success. */
  function Validate(h: Header): (r: Option<Error>)
    ensures r.None? <==>
      && h.magic == MagicNumber
      && h.version == CurrentVersion
      && h.schema.Some?
      && h.numRows >= 0
      && h.numColumns == ToInt32(NumFields(h.schema.value))
      && 0 < h.pageSize <= MaxPageSize
    ensures h.magic != MagicNumber ==> r == Some(BadMagic(h.magic))
  {
    var magicErr := ValidateMagicNumber(h.magic);
    var versionErr := ValidateVersion(h.version);
    if magicErr.Some? then magicErr
    else if versionErr.Some? then versionErr
    else if h.schema.None? then Some(Invalid("schema is nil"))
    else if h.numRows < 0 then Some(Invalid("invalid row count"))
    else if h.numColumns != ToInt32(NumFields(h.schema.value)) then Some(Invalid("column count mismatch"))
    else if h.pageSize <= 0 || h.pageSize > MaxPageSize then Some(Invalid("invalid page size"))
    else None
  }

  /** The 56-byte fixed prefix. */
  function FixedBytes(h: Header): (b: seq<byte>)
    requires |h.reserved| == 32
    ensures |b| == EncodedSize
  {
    UIntLE(h.magic, 4) + UIntLE(h.version, 2) + UIntLE(h.flags as nat, 2)
    + IntLE(h.numRows, 8) + IntLE(h.numColumns, 4) + IntLE(h.pageSize, 4)
    + h.reserved
  }

  /** `WriteTo`: an invalid header yields an error and no bytes; a valid one
      yields the prefix, `int32(len(schemaJSON))` and the schema bytes. */
  function WriteTo(h: Header, schemaJson: seq<byte>): (r: Result<seq<byte>, Error>)
    requires |h.reserved| == 32
    ensures r.Ok? <==> Validate(h).None?
    ensures r.Err? ==> r.error == FileError("write header", Validate(h).value)
    ensures r.Ok? ==> |r.value| == EncodedSize + 4 + |schemaJson|
    ensures r.Ok? ==> r.value[..EncodedSize] == FixedBytes(h)
    ensures r.Ok? ==> r.value[EncodedSize + 4..] == schemaJson
  {
    var err := Validate(h);
    if err.Some? then Err(FileError("write header", err.value))
    else Ok(FixedBytes(h) + IntLE(ToInt32(|schemaJson|), 4) + schemaJson)
  }

  /** A schema deserialiser: from the schema's JSON bytes to a schema. */
  type Deserializer = seq<byte> -> Schema

  /** `deserializeSchemaFromJSON` as written: whatever the bytes, the schema
      `arrow.SchemaForVectors(768)` returns. That constructor's package is not
      part of this model, so its schema is given as `vectors`. */
  function VectorsOnly(vectors: Schema): Deserializer
  {
    _ => vectors
  }

  /** What `ReadFrom` recovers: the fixed fields with the schema the
      deserialiser made of the schema bytes, those bytes, and the byte count
      it reports. */
  datatype HeaderRead = HeaderRead(header: Header, schemaJson: seq<byte>, bytesRead: nat)

  function ParseFixed(b: seq<byte>): (h: Header)
    requires |b| == EncodedSize
    ensures |h.reserved| == 32
  {
    Header(ParseUIntLE(b[0..4]), ParseUIntLE(b[4..6]), ParseUIntLE(b[6..8]) as bv16, None,
           ParseIntLE(b[8..16]), ParseIntLE(b[16..20]), ParseIntLE(b[20..24]), b[24..56])
  }

  /** `ReadFrom`: read the prefix, check magic and version before anything
      else, then the schema length and that many schema bytes, which
      `deserialize` turns into the header's schema. */
  function ReadFrom(input: seq<byte>, deserialize: Deserializer): (r: Result<HeaderRead, Error>)
    ensures |input| < EncodedSize ==> r == Err(FileError("read header", ShortRead))
    ensures |input| >= EncodedSize && ParseUIntLE(input[..4]) != MagicNumber ==>
              r == Err(BadMagic(ParseUIntLE(input[..4])))
    ensures |input| >= EncodedSize && ParseUIntLE(input[..4]) == MagicNumber
            && ValidateVersion(ParseUIntLE(input[4..6])).Some? ==>
              r == Err(ValidateVersion(ParseUIntLE(input[4..6])).value)
    ensures r.Ok? ==> r.value.header.magic == MagicNumber && r.value.header.version == CurrentVersion
    ensures r.Ok? ==> r.value.bytesRead == EncodedSize + 4 + |r.value.schemaJson| <= |input|
    ensures r.Ok? ==> r.value.header.schema == Some(deserialize(r.value.schemaJson))
  {
    match Take(input, EncodedSize)
    case Err(e) => Err(FileError("read header", e))
    case Ok(prefix) =>
      var h := ParseFixed(prefix.val);
      assert prefix.val[0..4] == input[..4] && prefix.val[4..6] == input[4..6];
      if ValidateMagicNumber(h.magic).Some? then Err(ValidateMagicNumber(h.magic).value)
      else if ValidateVersion(h.version).Some? then Err(ValidateVersion(h.version).value)
      else
        match ReadInt(prefix.rest, 4)
        case Err(e) => Err(FileError("read schema length", e))
        case Ok(len) =>
          if len.val < 0 then Err(Panic("make: negative schema length"))
          else
            match Take(len.rest, len.val)
            case Err(e) => Err(FileError("read schema", e))
            case Ok(json) =>
              Ok(HeaderRead(h.(schema := Some(deserialize(json.val))), json.val, EncodedSize + 4 + len.val))
  }

  lemma ParseFixedBytes(h: Header)
    requires |h.reserved| == 32
    ensures ParseFixed(FixedBytes(h)) == h.(schema := None)
  {
    Parts7(UIntLE(h.magic, 4), UIntLE(h.version, 2), UIntLE(h.flags as nat, 2),
           IntLE(h.numRows, 8), IntLE(h.numColumns, 4), IntLE(h.pageSize, 4), h.reserved);
    UIntRoundTrip(h.magic, 4);
    UIntRoundTrip(h.version, 2);
    UIntRoundTrip(h.flags as nat, 2);
    IntRoundTrip(h.numRows, 8);
    IntRoundTrip(h.numColumns, 4);
    IntRoundTrip(h.pageSize, 4);
  }

  /** Reading back what `WriteTo` wrote restores every fixed field and the
      schema bytes, with the schema the deserialiser makes of those bytes,
      and reports the number of bytes written. */
  lemma RoundTrip(h: Header, schemaJson: seq<byte>, rest: seq<byte>, deserialize: Deserializer)
    requires |h.reserved| == 32 && Validate(h).None?
    requires |schemaJson| < 0x8000_0000
    ensures WriteTo(h, schemaJson).Ok?
    ensures ReadFrom(WriteTo(h, schemaJson).value + rest, deserialize)
         == Ok(HeaderRead(h.(schema := Some(deserialize(schemaJson))), schemaJson, |WriteTo(h, schemaJson).value|))
  {
    var fixed := FixedBytes(h);
    var lenBytes := IntLE(|schemaJson|, 4);
    assert WriteTo(h, schemaJson).value == fixed + lenBytes + schemaJson;
    Regroup(fixed, lenBytes, schemaJson, rest);
    ParseFixedBytes(h);
    ReadFields(fixed, schemaJson, rest, deserialize);
  }

  /** A well-formed fixed prefix, the schema length and the schema bytes read
      back field by field. */
  lemma ReadFields(fixed: seq<byte>, schemaJson: seq<byte>, rest: seq<byte>, deserialize: Deserializer)
    requires |fixed| == EncodedSize && |schemaJson| < 0x8000_0000
    requires ValidateMagicNumber(ParseFixed(fixed).magic).None?
    requires ValidateVersion(ParseFixed(fixed).version).None?
    ensures ReadFrom(fixed + (IntLE(|schemaJson|, 4) + (schemaJson + rest)), deserialize)
         == Ok(HeaderRead(ParseFixed(fixed).(schema := Some(deserialize(schemaJson))), schemaJson,
                          EncodedSize + 4 + |schemaJson|))
  {
    TakeAfterWrite(fixed, IntLE(|schemaJson|, 4) + (schemaJson + rest));
    ReadIntAfterWrite(|schemaJson|, 4, schemaJson + rest);
    TakeAfterWrite(schemaJson, rest);
  }

  /** The schema length sits at byte offset 56 of the encoding. */
  lemma SchemaLengthOffset(h: Header, schemaJson: seq<byte>)
    requires |h.reserved| == 32 && Validate(h).None?
    requires |schemaJson| < 0x8000_0000
    ensures WriteTo(h, schemaJson).Ok?
    ensures ParseIntLE(WriteTo(h, schemaJson).value[56..60]) == |schemaJson|
  {
    var b := WriteTo(h, schemaJson).value;
    assert b[56..60] == IntLE(|schemaJson|, 4);
    IntRoundTrip(|schemaJson|, 4);
  }
}

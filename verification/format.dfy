/** lance/format/format.go: file-format constants, enum names and the two validators. */
module Format {
  import opened Wrappers
  import opened Errors
  import opened Bytes

  /** ASCII "LANC" read as a little-endian uint32. */
  const MagicNumber: nat := 0x4C414E43
  const CurrentVersion: nat := 1
  const MinSupportedVersion: nat := 1
  /** 16 MiB: the largest page `Page.Validate` accepts. */
  const MaxPageSize: nat := 16 * 1024 * 1024
  /** 1 MiB: the page size a new header records. */
  const DefaultPageSize: nat := 1024 * 1024
  const FooterSize: nat := 4096

  // EncodingType (uint8) values, in iota order.
  const EncodingPlain: byte := 0
  const EncodingZstd: byte := 1
  const EncodingDelta: byte := 2
  const EncodingRLE: byte := 3
  const EncodingFullZip: byte := 4

  // PageType (uint8) values, in iota order.
  const PageTypeData: byte := 0
  const PageTypeDict: byte := 1
  const PageTypeIndex: byte := 2

  lemma PageSizeBounds()
    ensures 0 < DefaultPageSize <= MaxPageSize
  {
  }

  // ---------------------------------------------------------------------
  // Decimal rendering, as `fmt.Sprintf("%d", n)` prints a non-negative integer.

  function DigitChar(d: nat): char
    requires d < 10
  {
    "0123456789"[d]
  }

  function DigitValue(c: char): nat
  {
    if '0' <= c <= '9' then (c as int - '0' as int) else 0
  }

  function Decimal(n: nat): (s: string)
    ensures |s| > 0
    ensures forall i :: 0 <= i < |s| ==> '0' <= s[i] <= '9'
  {
    if n < 10 then [DigitChar(n)] else Decimal(n / 10) + [DigitChar(n % 10)]
  }

  function ParseDecimal(s: string): nat
  {
    if |s| == 0 then 0 else 10 * ParseDecimal(s[..|s| - 1]) + DigitValue(s[|s| - 1])
  }

  lemma {:induction false} DecimalRoundTrip(n: nat)
    ensures ParseDecimal(Decimal(n)) == n
  {
    var s := Decimal(n);
    if n >= 10 {
      DecimalRoundTrip(n / 10);
      assert s[..|s| - 1] == Decimal(n / 10);
    }
  }

  /** `fmt.Sprintf("Unknown(%d)", n)`. */
  function Unknown(n: nat): string
  {
    "Unknown(" + Decimal(n) + ")"
  }

  lemma UnknownInjective(a: nat, b: nat)
    requires Unknown(a) == Unknown(b)
    ensures a == b
  {
    var sa, sb := Unknown(a), Unknown(b);
    assert Decimal(a) == sa[8..|sa| - 1];
    assert Decimal(b) == sb[8..|sb| - 1];
    DecimalRoundTrip(a);
    DecimalRoundTrip(b);
  }

  lemma UnknownHead(n: nat)
    ensures Unknown(n)[0] == 'U'
  {
  }

  /** `EncodingType.String()`. */
  function EncodingName(e: byte): string
  {
    match e
    case 0 => "Plain"
    case 1 => "Zstd"
    case 2 => "Delta"
    case 3 => "RLE"
    case 4 => "FullZip"
    case _ => Unknown(e)
  }

  /** `PageType.String()`. */
  function PageTypeName(p: byte): string
  {
    match p
    case 0 => "Data"
    case 1 => "Dictionary"
    case 2 => "Index"
    case _ => Unknown(p)
  }

  /** Distinct encodings have distinct names: the five names are fixed and
      every other value prints as `Unknown(n)` with its own decimal. */
  lemma EncodingNameInjective(a: byte, b: byte)
    requires EncodingName(a) == EncodingName(b)
    ensures a == b
  {
    if a > 4 && b > 4 {
      UnknownInjective(a, b);
    }
  }

  lemma PageTypeNameInjective(a: byte, b: byte)
    requires PageTypeName(a) == PageTypeName(b)
    ensures a == b
  {
    if a > 2 && b > 2 {
      UnknownInjective(a, b);
    } else {
      UnknownHead(a);
      UnknownHead(b);
    }
  }

  // ---------------------------------------------------------------------
  // Validators: `None` is Go's nil error.

  function ValidateMagicNumber(magic: nat): (r: Option<Error>)
    ensures r.None? <==> magic == MagicNumber
    ensures r.Some? ==> r.value == BadMagic(magic)
  {
    if magic != MagicNumber then Some(BadMagic(magic)) else None
  }

  function ValidateVersion(version: nat): (r: Option<Error>)
    ensures r.None? <==> MinSupportedVersion <= version <= CurrentVersion
    ensures r.None? <==> version == 1
    ensures version < MinSupportedVersion ==> r == Some(VersionTooOld(version))
    ensures version > CurrentVersion ==> r == Some(VersionTooNew(version))
  {
    if version < MinSupportedVersion then Some(VersionTooOld(version))
    else if version > CurrentVersion then Some(VersionTooNew(version))
    else None
  }

  /** `NewFileError`: nil stays nil, anything else is wrapped with its operation. */
  function NewFileError(op: string, err: Option<Error>): (r: Option<Error>)
    ensures r.None? <==> err.None?
    ensures r.Some? ==> r.value.FileError? && r.value.op == op && Unwrap(r.value) == err.value
  {
    match err
    case None => None
    case Some(e) => Some(FileError(op, e))
  }

  /** `FileError.Unwrap`. */
  function Unwrap(e: Error): Error
    requires e.FileError?
  {
    e.cause
  }
}

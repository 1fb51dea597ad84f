/**
 * Little-endian fixed-width integers as `encoding/binary` writes and reads
 * them with `binary.LittleEndian`, Go's truncating integer conversions, and a
 * `bytes.Reader` seen as the suffix of the input it has not consumed yet.
 */
module Bytes {
  import opened Wrappers
  import opened Errors

  type byte = b: int | 0 <= b < 256
  type uint16 = x: int | 0 <= x < 0x1_0000
  type uint32 = x: int | 0 <= x < 0x1_0000_0000
  type int32 = x: int | -0x8000_0000 <= x < 0x8000_0000
  type int64 = x: int | -0x8000_0000_0000_0000 <= x < 0x8000_0000_0000_0000

  /** 256^w: the number of values a `w`-byte word can hold. */
  function Pow256(w: nat): (r: nat)
    ensures r > 0
  {
    if w == 0 then 1 else 256 * Pow256(w - 1)
  }

  /** `v` as `w` little-endian bytes. */
  function UIntLE(v: nat, w: nat): (r: seq<byte>)
    requires v < Pow256(w)
    ensures |r| == w
  {
    if w == 0 then [] else [v % 256] + UIntLE(v / 256, w - 1)
  }

  /** The unsigned value of a little-endian byte string. */
  function ParseUIntLE(s: seq<byte>): (r: nat)
    ensures r < Pow256(|s|)
  {
    if |s| == 0 then 0 else s[0] + 256 * ParseUIntLE(s[1..])
  }

  lemma {:induction false} UIntRoundTrip(v: nat, w: nat)
    requires v < Pow256(w)
    ensures ParseUIntLE(UIntLE(v, w)) == v
  {
    if w > 0 {
      UIntRoundTrip(v / 256, w - 1);
      assert UIntLE(v, w)[1..] == UIntLE(v / 256, w - 1);
    }
  }

  lemma {:induction false} ParseUIntRoundTrip(s: seq<byte>)
    ensures UIntLE(ParseUIntLE(s), |s|) == s
  {
    if |s| > 0 {
      ParseUIntRoundTrip(s[1..]);
      assert s == [s[0]] + s[1..];
    }
  }

  /** Half the range of a `w`-byte word: 2^(8w-1). */
  function Half(w: nat): (r: nat)
    requires w > 0
    ensures 2 * r == Pow256(w)
  {
    Pow256(w - 1) * 128
  }

  /** `v` fits a signed two's-complement word of `w` bytes (Go's int8..int64). */
  predicate InSigned(v: int, w: nat)
  {
    w > 0 && -(Half(w) as int) <= v < Half(w)
  }

  /** The word sizes in use, spelled out. */
  lemma Widths()
    ensures Pow256(2) == 0x1_0000 && Pow256(4) == 0x1_0000_0000 && Half(4) == 0x8000_0000
    ensures Pow256(8) == 0x1_0000_0000_0000_0000 && Half(8) == 0x8000_0000_0000_0000
  {
  }

  /** Go's conversion `intN(x)`: keep the low `8w` bits, read them as signed. */
  function WrapSigned(x: int, w: nat): (r: int)
    requires w > 0
    ensures InSigned(r, w)
    ensures InSigned(x, w) ==> r == x
  {
    var p, h := Pow256(w), Half(w);
    ModRange(x + h, p);
    (x + h) % p - h
  }

  lemma ModRange(a: int, p: int)
    requires p > 0
    ensures 0 <= a % p < p
    ensures 0 <= a < p ==> a % p == a
  {
  }

  /** Go's `int32(x)`. */
  function ToInt32(x: int): (r: int32)
    ensures -0x8000_0000 <= x < 0x8000_0000 ==> r == x
  {
    WrapSigned(x, 4)
  }

  /** Go's `int64(x)`. */
  function ToInt64(x: int): (r: int64)
    ensures -0x8000_0000_0000_0000 <= x < 0x8000_0000_0000_0000 ==> r == x
  {
    WrapSigned(x, 8)
  }

  /** The two's-complement bit pattern of a signed value. */
  function ToTwos(v: int, w: nat): (u: nat)
    requires InSigned(v, w)
    ensures u < Pow256(w)
  {
    if v < 0 then v + Pow256(w) else v
  }

  /** The signed value of a two's-complement bit pattern. */
  function FromTwos(u: nat, w: nat): (v: int)
    requires w > 0 && u < Pow256(w)
    ensures InSigned(v, w)
  {
    if u >= Half(w) then u - Pow256(w) else u
  }

  function IntLE(v: int, w: nat): (r: seq<byte>)
    requires InSigned(v, w)
    ensures |r| == w
  {
    UIntLE(ToTwos(v, w), w)
  }

  function ParseIntLE(s: seq<byte>): (v: int)
    requires |s| > 0
    ensures InSigned(v, |s|)
  {
    FromTwos(ParseUIntLE(s), |s|)
  }

  lemma IntRoundTrip(v: int, w: nat)
    requires InSigned(v, w)
    ensures ParseIntLE(IntLE(v, w)) == v
  {
    UIntRoundTrip(ToTwos(v, w), w);
  }

  lemma ParseIntRoundTrip(s: seq<byte>)
    requires |s| > 0
    ensures IntLE(ParseIntLE(s), |s|) == s
  {
    ParseUIntRoundTrip(s);
  }

  /** Go's `binary.Write` of a bool: one byte, 1 or 0. */
  function BoolByte(b: bool): byte { if b then 1 else 0 }

  /** n zero bytes, as `make([]byte, n)` allocates them. */
  function Zeros(n: nat): (r: seq<byte>)
    ensures |r| == n && forall i :: 0 <= i < n ==> r[i] == 0
  {
    seq(n, _ => 0)
  }

  // ---------------------------------------------------------------------
  // Reading. A reader is the suffix of its input not yet consumed.

  datatype Read<T> = Read(val: T, rest: seq<byte>)

  /** `io.ReadFull` / `binary.Read` of `n` bytes: all of them or a short read. */
  function Take(input: seq<byte>, n: nat): (r: Result<Read<seq<byte>>, Error>)
    ensures r.Ok? <==> n <= |input|
    ensures r.Ok? ==> r.value.val + r.value.rest == input && |r.value.val| == n
  {
    if |input| < n then Err(ShortRead) else Ok(Read(input[..n], input[n..]))
  }

  /** `bytes.Reader.Read` into an n-byte buffer: fails only at end of input,
      otherwise copies what is left up to n bytes; the rest of the buffer stays zero. */
  function ReadSome(input: seq<byte>, n: nat): (r: Result<Read<seq<byte>>, Error>)
    ensures r.Ok? <==> |input| > 0
    ensures r.Ok? ==> |r.value.val| == n
    ensures r.Ok? && n <= |input| ==> r.value.val + r.value.rest == input
    ensures r.Ok? && n > |input| ==> r.value.rest == []
  {
    if |input| == 0 then Err(ShortRead)
    else if n <= |input| then Ok(Read(input[..n], input[n..]))
    else Ok(Read(input + Zeros(n - |input|), []))
  }

  /** `binary.Read` of an unsigned `w`-byte integer. */
  function ReadUInt(input: seq<byte>, w: nat): (r: Result<Read<nat>, Error>)
    ensures r.Ok? <==> w <= |input|
    ensures r.Ok? ==> r.value.val < Pow256(w) && r.value.rest == input[w..]
  {
    var chunk :- Take(input, w);
    Ok(Read(ParseUIntLE(chunk.val), chunk.rest))
  }

  /** `binary.Read` of a signed `w`-byte integer. */
  function ReadInt(input: seq<byte>, w: nat): (r: Result<Read<int>, Error>)
    requires w > 0
    ensures r.Ok? <==> w <= |input|
    ensures r.Ok? ==> InSigned(r.value.val, w) && r.value.rest == input[w..]
  {
    var chunk :- Take(input, w);
    Ok(Read(ParseIntLE(chunk.val), chunk.rest))
  }

  /** `binary.Read` of a bool: any non-zero byte reads as true. */
  function ReadBool(input: seq<byte>): (r: Result<Read<bool>, Error>)
    ensures r.Ok? <==> |input| >= 1
    ensures r.Ok? ==> r.value.val == (input[0] != 0) && r.value.rest == input[1..]
  {
    var chunk :- Take(input, 1);
    Ok(Read(chunk.val[0] != 0, chunk.rest))
  }

  lemma ReadUIntAfterWrite(v: nat, w: nat, rest: seq<byte>)
    requires v < Pow256(w)
    ensures ReadUInt(UIntLE(v, w) + rest, w) == Ok(Read(v, rest))
  {
    var s := UIntLE(v, w) + rest;
    assert s[..w] == UIntLE(v, w);
    assert s[w..] == rest;
    UIntRoundTrip(v, w);
  }

  lemma ReadIntAfterWrite(v: int, w: nat, rest: seq<byte>)
    requires InSigned(v, w)
    ensures ReadInt(IntLE(v, w) + rest, w) == Ok(Read(v, rest))
  {
    var s := IntLE(v, w) + rest;
    assert s[..w] == IntLE(v, w);
    assert s[w..] == rest;
    IntRoundTrip(v, w);
  }

  lemma ReadBoolAfterWrite(b: bool, rest: seq<byte>)
    ensures ReadBool([BoolByte(b)] + rest) == Ok(Read(b, rest))
  {
    assert ([BoolByte(b)] + rest)[1..] == rest;
  }

  lemma TakeAfterWrite(s: seq<byte>, rest: seq<byte>)
    ensures Take(s + rest, |s|) == Ok(Read(s, rest))
  {
    assert (s + rest)[..|s|] == s;
    assert (s + rest)[|s|..] == rest;
  }
}

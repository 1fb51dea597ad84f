/**
 * The null bitmap of lance/arrow/bitmap.go: a byte buffer whose bit `i % 8`
 * of byte `i / 8` records bit `i`, plus a length in bits. Arrow's convention
 * applies: a set bit marks a valid (non-null) slot.
 */
module Bitmaps {

  datatype Bitmap = Bitmap(buf: seq<bv8>, length: int)

  /** Go's `/` on integers, which truncates toward zero. */
  function GoDiv(a: int, d: nat): (q: int)
    requires d > 0
    ensures a >= 0 ==> q == a / d
  {
    if a >= 0 then a / d else -((-a) / d)
  }

  /** The byte count `(length + 7) / 8` that `NewBitmap` allocates. */
  function ByteCount(length: int): int
  {
    GoDiv(length + 7, 8)
  }

  /** The mask `1 << k` for bit `k` of a byte. */
  function Mask(k: nat): bv8
    requires k < 8
  {
    (1 as bv8) << k
  }

  predicate BitOf(x: bv8, k: nat)
    requires k < 8
  {
    x & Mask(k) != 0
  }

  lemma MaskBits(k: nat, j: nat)
    requires k < 8 && j < 8
    ensures (Mask(k) & Mask(j) != 0) == (k == j)
  {
  }

  /** Setting or clearing one bit of a byte leaves the other seven alone. */
  lemma ByteBits(x: bv8, k: nat, j: nat)
    requires k < 8 && j < 8
    ensures BitOf(x | Mask(k), j) == (j == k || BitOf(x, j))
    ensures BitOf(x & !Mask(k), j) == (j != k && BitOf(x, j))
  {
    MaskBits(k, j);
  }

  /** Index `i` passes the range check and addresses a byte of the buffer;
      `Set`, `Clear` and `IsSet` panic on any other index. */
  predicate InRange(b: Bitmap, i: int)
  {
    0 <= i < b.length && i / 8 < |b.buf|
  }

  /** Every index below the length addresses a byte of the buffer. */
  predicate Covers(b: Bitmap)
  {
    forall i :: 0 <= i < b.length ==> i / 8 < |b.buf|
  }

  /** `NewBitmap(length)`: a zeroed buffer of `(length + 7) / 8` bytes
      (`make` panics when that count is negative). */
  function NewBitmap(length: int): (b: Bitmap)
    requires ByteCount(length) >= 0
    ensures b.length == length && |b.buf| == ByteCount(length)
    ensures Covers(b)
    ensures forall i :: 0 <= i < length ==> !IsSet(b, i)
  {
    Bitmap(seq(ByteCount(length), _ => 0), length)
  }

  predicate IsSet(b: Bitmap, i: int)
    requires InRange(b, i)
  {
    BitOf(b.buf[i / 8], i % 8)
  }

  function Set(b: Bitmap, i: int): (r: Bitmap)
    requires InRange(b, i)
    ensures r.length == b.length && |r.buf| == |b.buf|
    ensures IsSet(r, i)
    ensures forall j :: InRange(b, j) && j != i ==> IsSet(r, j) == IsSet(b, j)
  {
    var r := b.(buf := b.buf[i / 8 := b.buf[i / 8] | Mask(i % 8)]);
    forall j | InRange(b, j)
      ensures IsSet(r, j) == (j == i || IsSet(b, j))
    {
      ByteBits(b.buf[i / 8], i % 8, j % 8);
    }
    r
  }

  function Clear(b: Bitmap, i: int): (r: Bitmap)
    requires InRange(b, i)
    ensures r.length == b.length && |r.buf| == |b.buf|
    ensures !IsSet(r, i)
    ensures forall j :: InRange(b, j) && j != i ==> IsSet(r, j) == IsSet(b, j)
  {
    var r := b.(buf := b.buf[i / 8 := b.buf[i / 8] & !Mask(i % 8)]);
    forall j | InRange(b, j)
      ensures IsSet(r, j) == (j != i && IsSet(b, j))
    {
      ByteBits(b.buf[i / 8], i % 8, j % 8);
    }
    r
  }

  lemma SetIdempotent(b: Bitmap, i: int)
    requires InRange(b, i)
    ensures Set(Set(b, i), i) == Set(b, i)
  {
    var x := b.buf[i / 8];
    assert (x | Mask(i % 8)) | Mask(i % 8) == x | Mask(i % 8);
  }

  /** `SetAll` writes 0xFF into every byte, padding bits included. */
  function SetAll(b: Bitmap): (r: Bitmap)
    ensures r.length == b.length && |r.buf| == |b.buf|
    ensures forall i :: InRange(b, i) ==> IsSet(r, i)
  {
    b.(buf := seq(|b.buf|, _ => 0xFF))
  }

  function ClearAll(b: Bitmap): (r: Bitmap)
    ensures r.length == b.length && |r.buf| == |b.buf|
    ensures forall i :: InRange(b, i) ==> !IsSet(r, i)
  {
    b.(buf := seq(|b.buf|, _ => 0))
  }

  function NewBitmapAllSet(length: int): (b: Bitmap)
    requires ByteCount(length) >= 0
    ensures b.length == length && |b.buf| == ByteCount(length) && Covers(b)
    ensures forall i :: 0 <= i < length ==> IsSet(b, i)
  {
    SetAll(NewBitmap(length))
  }

  /** The indices below `n` whose bit is set. */
  ghost function SetBitsBelow(b: Bitmap, n: int): set<int>
  {
    set i | 0 <= i < n && InRange(b, i) && IsSet(b, i)
  }

  lemma {:induction false} SetBitsBelowBound(b: Bitmap, n: nat)
    ensures |SetBitsBelow(b, n)| <= n
  {
    if n > 0 {
      SetBitsBelowBound(b, n - 1);
      if InRange(b, n - 1) && IsSet(b, n - 1) {
        assert SetBitsBelow(b, n) == SetBitsBelow(b, n - 1) + {n - 1};
      } else {
        assert SetBitsBelow(b, n) == SetBitsBelow(b, n - 1);
      }
    } else {
      assert SetBitsBelow(b, n) == {};
    }
  }

  /** `CountSet`: the number of indices in `[0, length)` whose bit is 1. */
  method CountSet(b: Bitmap) returns (count: int)
    requires Covers(b)
    ensures count == |SetBitsBelow(b, b.length)|
    ensures 0 <= count <= if b.length < 0 then 0 else b.length
  {
    count := 0;
    var i := 0;
    while i < b.length
      invariant 0 <= i && (b.length >= 0 ==> i <= b.length)
      invariant count == |SetBitsBelow(b, i)|
    {
      if IsSet(b, i) {
        assert SetBitsBelow(b, i + 1) == SetBitsBelow(b, i) + {i};
        count := count + 1;
      } else {
        assert SetBitsBelow(b, i + 1) == SetBitsBelow(b, i);
      }
      i := i + 1;
    }
    if b.length >= 0 {
      assert i == b.length;
      SetBitsBelowBound(b, i);
    } else {
      assert SetBitsBelow(b, b.length) == {};
    }
  }

  lemma AllSetCount(n: nat)
    ensures |SetBitsBelow(NewBitmapAllSet(n), n)| == n
  {
    AllSetCountBelow(NewBitmapAllSet(n), n);
  }

  lemma {:induction false} AllSetCountBelow(b: Bitmap, k: nat)
    requires k <= b.length && forall i :: 0 <= i < b.length ==> InRange(b, i) && IsSet(b, i)
    ensures |SetBitsBelow(b, k)| == k
  {
    if k > 0 {
      AllSetCountBelow(b, k - 1);
      assert SetBitsBelow(b, k) == SetBitsBelow(b, k - 1) + {k - 1};
    } else {
      assert SetBitsBelow(b, k) == {};
    }
  }

  lemma ClearAllCount(b: Bitmap)
    ensures |SetBitsBelow(ClearAll(b), b.length)| == 0
  {
    assert SetBitsBelow(ClearAll(b), b.length) == {};
  }

  // ---------------------------------------------------------------------
  // A bitmap built from validity flags, as an arrow builder leaves one
  // behind after `Append`/`AppendNull` calls.

  function Bit(b: bool, k: nat): bv8
    requires k < 8
  {
    if b then Mask(k) else 0
  }

  /** Bits `k..7` of the byte whose bit `m` is `valid[base + m]`. */
  function PackFrom(valid: seq<bool>, base: nat, k: nat): bv8
    requires k <= 8
    decreases 8 - k
  {
    if k == 8 then 0
    else Bit(base + k < |valid| && valid[base + k], k) | PackFrom(valid, base, k + 1)
  }

  lemma OrBit(x: bv8, y: bv8, m: nat)
    requires m < 8
    ensures BitOf(x | y, m) == (BitOf(x, m) || BitOf(y, m))
  {
  }

  lemma {:induction false} PackBit(valid: seq<bool>, base: nat, k: nat, m: nat)
    requires k <= 8 && m < 8
    ensures BitOf(PackFrom(valid, base, k), m) == (k <= m && base + m < |valid| && valid[base + m])
    decreases 8 - k
  {
    if k < 8 {
      PackBit(valid, base, k + 1, m);
      var b := base + k < |valid| && valid[base + k];
      OrBit(Bit(b, k), PackFrom(valid, base, k + 1), m);
      if b { MaskBits(k, m); }
    }
  }

  /** The bitmap whose bit `i` is `valid[i]`. */
  function FromBools(valid: seq<bool>): (b: Bitmap)
    ensures b.length == |valid| && |b.buf| == ByteCount(|valid|) && Covers(b)
    ensures forall i :: 0 <= i < |valid| ==> IsSet(b, i) == valid[i]
  {
    var n := ByteCount(|valid|);
    var b := Bitmap(seq(n, j requires 0 <= j < n => PackFrom(valid, 8 * j, 0)), |valid|);
    forall i | 0 <= i < |valid|
      ensures InRange(b, i) && IsSet(b, i) == valid[i]
    {
      PackBit(valid, 8 * (i / 8), 0, i % 8);
    }
    b
  }
}

/** Unaligned little-endian memory access (src/riscv/utils/memory.hpp), in its byte-shift form.

    `LittleEndian` and `Bytes` are the reference meaning: a number in base 256, least significant
    digit first. The loads and stores, which work with shifts and bitwise or, are proved to agree
    with it. */
module Memory {
  import opened Bits

  /** The contents of a `std::span<uint8_t const>`: a sequence whose length is a `size_t`. */
  type Span = s: seq<Byte> | |s| < TWO_64

  /** No object of a C++ program, a file in memory or a `std::vector` of bytes, has this many bytes. */
  const OBJECT_LIMIT: int := 0x8000_0000_0000_0000

  type File = s: seq<Byte> | |s| < OBJECT_LIMIT

  function LittleEndian(bytes: seq<Byte>): nat {
    if bytes == [] then 0 else bytes[0] + 256 * LittleEndian(bytes[1..])
  }

  function Bytes(value: nat, count: nat): (bytes: seq<Byte>)
    ensures |bytes| == count
  {
    if count == 0 then [] else [value % 256] + Bytes(value / 256, count - 1)
  }

  lemma {:induction false} LittleEndianBytes(value: nat, count: nat)
    requires value < Pow2(8 * count)
    ensures LittleEndian(Bytes(value, count)) == value
  {
    if count > 0 {
      Pow2Add(8, 8 * count - 8);
      assert Pow2(8) == 256;
      LittleEndianBytes(value / 256, count - 1);
      assert Bytes(value, count)[1..] == Bytes(value / 256, count - 1);
    }
  }

  lemma {:induction false} BytesLittleEndian(bytes: seq<Byte>)
    ensures Bytes(LittleEndian(bytes), |bytes|) == bytes
  {
    if bytes != [] {
      var rest := LittleEndian(bytes[1..]);
      BytesLittleEndian(bytes[1..]);
      DivModUnique(bytes[0] + 256 * rest, 256, rest, bytes[0]);
      assert bytes == [bytes[0]] + bytes[1..];
    }
  }

  lemma {:induction false} LittleEndianBound(bytes: seq<Byte>)
    ensures LittleEndian(bytes) < Pow2(8 * |bytes|)
  {
    if bytes != [] {
      LittleEndianBound(bytes[1..]);
      Pow2Add(8, 8 * |bytes| - 8);
      assert Pow2(8) == 256;
    }
  }

  lemma {:induction false} LittleEndianSnoc(bytes: seq<Byte>, top: Byte)
    ensures LittleEndian(bytes + [top]) == LittleEndian(bytes) + top * Pow2(8 * |bytes|)
  {
    if bytes == [] {
      assert LittleEndian([top][1..]) == 0;
      assert Pow2(0) == 1;
    } else {
      LittleEndianSnoc(bytes[1..], top);
      assert (bytes + [top])[1..] == bytes[1..] + [top];
      var n := |bytes|;
      Pow2Add(8, 8 * n - 8);
      assert Pow2(8) == 256;
      assert top * Pow2(8 * n) == 256 * (top * Pow2(8 * n - 8));
    }
  }

  /** Or-ing the next byte, shifted into place, extends the little-endian number by that byte. */
  lemma OrNextByte(s: seq<Byte>, p: nat, k: nat, width: nat)
    requires p + k < |s| && 8 * k + 8 <= width
    ensures Or(LittleEndian(s[p..p + k]), Shl(width, s[p + k], 8 * k)) == LittleEndian(s[p..p + k + 1])
  {
    var top := s[p + k];
    LittleEndianBound(s[p..p + k]);
    LittleEndianSnoc(s[p..p + k], top);
    assert s[p..p + k] + [top] == s[p..p + k + 1];
    assert Pow2(8) == 256;
    OrField(width, LittleEndian(s[p..p + k]), top, 8 * k, Pow2(8 * k), 8, 256);
  }

  lemma FirstByte(s: seq<Byte>, p: nat)
    requires p < |s|
    ensures LittleEndian(s[p..p + 1]) == s[p]
  {
    assert s[p..p + 1][1..] == [];
  }

  function LoadU16(s: seq<Byte>, p: nat): (r: nat)
    requires p + 2 <= |s|
    ensures r == LittleEndian(s[p..p + 2]) < 0x1_0000
  {
    FirstByte(s, p); OrNextByte(s, p, 1, 16);
    LittleEndianBound(s[p..p + 2]); Pow2Values();
    Or(s[p], Shl(16, s[p + 1], 8))
  }

  function LoadU32(s: seq<Byte>, p: nat): (r: Word32)
    requires p + 4 <= |s|
    ensures r == LittleEndian(s[p..p + 4])
  {
    FirstByte(s, p); OrNextByte(s, p, 1, 32); OrNextByte(s, p, 2, 32); OrNextByte(s, p, 3, 32);
    LittleEndianBound(s[p..p + 4]); Pow2Values();
    Or(Or(Or(s[p], Shl(32, s[p + 1], 8)), Shl(32, s[p + 2], 16)), Shl(32, s[p + 3], 24))
  }

  function LoadU64(s: seq<Byte>, p: nat): (r: Word64)
    requires p + 8 <= |s|
    ensures r == LittleEndian(s[p..p + 8])
  {
    FirstByte(s, p); OrNextByte(s, p, 1, 64); OrNextByte(s, p, 2, 64); OrNextByte(s, p, 3, 64);
    OrNextByte(s, p, 4, 64); OrNextByte(s, p, 5, 64); OrNextByte(s, p, 6, 64); OrNextByte(s, p, 7, 64);
    LittleEndianBound(s[p..p + 8]); Pow2Values();
    Or(Or(Or(Or(Or(Or(Or(s[p],
      Shl(64, s[p + 1], 8)), Shl(64, s[p + 2], 16)), Shl(64, s[p + 3], 24)),
      Shl(64, s[p + 4], 32)), Shl(64, s[p + 5], 40)), Shl(64, s[p + 6], 48)), Shl(64, s[p + 7], 56))
  }

  /** `s` with the bytes from position `p` on replaced by `bytes`. */
  function Paste(s: seq<Byte>, p: nat, bytes: seq<Byte>): (r: seq<Byte>)
    requires p + |bytes| <= |s|
    ensures |r| == |s|
  {
    s[..p] + bytes + s[p + |bytes|..]
  }

  function Zeros(n: nat): (r: seq<Byte>)
    ensures |r| == n && forall k :: 0 <= k < n ==> r[k] == 0
  {
    seq(n, _ => 0)
  }

  /** The byte that a store writes at distance `k` is digit `k` of the value. */
  lemma {:induction false} ByteAt(value: nat, count: nat, k: nat)
    requires k < count
    ensures Bytes(value, count)[k] == Shr(value, 8 * k) % 256
  {
    ShrValue(value, 8 * k);
    if k == 0 {
      assert Pow2(0) == 1;
    } else {
      ByteAt(value / 256, count - 1, k - 1);
      ShrValue(value / 256, 8 * k - 8);
      Pow2Add(8, 8 * k - 8);
      assert Pow2(8) == 256;
      DivDiv(value, 256, Pow2(8 * k - 8));
    }
  }

  method StoreU16(buffer: array<Byte>, p: nat, value: nat)
    requires p + 2 <= buffer.Length && value < 0x1_0000
    modifies buffer
    ensures buffer[..] == Paste(old(buffer[..]), p, Bytes(value, 2))
  {
    buffer[p] := Shr(value, 0) % 256;
    buffer[p + 1] := Shr(value, 8) % 256;
    forall k | 0 <= k < 2
      ensures buffer[p + k] == Bytes(value, 2)[k]
    {
      ByteAt(value, 2, k);
    }
  }

  method StoreU32(buffer: array<Byte>, p: nat, value: Word32)
    requires p + 4 <= buffer.Length
    modifies buffer
    ensures buffer[..] == Paste(old(buffer[..]), p, Bytes(value, 4))
  {
    buffer[p] := Shr(value, 0) % 256;
    buffer[p + 1] := Shr(value, 8) % 256;
    buffer[p + 2] := Shr(value, 16) % 256;
    buffer[p + 3] := Shr(value, 24) % 256;
    forall k | 0 <= k < 4
      ensures buffer[p + k] == Bytes(value, 4)[k]
    {
      ByteAt(value, 4, k);
    }
  }

  method StoreU64(buffer: array<Byte>, p: nat, value: Word64)
    requires p + 8 <= buffer.Length
    modifies buffer
    ensures buffer[..] == Paste(old(buffer[..]), p, Bytes(value, 8))
  {
    ghost var bytes := Bytes(value, 8);
    PutByte(buffer, p, value, 0);
    PutByte(buffer, p, value, 1);
    PutByte(buffer, p, value, 2);
    PutByte(buffer, p, value, 3);
    PutByte(buffer, p, value, 4);
    PutByte(buffer, p, value, 5);
    PutByte(buffer, p, value, 6);
    PutByte(buffer, p, value, 7);
  }

  /** `ptr[k] = static_cast<uint8_t>(value >> 8 * k)`. */
  method PutByte(buffer: array<Byte>, p: nat, value: Word64, k: nat)
    requires p + k < buffer.Length && k < 8
    modifies buffer
    ensures buffer[..] == old(buffer[..])[p + k := Bytes(value, 8)[k]]
  {
    ByteAt(value, 8, k);
    buffer[p + k] := Shr(value, 8 * k) % 256;
  }

  /** What was stored is what a load at the same place returns, at every place where the width fits. */
  lemma LoadAfterStore(s: seq<Byte>, p: nat, value16: nat, value32: Word32, value64: Word64)
    requires value16 < 0x1_0000
    ensures p + 2 <= |s| ==> LoadU16(Paste(s, p, Bytes(value16, 2)), p) == value16
    ensures p + 4 <= |s| ==> LoadU32(Paste(s, p, Bytes(value32, 4)), p) == value32
    ensures p + 8 <= |s| ==> LoadU64(Paste(s, p, Bytes(value64, 8)), p) == value64
  {
    Pow2Values();
    LittleEndianBytes(value16, 2);
    LittleEndianBytes(value32, 4);
    LittleEndianBytes(value64, 8);
    if p + 2 <= |s| { PasteSlice(s, p, Bytes(value16, 2)); }
    if p + 4 <= |s| { PasteSlice(s, p, Bytes(value32, 4)); }
    if p + 8 <= |s| { PasteSlice(s, p, Bytes(value64, 8)); }
  }

  lemma PasteSlice(s: seq<Byte>, p: nat, bytes: seq<Byte>)
    requires p + |bytes| <= |s|
    ensures Paste(s, p, bytes)[p..p + |bytes|] == bytes
  {
  }

  /** Storing back what was loaded changes nothing. */
  lemma StoreAfterLoad(s: seq<Byte>, p: nat)
    ensures p + 2 <= |s| ==> Paste(s, p, Bytes(LoadU16(s, p), 2)) == s
    ensures p + 4 <= |s| ==> Paste(s, p, Bytes(LoadU32(s, p), 4)) == s
    ensures p + 8 <= |s| ==> Paste(s, p, Bytes(LoadU64(s, p), 8)) == s
  {
    if p + 2 <= |s| { PasteBack(s, p, 2); }
    if p + 4 <= |s| { PasteBack(s, p, 4); }
    if p + 8 <= |s| { PasteBack(s, p, 8); }
  }

  lemma PasteBack(s: seq<Byte>, p: nat, n: nat)
    requires p + n <= |s|
    ensures Paste(s, p, Bytes(LittleEndian(s[p..p + n]), n)) == s
  {
    BytesLittleEndian(s[p..p + n]);
  }
}

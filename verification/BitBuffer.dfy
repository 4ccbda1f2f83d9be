/**
 The bit reader and writer of webrtc/base/bitbuffer.cc.  The specification is
 the buffer as one flat run of bits and a position in it; the code works on a
 first partial byte, whole bytes and a last partial byte.
 */
module BitBuffer {
  import opened Arith
  import opened Bytes
  import opened Bits
  import opened Golomb
  import ByteOrder

  // ------------------------------------------------------------------
  // Pieces of a byte
  // ------------------------------------------------------------------

  function Ones(n: nat): (bits: seq<bool>)
    ensures |bits| == n
  {
    seq(n, _ => true)
  }

  lemma {:induction false} MaskBits(k: nat, n: nat)
    requires k <= n
    ensures Pow2(k) - 1 < Pow2(n)
    ensures ToBits(Pow2(k) - 1, n) == Zeros(n - k) + Ones(k)
    decreases n
  {
    if k == 0 {
      ZeroBits(n);
    } else {
      MaskBits(k - 1, n - 1);
      assert (Pow2(k) - 1) / 2 == Pow2(k - 1) - 1;
      assert Ones(k) == Ones(k - 1) + [true];
    }
  }

  lemma {:induction false} PowerBits(k: nat, n: nat)
    requires k < n
    ensures Pow2(k) < Pow2(n)
    ensures ToBits(Pow2(k), n) == Zeros(n - k - 1) + [true] + Zeros(k)
    decreases n
  {
    if k == 0 {
      ZeroBits(n - 1);
      assert ToBits(1, n) == ToBits(0, n - 1) + [true];
      assert Zeros(n - 1) + [true] + Zeros(0) == Zeros(n - 1) + [true];
    } else {
      PowerBits(k - 1, n - 1);
      assert Zeros(k) == Zeros(k - 1) + [false];
    }
  }

  lemma PowZero()
    ensures Pow2(0) == 1
  {
  }

  lemma ShiftedOne(k: nat)
    requires k <= 8
    ensures Shl(1, k, 32) == Pow2(k)
  {
    hide ToBits, FromBits, Pow2, Shl, Shr, And, Or, Not;
    assert Pow2(0) == 1 by { PowZero(); }
    PowerBits(0, 32);
    PowerBits(k, 32);
    ShlSpec(1, k, 32);
    assert (Zeros(31) + [true] + Zeros(0))[k..] == Zeros(31 - k) + [true];
    BitsDetermine(Shl(1, k, 32), Pow2(k), 32);
  }

  /** The lowest `count` bits of `b`. */
  function LowestBits(b: byte, count: nat): nat
    requires count <= 8
  {
    ShiftedOne(count);
    And(b, Shl(1, count, 32) - 1, 8)
  }

  /** The highest `count` bits of `b`, moved to the lowest positions. */
  function HighestBits(b: byte, count: nat): nat
    requires count <= 8
  {
    var shift := 8 - count;
    var mask := Shl(0xFF, shift, 8);
    Shr(And(b, mask, 8), shift)
  }

  lemma LowestBitsSpec(b: byte, count: nat)
    requires count <= 8
    ensures LowestBits(b, count) < 256
    ensures ToBits(LowestBits(b, count), 8) == Zeros(8 - count) + ToBits(b, 8)[8 - count..]
  {
    hide ToBits, FromBits, Pow2, Shl, Shr, And, Or, Not;
    EightBits();
    ShiftedOne(count);
    MaskBits(count, 8);
    AndSpec(b, Pow2(count) - 1, 8);
  }

  lemma EightBits()
    ensures Pow2(8) == 256 && ToBits(0xFF, 8) == Ones(8)
  {
    assert Pow2(4) == 16 && Pow2(6) == 64 && Pow2(8) == 256;
    MaskBits(8, 8);
    assert Zeros(0) + Ones(8) == Ones(8);
  }

  lemma HighestBitsSpec(b: byte, count: nat)
    requires count <= 8
    ensures HighestBits(b, count) < 256
    ensures ToBits(HighestBits(b, count), 8) == Zeros(8 - count) + ToBits(b, 8)[..count]
  {
    hide ToBits, FromBits, Pow2, Shl, Shr, And, Or, Not;
    EightBits();
    var shift := 8 - count;
    var mask := Shl(0xFF, shift, 8);
    ShlSpec(0xFF, shift, 8);
    AndSpec(b, mask, 8);
    ShrSpec(And(b, mask, 8), shift, 8);
    assert AndBits(ToBits(b, 8), ToBits(mask, 8))[..count] == ToBits(b, 8)[..count];
  }

  /** `target` with `count` bits from the top of `source` written `offset` bits from its top. */
  function WritePartialByte(source: byte, count: nat, target: byte, offset: nat): byte
    requires offset < 8 && count <= 8 - offset
  {
    EightBits();
    var mask := Shr(Shl(0xFF, 8 - count, 8), offset);
    OrSpec(And(target, Not(mask, 8), 8), Shr(source, offset), 8);
    Or(And(target, Not(mask, 8), 8), Shr(source, offset), 8)
  }

  /**
   Only the masked bits change, provided that the bits of `source` below the
   ones to be written are clear or fall off the end of the byte.
   */
  lemma WritePartialByteSpec(source: byte, count: nat, target: byte, offset: nat)
    requires offset < 8 && count <= 8 - offset
    requires ToBits(source, 8)[count..] == Zeros(8 - count) || offset + count == 8
    ensures ToBits(WritePartialByte(source, count, target, offset), 8)
         == ToBits(target, 8)[..offset] + ToBits(source, 8)[..count] + ToBits(target, 8)[offset + count..]
  {
    hide ToBits, FromBits, Pow2, Shl, Shr, And, Or, Not, Zeros, AndBits, OrBits, NotBits;
    EightBits();
    var top := Shl(0xFF, 8 - count, 8);
    var mask := Shr(top, offset);
    ShlSpec(0xFF, 8 - count, 8);
    ShrSpec(top, offset, 8);
    ShiftedMask(offset, count);
    NotSpec(mask, 8);
    AndSpec(target, Not(mask, 8), 8);
    ShrSpec(source, offset, 8);
    OrSpec(And(target, Not(mask, 8), 8), Shr(source, offset), 8);
    Merge(ToBits(target, 8), ToBits(source, 8), offset, count);
  }

  /** The mask covers the bits to be written. */
  function Window(offset: nat, count: nat): (bits: seq<bool>)
    requires offset + count <= 8
    ensures |bits| == 8
  {
    Zeros(offset) + Ones(count) + Zeros(8 - count - offset)
  }

  lemma ShiftedMask(offset: nat, count: nat)
    requires offset + count <= 8
    ensures Zeros(offset) + (Ones(8)[8 - count..] + Zeros(8 - count))[..8 - offset] == Window(offset, count)
  {
    assert Ones(8)[8 - count..] == Ones(count);
    assert (Ones(count) + Zeros(8 - count))[..8 - offset] == Ones(count) + Zeros(8 - count - offset);
  }

  /** Masking the target and or-ing in the shifted source replaces the bits under the mask. */
  lemma Merge(target: seq<bool>, source: seq<bool>, offset: nat, count: nat)
    requires |target| == |source| == 8 && offset + count <= 8
    requires source[count..] == Zeros(8 - count) || offset + count == 8
    ensures OrBits(AndBits(target, NotBits(Window(offset, count))), Zeros(offset) + source[..8 - offset])
         == target[..offset] + source[..count] + target[offset + count..]
  {
    var kept, shifted := AndBits(target, NotBits(Window(offset, count))), Zeros(offset) + source[..8 - offset];
    var goal := target[..offset] + source[..count] + target[offset + count..];
    forall k | 0 <= k < 8
      ensures OrBits(kept, shifted)[k] == goal[k]
    {
      assert OrBits(kept, shifted)[k] == (kept[k] || shifted[k]);
      assert kept[k] == (target[k] && !Window(offset, count)[k]);
      if k >= offset + count {
        assert shifted[k] == source[count..][k - offset - count];
      }
    }
  }

  /** The highest byte of a 64-bit word. */
  function HighestByte(v: nat): nat {
    Shr(v, 56)
  }

  lemma HighestByteSpec(v: nat)
    requires v < Pow2(64)
    ensures HighestByte(v) < 256
    ensures ToBits(HighestByte(v), 8) == ToBits(v, 64)[..8]
  {
    hide ToBits, FromBits, Pow2, Shl, Shr, And, Or, Not;
    EightBits();
    ShrSpec(v, 56, 64);
    LowBits(Shr(v, 56), 64, 8);
    assert (Zeros(56) + ToBits(v, 64)[..8])[56..] == ToBits(v, 64)[..8];
    SmallFromBits(Shr(v, 56), 64, 8);
  }

  /** A word whose high bits are all clear is small. */
  lemma SmallFromBits(v: nat, n: nat, k: nat)
    requires k <= n && v < Pow2(n) && ToBits(v, n)[..n - k] == Zeros(n - k)
    ensures v < Pow2(k)
  {
    hide ToBits, FromBits, Pow2, Shl, Shr, And, Or, Not;
    var low := ToBits(v, n)[n - k..];
    FromToBits(v, n);
    assert ToBits(v, n) == Zeros(n - k) + low;
    FromBitsPadded(n - k, low);
    ToFromBits(low);
  }

  // ------------------------------------------------------------------
  // Accumulating bits in a 32-bit word
  // ------------------------------------------------------------------

  /** The word holds exactly the bits `s`, in its lowest positions. */
  ghost predicate Holds(word: nat, s: seq<bool>) {
    |s| <= 32 && word < Pow2(32) && ToBits(word, 32) == Zeros(32 - |s|) + s
  }

  lemma HoldsValue(word: nat, s: seq<bool>)
    requires Holds(word, s)
    ensures word == FromBits(s)
  {
    hide ToBits, FromBits, Pow2, Shl, Shr, And, Or, Not;
    FromToBits(word, 32);
    FromBitsPadded(32 - |s|, s);
  }

  lemma SmallHolds(x: nat, s: seq<bool>)
    requires |s| <= 8 && x < 256 && ToBits(x, 8) == Zeros(8 - |s|) + s
    ensures Holds(x, s)
  {
    hide ToBits, FromBits, Pow2, Shl, Shr, And, Or, Not;
    EightBits();
    SmallBits(x, 32, 8);
    assert Zeros(24) + Zeros(8 - |s|) == Zeros(32 - |s|);
    PowerBits(8, 32);
  }

  lemma ShiftAppends(word: nat, s: seq<bool>, x: nat, t: seq<bool>)
    requires Holds(word, s) && Holds(x, t) && |s| + |t| <= 32
    ensures Holds(Or(Shl(word, |t|, 32), x, 32), s + t)
  {
    hide ToBits, Pow2, Shl, Or, Zeros, Holds;
    ShiftedHolds(word, s, |t|);
    OrHolds(Shl(word, |t|, 32), s, x, t);
  }

  lemma ShiftedHolds(word: nat, s: seq<bool>, k: nat)
    requires Holds(word, s) && |s| + k <= 32
    ensures ToBits(Shl(word, k, 32), 32) == Zeros(32 - |s| - k) + s + Zeros(k)
  {
    hide ToBits, Pow2, Shl, Zeros;
    ShlSpec(word, k, 32);
    DropZeros(32 - |s|, s, k);
  }

  lemma OrHolds(shifted: nat, s: seq<bool>, x: nat, t: seq<bool>)
    requires |s| + |t| <= 32 && ToBits(shifted, 32) == Zeros(32 - |s| - |t|) + s + Zeros(|t|) && Holds(x, t)
    ensures |s| + |t| <= 32 && Holds(Or(shifted, x, 32), s + t)
  {
    hide ToBits, Pow2, Or, Zeros, OrBits;
    OrSpec(shifted, x, 32);
    OrDisjoint(32 - |s| - |t|, s, t);
  }

  lemma DropZeros(n: nat, s: seq<bool>, k: nat)
    requires k <= n
    ensures (Zeros(n) + s)[k..] == Zeros(n - k) + s
  {
  }

  lemma OrDisjoint(z: nat, s: seq<bool>, t: seq<bool>)
    ensures OrBits(Zeros(z) + s + Zeros(|t|), Zeros(z + |s|) + t) == Zeros(z) + (s + t)
  {
  }

  // ------------------------------------------------------------------
  // The buffer
  // ------------------------------------------------------------------

  /** `flat` with `bits` written at position `pos`, and nothing else changed. */
  function Overwrite(flat: seq<bool>, pos: nat, bits: seq<bool>): (r: seq<bool>)
    requires pos + |bits| <= |flat|
    ensures |r| == |flat|
  {
    flat[..pos] + bits + flat[pos + |bits|..]
  }

  lemma DropMore<T>(s: seq<T>, i: nat, k: nat)
    requires i + k <= |s|
    ensures s[i..][k..] == s[i + k..]
  {
  }

  lemma OverwriteAt(flat: seq<bool>, pos: nat, bits: seq<bool>)
    requires pos + |bits| <= |flat|
    ensures forall i :: 0 <= i < |flat| ==>
              Overwrite(flat, pos, bits)[i] == if pos <= i < pos + |bits| then bits[i - pos] else flat[i]
  {
  }

  // The steps of a read: what each piece adds to the accumulated word.

  lemma FirstPart(bytes: seq<byte>, i: nat, offset: nat)
    requires i < |bytes| && offset < 8
    ensures LowestBits(bytes[i], 8 - offset) < 256
    ensures Holds(LowestBits(bytes[i], 8 - offset), Flat(bytes)[8 * i + offset..8 * i + 8])
    ensures ToBits(LowestBits(bytes[i], 8 - offset), 8) == Zeros(offset) + Flat(bytes)[8 * i + offset..8 * i + 8]
  {
    hide ToBits, Pow2, And, LowestBits, Flat, Holds, Zeros;
    FlatAt(bytes, i);
    Slice(Flat(bytes), 8 * i, 8 * i + 8, offset, 8);
    LowestPart(bytes[i], offset, Flat(bytes)[8 * i + offset..8 * i + 8]);
  }

  lemma LowestPart(b: byte, offset: nat, part: seq<bool>)
    requires offset < 8 && part == ToBits(b, 8)[offset..]
    ensures LowestBits(b, 8 - offset) < 256
    ensures Holds(LowestBits(b, 8 - offset), part)
    ensures ToBits(LowestBits(b, 8 - offset), 8) == Zeros(offset) + part
  {
    hide ToBits, Pow2, And, LowestBits, Holds, Zeros;
    LowestBitsSpec(b, 8 - offset);
    SmallHolds(LowestBits(b, 8 - offset), part);
  }

  lemma FirstPartOnly(bytes: seq<byte>, i: nat, offset: nat, count: nat)
    requires i < |bytes| && offset + count < 8
    requires LowestBits(bytes[i], 8 - offset) < 256
    ensures HighestBits(LowestBits(bytes[i], 8 - offset), offset + count)
         == FromBits(Flat(bytes)[8 * i + offset..8 * i + offset + count])
  {
    hide ToBits, FromBits, Pow2, LowestBits, HighestBits, Flat, Holds;
    FirstPart(bytes, i, offset);
    var bits := LowestBits(bytes[i], 8 - offset);
    HighestBitsSpec(bits, offset + count);
    var whole, part := Flat(bytes)[8 * i + offset..8 * i + 8], Flat(bytes)[8 * i + offset..8 * i + offset + count];
    Slice(Flat(bytes), 8 * i + offset, 8 * i + 8, 0, count);
    PaddedFront(offset, whole, count);
    SmallHolds(HighestBits(bits, offset + count), part);
    HoldsValue(HighestBits(bits, offset + count), part);
  }

  lemma NoBitsOf(stray: byte, flat: seq<bool>, pos: nat)
    requires pos <= |flat|
    ensures LowestBits(stray, 8) < 256
    ensures HighestBits(LowestBits(stray, 8), 0) == 0 == FromBits(flat[pos..pos])
  {
    hide ToBits, Pow2, LowestBits, HighestBits, Holds;
    LowestBitsSpec(stray, 8);
    var low := LowestBits(stray, 8);
    HighestBitsSpec(low, 0);
    assert Zeros(8) + ToBits(low, 8)[..0] == Zeros(8) + [];
    SmallHolds(HighestBits(low, 0), []);
    HoldsValue(HighestBits(low, 0), []);
  }

  lemma PaddedFront(k: nat, s: seq<bool>, count: nat)
    requires k + count < 8 && count <= |s|
    ensures Zeros(8 - (k + count)) + (Zeros(k) + s)[..k + count] == Zeros(8 - count) + s[..count]
  {
  }

  lemma WholePart(bytes: seq<byte>, pos: nat, i: nat, bits: nat)
    requires i < |bytes| && pos <= 8 * i && 8 * i + 8 - pos <= 32
    requires Holds(bits, Flat(bytes)[pos..8 * i])
    ensures Holds(Or(Shl(bits, 8, 32), bytes[i], 32), Flat(bytes)[pos..8 * i + 8])
  {
    hide ToBits, Pow2, Or, Shl, Flat, Holds;
    var b := bytes[i];
    FlatAt(bytes, i);
    assert Zeros(0) + ToBits(b, 8) == ToBits(b, 8);
    SmallHolds(b, ToBits(b, 8));
    ShiftAppends(bits, Flat(bytes)[pos..8 * i], b, ToBits(b, 8));
    Join(Flat(bytes), pos, 8 * i, 8 * i + 8);
  }

  lemma LastPart(bytes: seq<byte>, pos: nat, i: nat, bits: nat, count: nat)
    requires i < |bytes| && pos <= 8 * i && 8 * i + count - pos <= 32 && count < 8
    requires Holds(bits, Flat(bytes)[pos..8 * i])
    ensures Holds(Or(Shl(bits, count, 32), HighestBits(bytes[i], count), 32), Flat(bytes)[pos..8 * i + count])
  {
    hide ToBits, Pow2, Or, Shl, HighestBits, Flat, Holds;
    FlatAt(bytes, i);
    HighestBitsSpec(bytes[i], count);
    var high, part := HighestBits(bytes[i], count), Flat(bytes)[8 * i..8 * i + count];
    Slice(Flat(bytes), 8 * i, 8 * i + 8, 0, count);
    SmallHolds(high, part);
    ShiftAppends(bits, Flat(bytes)[pos..8 * i], high, part);
    Join(Flat(bytes), pos, 8 * i, 8 * i + count);
  }

  // The steps of a write: the word being written keeps its remaining bits at the top.

  /** The 64-bit word has the bits `t` at the top and zeros below. */
  ghost predicate TopHolds(v: nat, t: seq<bool>) {
    |t| <= 64 && v < Pow2(64) && ToBits(v, 64) == t + Zeros(64 - |t|)
  }

  lemma TopStart(val: nat, n: nat)
    requires val < Pow2(64) && n <= 64
    ensures TopHolds(Shl(val, 64 - n, 64), ToBits(val, n))
  {
    hide ToBits, Pow2, Shl;
    ShlSpec(val, 64 - n, 64);
    LowBits(val, 64, n);
  }

  lemma TopDrop(v: nat, t: seq<bool>, k: nat)
    requires TopHolds(v, t) && k <= |t|
    ensures TopHolds(Shl(v, k, 64), t[k..])
  {
    hide ToBits, Pow2, Shl;
    ShlSpec(v, k, 64);
    assert (t + Zeros(64 - |t|))[k..] + Zeros(k) == t[k..] + Zeros(64 - |t| + k);
  }

  lemma TopByte(v: nat, t: seq<bool>)
    requires TopHolds(v, t)
    ensures HighestByte(v) < 256
    ensures |t| >= 8 ==> ToBits(HighestByte(v), 8) == t[..8]
    ensures |t| < 8 ==> ToBits(HighestByte(v), 8) == t + Zeros(8 - |t|)
  {
    hide ToBits, Pow2, HighestByte;
    HighestByteSpec(v);
    if |t| >= 8 {
      assert (t + Zeros(64 - |t|))[..8] == t[..8];
    } else {
      assert (t + Zeros(64 - |t|))[..8] == t + Zeros(8 - |t|);
    }
  }

  /** A partial byte: the first `min(|t|, 8 - offset)` bits of `t` land at `offset`, the other bits stay. */
  lemma PartWritten(flat: seq<bool>, at: nat, target: byte, offset: nat, v: nat, t: seq<bool>)
    requires at + 8 <= |flat| && flat[at..at + 8] == ToBits(target, 8)
    requires offset < 8 && TopHolds(v, t) && at + offset + |t| <= |flat|
    ensures HighestByte(v) < 256
    ensures ToBits(WritePartialByte(HighestByte(v), Min(|t|, 8 - offset), target, offset), 8)
         == Overwrite(flat, at + offset, t)[at..at + 8]
  {
    hide ToBits, Pow2, HighestByte, WritePartialByte, TopHolds, Overwrite, Zeros;
    TopByte(v, t);
    var count, source := Min(|t|, 8 - offset), HighestByte(v);
    TopByteParts(ToBits(source, 8), t, offset);
    WritePartialByteSpec(source, count, target, offset);
    OverwrittenByte(flat, at, offset, t, count);
  }

  lemma TopByteParts(source: seq<bool>, t: seq<bool>, offset: nat)
    requires |source| == 8 && offset < 8
    requires |t| >= 8 ==> source == t[..8]
    requires |t| < 8 ==> source == t + Zeros(8 - |t|)
    ensures source[..Min(|t|, 8 - offset)] == t[..Min(|t|, 8 - offset)]
    ensures |t| <= 8 - offset ==> source[|t|..] == Zeros(8 - |t|)
  {
  }

  lemma OverwrittenByte(flat: seq<bool>, at: nat, offset: nat, t: seq<bool>, count: nat)
    requires offset < 8 && at + 8 <= |flat| && at + offset + |t| <= |flat| && count == Min(|t|, 8 - offset)
    ensures Overwrite(flat, at + offset, t)[at..at + 8]
         == flat[at..at + 8][..offset] + t[..count] + flat[at..at + 8][offset + count..]
  {
    var o := Overwrite(flat, at + offset, t);
    var x, y := o[at..at + 8], flat[at..at + 8][..offset] + t[..count] + flat[at..at + 8][offset + count..];
    assert |x| == |y| == 8;
    forall k | 0 <= k < 8
      ensures x[k] == y[k]
    {
      assert x[k] == o[at + k];
      if k < offset {
        assert y[k] == flat[at..at + 8][k] == flat[at + k];
      } else if k < offset + count {
        assert y[k] == t[k - offset];
      } else {
        assert y[k] == flat[at..at + 8][k] == flat[at + k];
      }
    }
  }

  /** Once the first bits of `bits` are in place, the rest is a write of the remaining bits further on. */
  lemma OverwriteRest(flat: seq<bool>, pos: nat, bits: seq<bool>, done: nat, lo: nat, hi: nat)
    requires pos + |bits| <= |flat| && done <= |bits| && pos + done <= lo <= hi <= |flat|
    ensures Overwrite(flat, pos, bits)[lo..hi] == Overwrite(flat, pos + done, bits[done..])[lo..hi]
  {
  }

  class BitBufferWriter {
    const bytes: array<byte>
    var byteOffset: nat
    var bitOffset: nat

    ghost predicate Valid()
      reads this
    {
      bitOffset <= 7 && Pos() <= 8 * bytes.Length
    }

    /** The position in the flat bits. */
    function Pos(): nat
      reads this
    {
      8 * byteOffset + bitOffset
    }

    ghost function Contents(): seq<bool>
      reads this, bytes
    {
      Flat(bytes[..])
    }

    constructor (bytes: array<byte>)
      ensures Valid() && Pos() == 0 && this.bytes == bytes
    {
      this.bytes := bytes;
      byteOffset, bitOffset := 0, 0;
    }

    function RemainingBitCount(): (r: nat)
      reads this
      requires Valid()
      ensures Pos() + r == 8 * bytes.Length
    {
      (bytes.Length - byteOffset) * 8 - bitOffset
    }

    method ConsumeBits(bitCount: nat) returns (ok: bool)
      requires Valid()
      modifies this`byteOffset, this`bitOffset
      ensures Valid()
      ensures ok <==> bitCount <= 8 * bytes.Length - old(Pos())
      ensures Pos() == if ok then old(Pos()) + bitCount else old(Pos())
    {
      if bitCount > RemainingBitCount() {
        return false;
      }
      byteOffset, bitOffset := byteOffset + (bitOffset + bitCount) / 8, (bitOffset + bitCount) % 8;
      return true;
    }

    method Seek(toByte: nat, toBit: nat) returns (ok: bool)
      requires Valid()
      modifies this`byteOffset, this`bitOffset
      ensures Valid()
      ensures ok <==> toBit <= 7 && 8 * toByte + toBit <= 8 * bytes.Length
      ensures Pos() == if ok then 8 * toByte + toBit else old(Pos())
    {
      if toByte > bytes.Length || toBit > 7 || (toByte == bytes.Length && toBit > 0) {
        return false;
      }
      byteOffset, bitOffset := toByte, toBit;
      return true;
    }

    /**
     Returns the next bits as a big-endian number.  A peek of no bits at the end
     of the buffer loads the byte behind it, whatever that is, and returns zero.
     */
    method PeekBits(bitCount: nat) returns (ok: bool, val: nat)
      requires Valid()
      ensures ok <==> bitCount <= 8 * bytes.Length - Pos() && bitCount <= 32
      ensures ok ==> val == FromBits(Contents()[Pos()..Pos() + bitCount])
    {
      hide ToBits, FromBits, Pow2, Shl, Shr, And, Or, Not, LowestBits, HighestBits, Flat, Holds;
      if bitCount > RemainingBitCount() || bitCount > 32 {
        return false, 0;
      }
      ghost var pos := Pos();
      var i := byteOffset;
      var remainingBitsInCurrentByte := 8 - bitOffset;
      if i == bytes.Length {
        var stray: byte := *;
        NoBitsOf(stray, Contents(), pos);
        return true, HighestBits(LowestBits(stray, 8), 0);
      }
      FirstPart(bytes[..], i, bitOffset);
      var bits := LowestBits(bytes[i], remainingBitsInCurrentByte);
      if bitCount < remainingBitsInCurrentByte {
        FirstPartOnly(bytes[..], i, bitOffset, bitCount);
        return true, HighestBits(bits, bitOffset + bitCount);
      }
      i := i + 1;
      var left := bitCount - remainingBitsInCurrentByte;
      while left >= 8
        invariant 0 <= left && 8 * i + left == pos + bitCount
        invariant pos <= 8 * i
        invariant Holds(bits, Contents()[pos..8 * i])
      {
        WholePart(bytes[..], pos, i, bits);
        bits := Or(Shl(bits, 8, 32), bytes[i], 32);
        i := i + 1;
        left := left - 8;
      }
      if left > 0 {
        LastPart(bytes[..], pos, i, bits, left);
        bits := Or(Shl(bits, left, 32), HighestBits(bytes[i], left), 32);
      }
      HoldsValue(bits, Contents()[pos..pos + bitCount]);
      return true, bits;
    }

    method ReadBits(bitCount: nat) returns (ok: bool, val: nat)
      requires Valid()
      modifies this`byteOffset, this`bitOffset
      ensures Valid()
      ensures ok <==> bitCount <= 8 * bytes.Length - old(Pos()) && bitCount <= 32
      ensures Pos() == if ok then old(Pos()) + bitCount else old(Pos())
      ensures ok ==> val == FromBits(Contents()[old(Pos())..Pos()])
    {
      ok, val := PeekBits(bitCount);
      if ok {
        ok := ConsumeBits(bitCount);
      }
    }

    method PutByte(i: nat, b: byte)
      requires i < bytes.Length
      modifies bytes
      ensures bytes[..] == old(bytes[..])[i := b]
    {
      bytes[i] := b;
    }

    /**
     The bits from the position on become the low bits of `val`; every other bit
     keeps its value.  There is no result when the code shifts a 64-bit word by
     64 or more.
     */
    method WriteBits(val: nat, bitCount: nat) returns (r: Option<bool>)
      requires Valid() && val < Pow2(64)
      modifies this`byteOffset, this`bitOffset, bytes
      ensures Valid()
      ensures r == if bitCount > 8 * bytes.Length - old(Pos()) then Some(false)
                   else if 1 <= bitCount <= 64 then Some(true) else None
      ensures r == Some(true) ==> Contents() == Overwrite(old(Contents()), old(Pos()), ToBits(val, bitCount))
      ensures |Contents()| == |old(Contents())|
      ensures r == Some(true) ==>
                forall i :: 0 <= i < |Contents()| ==>
                  Contents()[i] == if old(Pos()) <= i < old(Pos()) + bitCount then ToBits(val, bitCount)[i - old(Pos())]
                                   else old(Contents())[i]
      ensures r == Some(true) ==> Pos() == old(Pos()) + bitCount
      ensures r != Some(true) ==> Contents() == old(Contents()) && Pos() == old(Pos())
    {
      hide ToBits, Pow2, Shl, HighestByte, WritePartialByte, Flat, TopHolds, Overwrite, Written;
      if bitCount > RemainingBitCount() {
        return Some(false);
      }
      if bitCount == 0 || bitCount > 64 {
        return None;
      }
      ghost var was, flat, pos, b := bytes[..], Contents(), Pos(), ToBits(val, bitCount);
      TopStart(val, bitCount);
      var v := Shl(val, 64 - bitCount, 64);
      var i := byteOffset;
      var remainingBitsInCurrentByte := 8 - bitOffset;
      var bitsInFirstByte := Min(bitCount, remainingBitsInCurrentByte);
      FlatAt(was, i);
      PartWritten(flat, 8 * i, bytes[i], bitOffset, v, b);
      PutByte(i, WritePartialByte(HighestByte(v), bitsInFirstByte, bytes[i], bitOffset));
      FirstWritten(was, bytes[..], pos, b, i);
      if bitCount > remainingBitsInCurrentByte {
        TopDrop(v, b, bitsInFirstByte);
        WriteRest(was, flat, pos, b, Shl(v, bitsInFirstByte, 64), i + 1, bitCount - bitsInFirstByte);
      } else {
        Finished(was, bytes[..], pos, b, i + 1);
      }
      OverwriteAt(flat, pos, b);
      var ok := ConsumeBits(bitCount);
      return Some(ok);
    }

    /** The part of WriteBits after the first byte: whole bytes, then the rest of a last one. */
    method WriteRest(ghost was: seq<byte>, ghost flat: seq<bool>, ghost pos: nat, ghost b: seq<bool>,
                     word: nat, from: nat, bitCount: nat)
      requires |was| == bytes.Length && flat == Flat(was) && pos + |b| <= |flat|
      requires bitCount <= |b| && 8 * from + bitCount == pos + |b|
      requires TopHolds(word, b[|b| - bitCount..]) && Written(was, bytes[..], pos, b, from)
      modifies bytes
      ensures Contents() == Overwrite(flat, pos, b)
    {
      hide ToBits, Pow2, Shl, HighestByte, WritePartialByte, Flat, TopHolds, Overwrite, Written;
      var v, i, left := word, from, bitCount;
      while left >= 8
        invariant 0 <= left <= |b| && 8 * i + left == pos + |b|
        invariant TopHolds(v, b[|b| - left..])
        invariant Written(was, bytes[..], pos, b, i)
      {
        WholeWritten(flat, 8 * i, pos, v, b, left);
        ghost var now := bytes[..];
        PutByte(i, HighestByte(v));
        NextWritten(was, now, bytes[..], pos, b, i);
        i := i + 1;
        TopDrop(v, b[|b| - left..], 8);
        DropMore(b, |b| - left, 8);
        v := Shl(v, 8, 64);
        left := left - 8;
      }
      if left > 0 {
        Untouched(was, bytes[..], pos, b, i);
        LastWritten(flat, 8 * i, bytes[i], pos, v, b, left);
        ghost var now := bytes[..];
        PutByte(i, WritePartialByte(HighestByte(v), left, bytes[i], 0));
        NextWritten(was, now, bytes[..], pos, b, i);
        i := i + 1;
      }
      Finished(was, bytes[..], pos, b, i);
    }

    /** Writes the code word of `val`; the largest 32-bit value has none. */
    method WriteExponentialGolomb(val: nat) returns (ok: bool)
      requires Valid() && val < Pow2(32)
      modifies this`byteOffset, this`bitOffset, bytes
      ensures Valid()
      ensures ok <==> val != Pow2(32) - 1 && |Code(val)| <= 8 * bytes.Length - old(Pos())
      ensures ok ==> Contents() == Overwrite(old(Contents()), old(Pos()), Code(val))
      ensures ok ==> Pos() == old(Pos()) + |Code(val)|
      ensures !ok ==> Contents() == old(Contents()) && Pos() == old(Pos())
    {
      hide Pow2, ToBits, Flat, Overwrite, CountBits;
      assert Pow2(32) == 0x1_0000_0000 by { PowerValues(); }
      if val == 0xFFFFFFFF {
        return false;
      }
      var valToEncode := val + 1;
      var count := CountBitsLoop(valToEncode);
      CountBitsBounds(valToEncode);
      CountBitsAtMost(valToEncode, 32);
      PowMonotone(32, 64);
      var written := WriteBits(valToEncode, count * 2 - 1);
      return written.value;
    }

    /** Reads one code word; on failure the position is restored. */
    method ReadExponentialGolomb() returns (ok: bool, val: nat)
      requires Valid()
      modifies this`byteOffset, this`bitOffset
      ensures Valid()
      ensures ok <==> Decode(Contents()[old(Pos())..]).Found?
      ensures ok ==> val == Decode(Contents()[old(Pos())..]).value
      ensures ok ==> Pos() == old(Pos()) + Decode(Contents()[old(Pos())..]).length
      ensures !ok ==> Pos() == old(Pos())
    {
      hide FromBits, Flat, LeadingZeros, ToBits, Pow2, Decode;
      var originalByteOffset, originalBitOffset := byteOffset, bitOffset;
      ghost var start := Pos();
      var zeroBitCount := SkipZeroBits();
      var valueBitCount := zeroBitCount + 1;
      if valueBitCount <= 32 {
        ok, val := ReadBits(valueBitCount);
      } else {
        ok, val := false, 0;
      }
      if !ok {
        NoNumber(Contents(), start, zeroBitCount);
        var back := Seek(originalByteOffset, originalBitOffset);
        return false, val;
      }
      ReadNumber(Contents(), start, zeroBitCount, val);
      return true, val - 1;
    }

    /** Peeks and consumes zero bits one at a time, up to a one or the end. */
    method SkipZeroBits() returns (zeroBitCount: nat)
      requires Valid()
      modifies this`byteOffset, this`bitOffset
      ensures Valid() && Pos() == old(Pos()) + zeroBitCount
      ensures zeroBitCount == LeadingZeros(Contents()[old(Pos())..])
    {
      hide FromBits, Flat, LeadingZeros, ToBits, Pow2;
      ghost var flat, start := Contents(), Pos();
      ghost var bits := flat[start..];
      zeroBitCount := 0;
      assert bits[0..] == bits;
      var more, peeked := PeekBits(1);
      while more && peeked == 0
        invariant Valid() && Contents() == flat && Pos() == start + zeroBitCount
        invariant more <==> start + zeroBitCount < |flat|
        invariant more ==> peeked == FromBits(flat[start + zeroBitCount..start + zeroBitCount + 1])
        invariant zeroBitCount <= |bits| && LeadingZeros(bits) == zeroBitCount + LeadingZeros(bits[zeroBitCount..])
        decreases |flat| - zeroBitCount
      {
        BitAt(flat, start, zeroBitCount);
        ZeroInFront(bits, zeroBitCount);
        zeroBitCount := zeroBitCount + 1;
        var _ := ConsumeBits(1);
        more, peeked := PeekBits(1);
      }
      StopsAtOne(flat, start, zeroBitCount, more, peeked);
    }

    /** Reads one signed value. */
    method ReadSignedExponentialGolomb() returns (ok: bool, val: int)
      requires Valid()
      modifies this`byteOffset, this`bitOffset
      ensures Valid()
      ensures ok <==> Decode(Contents()[old(Pos())..]).Found?
      ensures ok ==> -MAX_INT32 <= val <= MAX_INT32 && ToUnsigned(val) == Decode(Contents()[old(Pos())..]).value
      ensures ok ==> var v: int := Decode(Contents()[old(Pos())..]).value; 2 * val == if v % 2 == 1 then v + 1 else -v
      ensures ok ==> Pos() == old(Pos()) + Decode(Contents()[old(Pos())..]).length
      ensures !ok ==> Pos() == old(Pos())
    {
      hide Decode, Flat, Pow2;
      var unsignedVal;
      ok, unsignedVal := ReadExponentialGolomb();
      if !ok {
        return false, 0;
      }
      CodeOfDecoded(Contents()[old(Pos())..]);
      SignedBijection(unsignedVal, 0);
      if unsignedVal % 2 == 0 {
        val := -(unsignedVal as int / 2);
      } else {
        val := (unsignedVal + 1) / 2;
      }
      SignedValue(unsignedVal);
    }
  }

  lemma SignedValue(u: nat)
    ensures 2 * ToSigned(u) == if u % 2 == 1 then u + 1 else -(u as int)
  {
  }

  lemma OneBit(b: bool)
    ensures FromBits([b]) == if b then 1 else 0
  {
    assert [b][..0] == [];
  }

  lemma BitAt(flat: seq<bool>, start: nat, z: nat)
    requires start + z < |flat|
    ensures FromBits(flat[start + z..start + z + 1]) == if flat[start..][z] then 1 else 0
  {
    assert flat[start + z..start + z + 1] == [flat[start + z]];
    OneBit(flat[start + z]);
  }

  lemma ZeroInFront(bits: seq<bool>, z: nat)
    requires z < |bits| && !bits[z]
    ensures LeadingZeros(bits[z..]) == 1 + LeadingZeros(bits[z + 1..])
  {
    assert bits[z..][1..] == bits[z + 1..];
  }

  /** When the counting stops, the count is that of the leading zeros. */
  lemma StopsAtOne(flat: seq<bool>, start: nat, z: nat, more: bool, peeked: nat)
    requires start + z <= |flat| && (more <==> start + z < |flat|)
    requires more ==> peeked == FromBits(flat[start + z..start + z + 1]) && peeked != 0
    requires LeadingZeros(flat[start..]) == z + LeadingZeros(flat[start..][z..])
    ensures LeadingZeros(flat[start..]) == z
  {
    hide FromBits;
    if more {
      BitAt(flat, start, z);
    }
  }

  lemma NoNumber(flat: seq<bool>, start: nat, z: nat)
    requires start <= |flat| && LeadingZeros(flat[start..]) == z
    requires z + 1 > 32 || start + z + z + 1 > |flat|
    ensures Decode(flat[start..]) == NoCode
  {
  }

  lemma ReadNumber(flat: seq<bool>, start: nat, z: nat, val: nat)
    requires start + z + z + 1 <= |flat| && LeadingZeros(flat[start..]) == z && z + 1 <= 32
    requires val == FromBits(flat[start + z..start + z + z + 1])
    ensures val >= 1 && Decode(flat[start..]) == Found(val - 1, z + z + 1)
  {
    hide FromBits, Pow2;
    var bits := flat[start..];
    DropSlice(flat, start, z, z + z + 1);
    LeadingOne(bits[z..z + z + 1]);
  }

  // ------------------------------------------------------------------
  // Writing and reading back
  // ------------------------------------------------------------------

  /** What was written at a position is what is read there: the value modulo the power of its width. */
  lemma WriteThenRead(flat: seq<bool>, pos: nat, val: nat, n: nat)
    requires pos + n <= |flat|
    ensures FromBits(Overwrite(flat, pos, ToBits(val, n))[pos..pos + n]) == val % Pow2(n)
  {
    hide ToBits, FromBits, Pow2;
    LowBitsModulo(val, n);
    assert Overwrite(flat, pos, ToBits(val, n))[pos..pos + n] == ToBits(val, n);
  }

  /** Two writes in a row are one write of the bits in a row. */
  lemma WriteTwice(flat: seq<bool>, pos: nat, a: seq<bool>, b: seq<bool>)
    requires pos + |a| + |b| <= |flat|
    ensures Overwrite(Overwrite(flat, pos, a), pos + |a|, b) == Overwrite(flat, pos, a + b)
  {
  }

  lemma WriteNothing(flat: seq<bool>, pos: nat)
    requires pos <= |flat|
    ensures Overwrite(flat, pos, []) == flat
  {
  }

  /** Bits that begin and end with a byte are the bytes' number, most significant byte first. */
  lemma {:induction false} BytesAsNumber(bytes: seq<byte>, i: nat, j: nat)
    requires i <= j <= |bytes|
    ensures FromBits(Flat(bytes)[8 * i..8 * j]) == ByteOrder.FromBigEndian(bytes[i..j])
    decreases j
  {
    hide Flat, FromBits;
    FlatSlice(bytes, i, j);
    if i == j {
      assert bytes[i..j] == [];
      NoBytes();
    } else {
      BytesAsNumber(bytes, i, j - 1);
      FlatSlice(bytes, i, j - 1);
      assert bytes[i..j] == bytes[i..j - 1] + [bytes[j - 1]];
      FlatNumber(bytes[i..j - 1], bytes[j - 1]);
    }
  }

  lemma NoBytes()
    ensures FromBits(Flat([])) == 0
  {
  }

  /** Writes a value, seeks back and reads: the value modulo the power of its width. */
  method WriteSeekRead(w: BitBufferWriter, val: nat, n: nat) returns (ok: bool, back: nat)
    requires w.Valid() && val < Pow2(64) && 1 <= n
    modifies w, w.bytes
    ensures w.Valid()
    ensures ok <==> n <= 32 && n <= 8 * w.bytes.Length - old(w.Pos())
    ensures ok ==> back == val % Pow2(n) && w.Pos() == old(w.Pos()) + n
    ensures ok ==> w.Contents() == Overwrite(old(w.Contents()), old(w.Pos()), ToBits(val, n))
  {
    hide ToBits, FromBits, Pow2, Overwrite, Flat;
    ghost var flat, pos := w.Contents(), w.Pos();
    var toByte, toBit := w.byteOffset, w.bitOffset;
    var written := w.WriteBits(val, n);
    if written != Some(true) {
      return false, 0;
    }
    var _ := w.Seek(toByte, toBit);
    ok, back := w.ReadBits(n);
    WriteThenRead(flat, pos, val, n);
  }

  /**
   Writes the code words of `vs` one by one, seeks back and reads as many values.
   `ends` are the positions after each read: the one after the i-th is where the
   write of the i-th word ended.
   */
  method WriteSeekReadCodes(w: BitBufferWriter, vs: seq<nat>) returns (ok: bool, back: seq<nat>, ends: seq<nat>)
    requires w.Valid() && forall i :: 0 <= i < |vs| ==> vs[i] < Pow2(32)
    modifies w, w.bytes
    ensures w.Valid()
    ensures ok <==> (forall i :: 0 <= i < |vs| ==> vs[i] < Pow2(32) - 1)
                    && |Codes(vs)| <= 8 * w.bytes.Length - old(w.Pos())
    ensures ok ==> w.Contents() == Overwrite(old(w.Contents()), old(w.Pos()), Codes(vs))
    ensures ok ==> back == vs
    ensures ok ==> |ends| == |vs| && forall i :: 0 <= i < |vs| ==> ends[i] == old(w.Pos()) + |Codes(vs[..i + 1])|
  {
    hide ToBits, Pow2, Overwrite, Flat, Decode, Code, Codes;
    var toByte, toBit := w.byteOffset, w.bitOffset;
    ghost var flat, pos := w.Contents(), w.Pos();
    ok := WriteAll(w, vs);
    if !ok {
      return false, [], [];
    }
    var _ := w.Seek(toByte, toBit);
    AfterPosition(flat, pos, Codes(vs));
    back, ends := ReadAll(w, |vs|, vs, flat[pos + |Codes(vs)|..]);
  }

  method WriteAll(w: BitBufferWriter, vs: seq<nat>) returns (ok: bool)
    requires w.Valid() && forall i :: 0 <= i < |vs| ==> vs[i] < Pow2(32)
    modifies w, w.bytes
    ensures w.Valid()
    ensures ok <==> (forall i :: 0 <= i < |vs| ==> vs[i] < Pow2(32) - 1)
                    && |Codes(vs)| <= 8 * w.bytes.Length - old(w.Pos())
    ensures ok ==> w.Contents() == Overwrite(old(w.Contents()), old(w.Pos()), Codes(vs))
    ensures ok ==> w.Pos() == old(w.Pos()) + |Codes(vs)|
  {
    hide ToBits, Pow2, Overwrite, Flat, Code, Codes;
    ghost var flat, pos := w.Contents(), w.Pos();
    NoCodes();
    assert vs[..0] == [];
    WriteNothing(flat, pos);
    for k := 0 to |vs|
      invariant w.Valid() && forall i :: 0 <= i < k ==> vs[i] < Pow2(32) - 1
      invariant pos + |Codes(vs[..k])| <= |flat| == 8 * w.bytes.Length
      invariant w.Contents() == Overwrite(flat, pos, Codes(vs[..k]))
      invariant w.Pos() == pos + |Codes(vs[..k])|
    {
      CodesStep(vs, k);
      ok := w.WriteExponentialGolomb(vs[k]);
      if !ok {
        return;
      }
      WriteTwice(flat, pos, Codes(vs[..k]), Code(vs[k]));
    }
    assert vs[..|vs|] == vs;
    return true;
  }

  method ReadAll(w: BitBufferWriter, n: nat, ghost vs: seq<nat>, ghost rest: seq<bool>)
    returns (back: seq<nat>, ends: seq<nat>)
    requires w.Valid() && n == |vs| && w.Contents()[w.Pos()..] == Codes(vs) + rest
    requires forall i :: 0 <= i < n ==> vs[i] < Pow2(32) - 1
    modifies w
    ensures w.Valid() && back == vs
    ensures |ends| == n && forall i :: 0 <= i < n ==> ends[i] == old(w.Pos()) + |Codes(vs[..i + 1])|
  {
    hide ToBits, Pow2, Overwrite, Flat, Decode, Code, Codes;
    ghost var flat, pos := w.Contents(), w.Pos();
    back, ends := [], [];
    NoCodes();
    assert vs[..0] == [];
    for k := 0 to n
      invariant w.Valid() && w.Contents() == flat && |flat| == 8 * w.bytes.Length
      invariant w.Pos() == pos + |Codes(vs[..k])|
      invariant back == vs[..k]
      invariant |ends| == k && forall i :: 0 <= i < k ==> ends[i] == pos + |Codes(vs[..i + 1])|
    {
      CodesStep(vs, k);
      NextCode(flat, pos, vs, k, rest);
      var ok, v := w.ReadExponentialGolomb();
      back, ends := back + [v], ends + [w.Pos()];
    }
    assert vs[..n] == vs;
  }

  lemma AfterPosition(flat: seq<bool>, pos: nat, b: seq<bool>)
    requires pos + |b| <= |flat|
    ensures Overwrite(flat, pos, b)[pos..] == b + flat[pos + |b|..]
  {
  }

  /** Past the first `k` code words the next read finds the k-th value. */
  lemma NextCode(flat: seq<bool>, pos: nat, vs: seq<nat>, k: nat, rest: seq<bool>)
    requires pos <= |flat| && flat[pos..] == Codes(vs) + rest
    requires k < |vs| && vs[k] < Pow2(32) - 1
    ensures pos + |Codes(vs[..k])| <= |flat|
    ensures Decode(flat[pos + |Codes(vs[..k])|..]) == Found(vs[k], |Code(vs[k])|)
  {
    hide Pow2, Decode, Code, Codes;
    var before, later := Codes(vs[..k]), Codes(vs[k + 1..]) + rest;
    CodesConcat(vs[..k], vs[k..]);
    assert vs[..k] + vs[k..] == vs;
    CodesFront(vs[k..]);
    assert vs[k..][1..] == vs[k + 1..];
    assert Codes(vs) + rest == before + (Code(vs[k]) + later);
    assert flat[pos + |before|..] == flat[pos..][|before|..];
    assert (before + (Code(vs[k]) + later))[|before|..] == Code(vs[k]) + later;
    DecodeCode(vs[k], later);
  }

  /** The bytes before `i` are as the finished write has them, the others untouched. */
  ghost predicate Written(was: seq<byte>, now: seq<byte>, pos: nat, b: seq<bool>, i: nat)
    requires pos + |b| <= 8 * |was|
  {
    && |now| == |was| && i <= |was|
    && (forall j :: 0 <= j < i ==> ToBits(now[j], 8) == Overwrite(Flat(was), pos, b)[8 * j..8 * j + 8])
    && (forall j :: i <= j < |was| ==> now[j] == was[j])
  }

  lemma FirstWritten(was: seq<byte>, now: seq<byte>, pos: nat, b: seq<bool>, i: nat)
    requires i < |was| && 8 * i <= pos && pos + |b| <= 8 * |was| && |now| == |was| && now == was[i := now[i]]
    requires ToBits(now[i], 8) == Overwrite(Flat(was), pos, b)[8 * i..8 * i + 8]
    ensures Written(was, now, pos, b, i + 1)
  {
    hide ToBits, Flat, Overwrite;
    forall j | 0 <= j < i
      ensures ToBits(now[j], 8) == Overwrite(Flat(was), pos, b)[8 * j..8 * j + 8]
    {
      FlatAt(was, j);
      BeforeTheStart(Flat(was), pos, b, 8 * j, 8 * j + 8);
    }
  }

  lemma NextWritten(was: seq<byte>, now: seq<byte>, next: seq<byte>, pos: nat, b: seq<bool>, i: nat)
    requires pos + |b| <= 8 * |was| && Written(was, now, pos, b, i) && i < |was|
    requires |next| == |now| && next == now[i := next[i]]
    requires ToBits(next[i], 8) == Overwrite(Flat(was), pos, b)[8 * i..8 * i + 8]
    ensures Written(was, next, pos, b, i + 1)
  {
    hide ToBits, Flat, Overwrite;
  }

  lemma Untouched(was: seq<byte>, now: seq<byte>, pos: nat, b: seq<bool>, i: nat)
    requires pos + |b| <= 8 * |was| && Written(was, now, pos, b, i) && i < |was|
    ensures |now| == |was|
    ensures Flat(was)[8 * i..8 * i + 8] == ToBits(now[i], 8)
  {
    hide ToBits, Flat, Overwrite;
    FlatAt(was, i);
  }

  lemma WholeWritten(flat: seq<bool>, at: nat, pos: nat, v: nat, b: seq<bool>, left: nat)
    requires pos + |b| <= |flat| && 8 <= left <= |b| && at + left == pos + |b|
    requires TopHolds(v, b[|b| - left..])
    ensures HighestByte(v) < 256
    ensures ToBits(HighestByte(v), 8) == Overwrite(flat, pos, b)[at..at + 8]
  {
    hide ToBits, Pow2, HighestByte, TopHolds, Overwrite, Zeros;
    var done := |b| - left;
    TopByte(v, b[done..]);
    OverwriteRest(flat, pos, b, done, at, at + 8);
    OverwrittenWhole(flat, at, b[done..]);
  }

  lemma OverwrittenWhole(flat: seq<bool>, at: nat, t: seq<bool>)
    requires at + |t| <= |flat| && |t| >= 8
    ensures Overwrite(flat, at, t)[at..at + 8] == t[..8]
  {
  }

  lemma LastWritten(flat: seq<bool>, at: nat, target: byte, pos: nat, v: nat, b: seq<bool>, left: nat)
    requires at + 8 <= |flat| && flat[at..at + 8] == ToBits(target, 8)
    requires pos + |b| <= |flat| && left < 8 && left <= |b| && at + left == pos + |b|
    requires TopHolds(v, b[|b| - left..])
    ensures HighestByte(v) < 256
    ensures ToBits(WritePartialByte(HighestByte(v), left, target, 0), 8) == Overwrite(flat, pos, b)[at..at + 8]
  {
    hide ToBits, Pow2, HighestByte, WritePartialByte, TopHolds, Overwrite, Zeros;
    var done := |b| - left;
    PartWritten(flat, at, target, 0, v, b[done..]);
    OverwriteRest(flat, pos, b, done, at, at + 8);
  }

  lemma Finished(was: seq<byte>, now: seq<byte>, pos: nat, b: seq<bool>, i: nat)
    requires pos + |b| <= 8 * |was| && Written(was, now, pos, b, i) && pos + |b| <= 8 * i
    ensures Flat(now) == Overwrite(Flat(was), pos, b)
  {
    hide ToBits, Flat, Overwrite;
    var goal := Overwrite(Flat(was), pos, b);
    forall j | 0 <= j < |now|
      ensures goal[8 * j..8 * j + 8] == ToBits(now[j], 8)
    {
      if j >= i {
        FlatAt(was, j);
        PastTheEnd(Flat(was), pos, b, 8 * j, 8 * j + 8);
      }
    }
    FlatFromBytes(now, goal);
  }

  lemma PastTheEnd(flat: seq<bool>, pos: nat, b: seq<bool>, lo: nat, hi: nat)
    requires pos + |b| <= lo <= hi <= |flat|
    ensures Overwrite(flat, pos, b)[lo..hi] == flat[lo..hi]
  {
  }

  lemma BeforeTheStart(flat: seq<bool>, pos: nat, b: seq<bool>, lo: nat, hi: nat)
    requires pos + |b| <= |flat| && lo <= hi <= pos
    ensures Overwrite(flat, pos, b)[lo..hi] == flat[lo..hi]
  {
  }
}

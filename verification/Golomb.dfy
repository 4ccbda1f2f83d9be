/**
 Exponential Golomb codes (clause 9.1 of ITU-T H.264) as bit strings: what the
 reader and writer of webrtc/base/bitbuffer.cc must produce and accept.
 */
module Golomb {
  import opened Bits

  /** The length of the binary representation of `v`. */
  function CountBits(v: nat): nat {
    if v == 0 then 0 else 1 + CountBits(v / 2)
  }

  /** Counts by shifting `val` down until it is zero. */
  method CountBitsLoop(val: nat) returns (bitCount: nat)
    ensures bitCount == CountBits(val)
  {
    var v := val;
    bitCount := 0;
    while v != 0
      invariant bitCount + CountBits(v) == CountBits(val)
    {
      bitCount := bitCount + 1;
      v := v / 2;
    }
  }

  lemma {:induction false} CountBitsBounds(v: nat)
    requires v > 0
    ensures CountBits(v) >= 1
    ensures Pow2(CountBits(v) - 1) <= v < Pow2(CountBits(v))
  {
    if v > 1 {
      CountBitsBounds(v / 2);
    } else {
      assert CountBits(1) == 1 + CountBits(0);
    }
  }

  lemma {:induction false} CountBitsAtMost(v: nat, n: nat)
    requires v < Pow2(n)
    ensures CountBits(v) <= n
  {
    if v > 0 {
      CountBitsAtMost(v / 2, n - 1);
    }
  }

  /** The code word of `v`: `v + 1` written in twice its length minus one bits. */
  function Code(v: nat): (bits: seq<bool>)
    ensures |bits| >= 1
  {
    CountBitsBounds(v + 1);
    ToBits(v + 1, 2 * CountBits(v + 1) - 1)
  }

  function LeadingZeros(bits: seq<bool>): (z: nat)
    ensures z <= |bits|
    ensures z < |bits| ==> bits[z]
    ensures forall i :: 0 <= i < z ==> !bits[i]
  {
    if bits == [] || bits[0] then 0 else 1 + LeadingZeros(bits[1..])
  }

  datatype Parse = NoCode | Found(value: nat, length: nat)

  /** Reads one code word at the front of `bits`: z zeros, then z + 1 bits of which the first is set. */
  function Decode(bits: seq<bool>): Parse {
    var z := LeadingZeros(bits);
    if z + 1 > 32 || z + z + 1 > |bits| then NoCode
    else
      LeadingOne(bits[z..z + z + 1]);
      Found(FromBits(bits[z..z + z + 1]) - 1, z + z + 1)
  }

  /** A bit string that starts with a one denotes at least the power of its length. */
  lemma {:induction false} LeadingOne(bits: seq<bool>)
    requires bits != [] && bits[0]
    ensures FromBits(bits) >= Pow2(|bits| - 1)
  {
    if |bits| > 1 {
      LeadingOne(bits[..|bits| - 1]);
    } else {
      assert bits[..0] == [];
    }
  }

  /** The code word is as many zeros as there are bits after the leading one, then the number. */
  lemma CodeShape(v: nat)
    ensures CountBits(v + 1) >= 1
    ensures Code(v) == Zeros(CountBits(v + 1) - 1) + ToBits(v + 1, CountBits(v + 1))
    ensures ToBits(v + 1, CountBits(v + 1))[0]
  {
    hide ToBits, Pow2, CountBits, Zeros;
    var c := CountBits(v + 1);
    CountBitsBounds(v + 1);
    SmallBits(v + 1, 2 * c - 1, c);
    TopBitSet(v + 1, c);
  }

  lemma TopBitSet(v: nat, c: nat)
    requires c >= 1 && Pow2(c - 1) <= v < Pow2(c)
    ensures ToBits(v, c)[0]
  {
    hide ToBits, FromBits;
    var b := ToBits(v, c);
    if !b[0] {
      FromToBits(v, c);
      assert b == Zeros(1) + b[1..];
      FromBitsPadded(1, b[1..]);
      ToFromBits(b[1..]);
    }
  }

  lemma {:induction false} LeadingZerosOf(k: nat, bits: seq<bool>)
    requires bits != [] && bits[0]
    ensures LeadingZeros(Zeros(k) + bits) == k
  {
    var s := Zeros(k) + bits;
    var z := LeadingZeros(s);
    assert z < |s| ==> s[z];
    assert s[k];
  }

  /** Decoding a code word gives the value back and consumes exactly the word, whatever follows. */
  lemma DecodeCode(v: nat, rest: seq<bool>)
    requires v < Pow2(32) - 1
    ensures Decode(Code(v) + rest) == Found(v, |Code(v)|)
  {
    hide ToBits, FromBits, Pow2, LeadingZeros, Code, CountBits;
    var c := CountBits(v + 1);
    CodeShape(v);
    CountBitsBounds(v + 1);
    CountBitsAtMost(v + 1, 32);
    var number := ToBits(v + 1, c);
    assert Code(v) + rest == Zeros(c - 1) + (number + rest);
    LeadingZerosOf(c - 1, number + rest);
    assert (Zeros(c - 1) + (number + rest))[c - 1..c - 1 + c] == number;
    FromToBits(v + 1, c);
  }

  /** Whatever is decoded is below 2^32 - 1, and the consumed bits are its code word. */
  lemma CodeOfDecoded(bits: seq<bool>)
    requires Decode(bits).Found?
    ensures Decode(bits).value < Pow2(32) - 1
    ensures Decode(bits).length <= |bits| && bits[..Decode(bits).length] == Code(Decode(bits).value)
  {
    hide ToBits, FromBits, Pow2, Code, CountBits, LeadingZeros;
    var z := LeadingZeros(bits);
    var number := bits[z..z + z + 1];
    var n := FromBits(number);
    LeadingOne(number);
    ToFromBits(number);
    CountBitsExact(n, z);
    CodeShape(n - 1);
    PowMonotone(z + 1, 32);
    assert bits[..z] == Zeros(z);
    assert bits[..z + z + 1] == bits[..z] + number;
  }

  /** Nothing is decoded exactly when no code word stands in front. */
  lemma DecodeFails(bits: seq<bool>)
    ensures Decode(bits).NoCode? <==> forall v: nat :: v < Pow2(32) - 1 ==> !(Code(v) <= bits)
  {
    hide Decode, Code, Pow2;
    if Decode(bits).NoCode? {
      forall v: nat | v < Pow2(32) - 1
        ensures !(Code(v) <= bits)
      {
        if Code(v) <= bits {
          assert bits == Code(v) + bits[|Code(v)|..];
          DecodeCode(v, bits[|Code(v)|..]);
        }
      }
    } else {
      CodeOfDecoded(bits);
    }
  }

  /** The first words of table 9-1 of ITU-T H.264. */
  lemma KnownCodes()
    ensures Code(0) == [true] && Code(1) == [false, true, false] && Code(2) == [false, true, true]
  {
    assert CountBits(0) == 0 && CountBits(1) == 1 && CountBits(2) == 2 && CountBits(3) == 2;
    assert ToBits(1, 1) == ToBits(0, 0) + [true];
    assert ToBits(2, 3) == ToBits(1, 2) + [false] && ToBits(1, 2) == ToBits(0, 1) + [true] && ToBits(0, 1) == ToBits(0, 0) + [false];
    assert ToBits(3, 3) == ToBits(1, 2) + [true];
  }

  lemma CountBitsExact(n: nat, z: nat)
    requires Pow2(z) <= n < Pow2(z + 1)
    ensures CountBits(n) == z + 1
  {
    CountBitsBounds(n);
    var c := CountBits(n);
    if c <= z {
      PowMonotone(c, z);
    } else if c > z + 1 {
      PowMonotone(z + 1, c - 1);
    }
  }

  lemma {:induction false} PowMonotone(a: nat, b: nat)
    requires a <= b
    ensures Pow2(a) <= Pow2(b)
  {
    if a < b {
      PowMonotone(a, b - 1);
    }
  }

  // ------------------------------------------------------------------
  // Runs of code words
  // ------------------------------------------------------------------

  /** The code words of `vs`, one after the other. */
  function Codes(vs: seq<nat>): seq<bool> {
    if vs == [] then [] else Code(vs[0]) + Codes(vs[1..])
  }

  lemma NoCodes()
    ensures Codes([]) == []
  {
  }

  lemma CodesFront(vs: seq<nat>)
    requires vs != []
    ensures Codes(vs) == Code(vs[0]) + Codes(vs[1..])
  {
  }

  lemma {:induction false} CodesConcat(a: seq<nat>, b: seq<nat>)
    ensures Codes(a + b) == Codes(a) + Codes(b)
  {
    hide Code;
    if a == [] {
      assert a + b == b;
    } else {
      assert (a + b)[1..] == a[1..] + b;
      CodesConcat(a[1..], b);
    }
  }

  lemma CodesStep(vs: seq<nat>, k: nat)
    requires k < |vs|
    ensures Codes(vs[..k + 1]) == Codes(vs[..k]) + Code(vs[k])
    ensures |Codes(vs[..k + 1])| <= |Codes(vs)|
  {
    hide Code, Codes;
    var one := [vs[k]];
    assert vs[..k + 1] == vs[..k] + one;
    CodesConcat(vs[..k], one);
    CodesFront(one);
    NoCodes();
    assert one[1..] == [];
    assert vs == vs[..k + 1] + vs[k + 1..];
    CodesConcat(vs[..k + 1], vs[k + 1..]);
  }

  // ------------------------------------------------------------------
  // Signed values (clause 9.1.1)
  // ------------------------------------------------------------------

  const MAX_INT32 := 0x7FFFFFFF

  /** 0, 1, -1, 2, -2, ... */
  function ToSigned(u: nat): int {
    if u % 2 == 0 then -(u / 2) else (u + 1) / 2
  }

  function ToUnsigned(s: int): nat {
    if s <= 0 then -2 * s else 2 * s - 1
  }

  /** Odd values are the positive numbers and even ones the negative, in the order of clause 9.1.1. */
  lemma SignedOrder(k: nat)
    requires k >= 1
    ensures ToSigned(0) == 0 && ToSigned(2 * k - 1) == k && ToSigned(2 * k) == -(k as int)
  {
  }

  /** The mapping is a bijection between the readable values and the symmetric 32-bit range: nothing overflows. */
  lemma SignedBijection(u: nat, s: int)
    ensures u < Pow2(32) - 1 ==> -MAX_INT32 <= ToSigned(u) <= MAX_INT32
    ensures u < Pow2(32) - 1 && u % 2 == 1 ==> u + 1 < Pow2(32)
    ensures -MAX_INT32 <= s <= MAX_INT32 ==> ToUnsigned(s) < Pow2(32) - 1
    ensures ToUnsigned(ToSigned(u)) == u && ToSigned(ToUnsigned(s)) == s
  {
    hide Pow2;
    PowerValues();
  }
}

/**
 Unsigned machine words and their bits.  A word is a number; its bits are a
 sequence, most significant first.  Each word operation is characterised once by
 what it does to the bits, and proofs elsewhere work on bit sequences only.
 */
module Bits {
  import opened Arith
  import opened Bytes

  function Pow2(n: nat): (p: nat)
    ensures p >= 1
  {
    if n == 0 then 1 else 2 * Pow2(n - 1)
  }

  /** The `n` low bits of `v`. */
  function ToBits(v: nat, n: nat): (bits: seq<bool>)
    ensures |bits| == n
    decreases n
  {
    if n == 0 then [] else ToBits(v / 2, n - 1) + [v % 2 == 1]
  }

  /** The number the bits denote. */
  function FromBits(bits: seq<bool>): nat {
    if bits == [] then 0
    else 2 * FromBits(bits[..|bits| - 1]) + if bits[|bits| - 1] then 1 else 0
  }

  function Zeros(n: nat): (bits: seq<bool>)
    ensures |bits| == n
  {
    seq(n, _ => false)
  }

  // Slices of slices.

  lemma Slice<T>(s: seq<T>, a: nat, b: nat, c: nat, d: nat)
    requires a <= b <= |s| && c <= d <= b - a
    ensures s[a..b][c..] == s[a + c..b]
    ensures s[a..b][..d] == s[a..a + d]
  {
  }

  lemma DropSlice<T>(s: seq<T>, a: nat, c: nat, d: nat)
    requires c <= d && a + d <= |s|
    ensures s[a..][c..d] == s[a + c..a + d]
  {
    var x, y := s[a..][c..d], s[a + c..a + d];
    assert |x| == |y|;
    forall k | 0 <= k < |x|
      ensures x[k] == y[k]
    {
      assert x[k] == s[a..][c + k] == s[a + c + k];
      assert y[k] == s[a + c + k];
    }
  }

  lemma FrontOf<T>(a: seq<T>, b: seq<T>)
    ensures (a + b)[..|a|] == a
  {
  }

  lemma SliceAfter<T>(a: seq<T>, b: seq<T>, lo: nat, hi: nat)
    requires |a| <= lo <= hi <= |a| + |b|
    ensures (a + b)[lo..hi] == b[lo - |a|..hi - |a|]
  {
  }

  lemma Join<T>(s: seq<T>, a: nat, b: nat, c: nat)
    requires a <= b <= c <= |s|
    ensures s[a..b] + s[b..c] == s[a..c]
  {
  }

  // ------------------------------------------------------------------
  // Numbers and bits
  // ------------------------------------------------------------------

  lemma {:induction false} ToFromBits(bits: seq<bool>)
    ensures ToBits(FromBits(bits), |bits|) == bits
    ensures FromBits(bits) < Pow2(|bits|)
  {
    if bits != [] {
      var init := bits[..|bits| - 1];
      ToFromBits(init);
      assert bits == init + [bits[|bits| - 1]];
    }
  }

  lemma {:induction false} FromToBits(v: nat, n: nat)
    requires v < Pow2(n)
    ensures FromBits(ToBits(v, n)) == v
    decreases n
  {
    if n > 0 {
      FromToBits(v / 2, n - 1);
      var b := ToBits(v, n);
      assert b[..n - 1] == ToBits(v / 2, n - 1);
    }
  }

  /** The low bits of any number are the number modulo the power of their count. */
  lemma {:induction false} LowBitsModulo(v: nat, n: nat)
    ensures FromBits(ToBits(v, n)) == v % Pow2(n)
    decreases n
  {
    if n > 0 {
      LowBitsModulo(v / 2, n - 1);
      var b := ToBits(v, n);
      assert b[..n - 1] == ToBits(v / 2, n - 1);
      ModTwice(v, Pow2(n - 1));
    }
  }

  lemma ModTwice(v: nat, m: nat)
    requires m > 0
    ensures v % (2 * m) == 2 * (v / 2 % m) + v % 2
  {
    var q, r := v / 2 / m, v / 2 % m;
    var d := 2 * m;
    assert v / 2 == q * m + r;
    assert q * d == 2 * (q * m);
    Remainder(q, d, 2 * r + v % 2);
  }

  lemma {:induction false} LowBits(v: nat, n: nat, k: nat)
    requires k <= n
    ensures ToBits(v, n)[n - k..] == ToBits(v, k)
    decreases n
  {
    if k > 0 {
      LowBits(v / 2, n - 1, k - 1);
    }
  }

  lemma {:induction false} ZeroBits(n: nat)
    ensures ToBits(0, n) == Zeros(n)
    ensures FromBits(Zeros(n)) == 0
  {
    if n > 0 {
      ZeroBits(n - 1);
      assert Zeros(n) == Zeros(n - 1) + [false];
      assert Zeros(n)[..n - 1] == Zeros(n - 1);
    }
  }

  /** A number below 2^k has zeros above its `k` low bits. */
  lemma {:induction false} SmallBits(v: nat, n: nat, k: nat)
    requires k <= n && v < Pow2(k)
    ensures ToBits(v, n) == Zeros(n - k) + ToBits(v, k)
    decreases n
  {
    if k == 0 {
      ZeroBits(n);
    } else {
      SmallBits(v / 2, n - 1, k - 1);
    }
  }

  lemma {:induction false} FromBitsPadded(k: nat, bits: seq<bool>)
    ensures FromBits(Zeros(k) + bits) == FromBits(bits)
  {
    if bits == [] {
      assert Zeros(k) + bits == Zeros(k);
      ZeroBits(k);
    } else {
      var init := bits[..|bits| - 1];
      assert (Zeros(k) + bits)[..k + |bits| - 1] == Zeros(k) + init;
      FromBitsPadded(k, init);
    }
  }

  /** Words below 2^n with the same bits are the same. */
  lemma BitsDetermine(v: nat, w: nat, n: nat)
    requires v < Pow2(n) && w < Pow2(n) && ToBits(v, n) == ToBits(w, n)
    ensures v == w
  {
    FromToBits(v, n);
    FromToBits(w, n);
  }

  // ------------------------------------------------------------------
  // Word operations, `w` bits wide
  // ------------------------------------------------------------------

  /** The word with the low `w` bits of `v`. */
  function Truncate(v: nat, w: nat): (r: nat)
    ensures r < Pow2(w)
    ensures ToBits(r, w) == ToBits(v, w)
  {
    ToFromBits(ToBits(v, w));
    FromBits(ToBits(v, w))
  }

  function Shl(v: nat, k: nat, w: nat): nat
    decreases k
  {
    if k == 0 then v else Shl(Truncate(2 * v, w), k - 1, w)
  }

  function Shr(v: nat, k: nat): nat
    decreases k
  {
    if k == 0 then v else Shr(v / 2, k - 1)
  }

  function And(a: nat, b: nat, w: nat): nat {
    FromBits(AndBits(ToBits(a, w), ToBits(b, w)))
  }

  function Or(a: nat, b: nat, w: nat): nat {
    FromBits(OrBits(ToBits(a, w), ToBits(b, w)))
  }

  function Not(a: nat, w: nat): nat {
    FromBits(NotBits(ToBits(a, w)))
  }

  function AndBits(a: seq<bool>, b: seq<bool>): (r: seq<bool>)
    requires |a| == |b|
    ensures |r| == |a|
  {
    seq(|a|, i requires 0 <= i < |a| => a[i] && b[i])
  }

  function OrBits(a: seq<bool>, b: seq<bool>): (r: seq<bool>)
    requires |a| == |b|
    ensures |r| == |a|
  {
    seq(|a|, i requires 0 <= i < |a| => a[i] || b[i])
  }

  function NotBits(a: seq<bool>): (r: seq<bool>)
    ensures |r| == |a|
  {
    seq(|a|, i requires 0 <= i < |a| => !a[i])
  }

  lemma AndSpec(a: nat, b: nat, w: nat)
    ensures ToBits(And(a, b, w), w) == AndBits(ToBits(a, w), ToBits(b, w))
    ensures And(a, b, w) < Pow2(w)
  {
    ToFromBits(AndBits(ToBits(a, w), ToBits(b, w)));
  }

  lemma OrSpec(a: nat, b: nat, w: nat)
    ensures ToBits(Or(a, b, w), w) == OrBits(ToBits(a, w), ToBits(b, w))
    ensures Or(a, b, w) < Pow2(w)
  {
    ToFromBits(OrBits(ToBits(a, w), ToBits(b, w)));
  }

  lemma NotSpec(a: nat, w: nat)
    ensures ToBits(Not(a, w), w) == NotBits(ToBits(a, w))
    ensures Not(a, w) < Pow2(w)
  {
    ToFromBits(NotBits(ToBits(a, w)));
  }

  lemma {:induction false} ShlSpec(v: nat, k: nat, w: nat)
    requires v < Pow2(w) && k <= w
    ensures Shl(v, k, w) < Pow2(w)
    ensures ToBits(Shl(v, k, w), w) == ToBits(v, w)[k..] + Zeros(k)
    decreases k
  {
    if k > 0 {
      var d := Truncate(2 * v, w);
      ShlSpec(d, k - 1, w);
      DoubledBits(v, w);
      hide ToBits, Truncate;
      LowBits(v, w, w - 1);
      assert [false] + Zeros(k - 1) == Zeros(k);
      assert ToBits(d, w)[k - 1..] == ToBits(v, w)[k..] + [false];
    } else {
      assert ToBits(v, w)[0..] + Zeros(0) == ToBits(v, w);
    }
  }

  lemma DoubledBits(v: nat, w: nat)
    requires w > 0
    ensures ToBits(2 * v, w) == ToBits(v, w - 1) + [false]
  {
  }

  lemma {:induction false} ShrSpec(v: nat, k: nat, w: nat)
    requires v < Pow2(w) && k <= w
    ensures Shr(v, k) < Pow2(w)
    ensures ToBits(Shr(v, k), w) == Zeros(k) + ToBits(v, w)[..w - k]
    decreases k
  {
    if k > 0 {
      ShrSpec(v / 2, k - 1, w);
      SmallBits(v / 2, w, w - 1);
      assert ToBits(v, w)[..w - 1] == ToBits(v / 2, w - 1);
      assert ToBits(v / 2, w) == [false] + ToBits(v, w)[..w - 1] by {
        assert Zeros(1) == [false];
      }
      assert Zeros(k) == Zeros(k - 1) + [false];
      assert ToBits(v / 2, w)[..w - (k - 1)] == [false] + ToBits(v, w)[..w - k];
    } else {
      assert Zeros(0) + ToBits(v, w)[..w] == ToBits(v, w);
    }
  }

  lemma PowerValues()
    ensures Pow2(32) == 0x1_0000_0000
  {
    assert Pow2(4) == 16 && Pow2(8) == 256 && Pow2(12) == 4096 && Pow2(16) == 65536;
    assert Pow2(20) == 0x100000 && Pow2(24) == 0x1000000 && Pow2(28) == 0x10000000;
  }

  // ------------------------------------------------------------------
  // A byte string as one flat run of bits
  // ------------------------------------------------------------------

  function Flat(bytes: seq<byte>): (bits: seq<bool>)
    ensures |bits| == 8 * |bytes|
  {
    if bytes == [] then [] else ToBits(bytes[0], 8) + Flat(bytes[1..])
  }

  lemma {:induction false} FlatConcat(a: seq<byte>, b: seq<byte>)
    ensures Flat(a + b) == Flat(a) + Flat(b)
  {
    hide ToBits;
    if a == [] {
      assert a + b == b;
    } else {
      assert (a + b)[1..] == a[1..] + b;
      FlatConcat(a[1..], b);
    }
  }

  lemma FlatSlice(bytes: seq<byte>, i: nat, j: nat)
    requires i <= j <= |bytes|
    ensures Flat(bytes)[8 * i..8 * j] == Flat(bytes[i..j])
  {
    hide Flat;
    var a, b, c := bytes[..i], bytes[i..j], bytes[j..];
    Thirds(bytes, i, j);
    FlatConcat(a + b, c);
    FlatConcat(a, b);
    Middle(Flat(a), Flat(b), Flat(c));
  }

  lemma Thirds<T>(s: seq<T>, i: nat, j: nat)
    requires i <= j <= |s|
    ensures s == (s[..i] + s[i..j]) + s[j..]
  {
  }

  lemma Middle<T>(a: seq<T>, b: seq<T>, c: seq<T>)
    ensures ((a + b) + c)[|a|..|a| + |b|] == b
  {
  }

  /** The first bit weighs most. */
  lemma {:induction false} FrontBit(b: bool, rest: seq<bool>)
    ensures FromBits([b] + rest) == (if b then Pow2(|rest|) else 0) + FromBits(rest)
  {
    if rest == [] {
      assert [b] + rest == [b] && [b][..0] == [];
    } else {
      var init := rest[..|rest| - 1];
      assert ([b] + rest)[..|rest|] == [b] + init;
      FrontBit(b, init);
    }
  }

  /** The number of a byte string's bits, one more byte at a time: the last byte weighs least. */
  lemma FlatNumber(bytes: seq<byte>, last: byte)
    ensures FromBits(Flat(bytes + [last])) == 256 * FromBits(Flat(bytes)) + last
  {
    hide ToBits, FromBits, Pow2;
    FlatConcat(bytes, [last]);
    assert Flat([last]) == ToBits(last, 8) by {
      assert [last][1..] == [];
      assert ToBits(last, 8) + [] == ToBits(last, 8);
    }
    assert Pow2(8) == 256 by { EightPower(); }
    FromToBits(last, 8);
    AppendedBits(Flat(bytes), last, 8);
  }

  lemma EightPower()
    ensures Pow2(8) == 256
  {
    assert Pow2(4) == 16 && Pow2(6) == 64;
  }

  lemma {:induction false} AppendedBits(a: seq<bool>, v: nat, n: nat)
    requires v < Pow2(n)
    ensures FromBits(a + ToBits(v, n)) == Pow2(n) * FromBits(a) + v
    decreases n
  {
    if n == 0 {
      assert a + [] == a;
    } else {
      var b := ToBits(v, n);
      assert b[..n - 1] == ToBits(v / 2, n - 1);
      assert (a + b)[..|a| + n - 1] == a + b[..n - 1];
      AppendedBits(a, v / 2, n - 1);
      Doubled(Pow2(n - 1), FromBits(a));
      assert (a + b)[|a| + n - 1] == (v % 2 == 1);
    }
  }

  lemma Doubled(p: nat, x: nat)
    ensures (2 * p) * x == 2 * (p * x)
  {
  }

  lemma {:induction false} FlatAt(bytes: seq<byte>, i: nat)
    requires i < |bytes|
    ensures Flat(bytes)[8 * i..8 * i + 8] == ToBits(bytes[i], 8)
  {
    hide ToBits;
    var front, rest := ToBits(bytes[0], 8), Flat(bytes[1..]);
    if i == 0 {
      FrontOf(front, rest);
    } else {
      FlatAt(bytes[1..], i - 1);
      SliceAfter(front, rest, 8 * i, 8 * i + 8);
    }
  }

  /** A bit string that agrees with every byte is the flat form of the bytes. */
  lemma {:induction false} FlatFromBytes(bytes: seq<byte>, bits: seq<bool>)
    requires |bits| == 8 * |bytes|
    requires forall i :: 0 <= i < |bytes| ==> bits[8 * i..8 * i + 8] == ToBits(bytes[i], 8)
    ensures Flat(bytes) == bits
  {
    hide ToBits;
    if bytes != [] {
      forall i | 0 <= i < |bytes| - 1
        ensures bits[8..][8 * i..8 * i + 8] == ToBits(bytes[1..][i], 8)
      {
        DropSlice(bits, 8, 8 * i, 8 * i + 8);
        assert bytes[1..][i] == bytes[i + 1];
        assert bits[8 * (i + 1)..8 * (i + 1) + 8] == ToBits(bytes[i + 1], 8);
      }
      FlatFromBytes(bytes[1..], bits[8..]);
      assert bits[..8] == bits[8 * 0..8 * 0 + 8];
      assert bits == bits[..8] + bits[8..];
    }
  }
}

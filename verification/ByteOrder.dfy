/** Numbers as bytes in memory, from webrtc/base/byteorder.h. */
module ByteOrder {
  import opened Arith
  import opened Bytes

  function Pow256(n: nat): (p: nat)
    ensures p >= 1
  {
    if n == 0 then 1 else 256 * Pow256(n - 1)
  }

  /** `n` bytes of `v`, most significant first. */
  function BigEndian(v: nat, n: nat): (s: seq<byte>)
    ensures |s| == n
    decreases n
  {
    if n == 0 then [] else BigEndian(v / 256, n - 1) + [v % 256]
  }

  function FromBigEndian(s: seq<byte>): nat {
    if s == [] then 0 else 256 * FromBigEndian(s[..|s| - 1]) + s[|s| - 1]
  }

  /** `n` bytes of `v`, least significant first. */
  function LittleEndian(v: nat, n: nat): (s: seq<byte>)
    ensures |s| == n
    decreases n
  {
    if n == 0 then [] else [v % 256] + LittleEndian(v / 256, n - 1)
  }

  function FromLittleEndian(s: seq<byte>): nat {
    if s == [] then 0 else s[0] + 256 * FromLittleEndian(s[1..])
  }

  lemma {:induction false} BigEndianRoundTrip(v: nat, n: nat)
    requires v < Pow256(n)
    ensures FromBigEndian(BigEndian(v, n)) == v
    decreases n
  {
    if n > 0 {
      BigEndianRoundTrip(v / 256, n - 1);
      assert BigEndian(v, n)[..n - 1] == BigEndian(v / 256, n - 1);
    }
  }

  lemma {:induction false} LittleEndianRoundTrip(v: nat, n: nat)
    requires v < Pow256(n)
    ensures FromLittleEndian(LittleEndian(v, n)) == v
    decreases n
  {
    if n > 0 {
      LittleEndianRoundTrip(v / 256, n - 1);
    }
  }

  /** Byte `i` from the front of a big-endian number, and from the end of a little-endian one, is its base-256 digit. */
  lemma {:induction false} DigitsInOrder(v: nat, n: nat, i: nat)
    requires i < n
    ensures BigEndian(v, n)[n - 1 - i] == v / Pow256(i) % 256
    ensures LittleEndian(v, n)[i] == v / Pow256(i) % 256
    decreases n
  {
    if i > 0 {
      DigitsInOrder(v / 256, n - 1, i - 1);
      DivTwice(v, Pow256(i - 1));
    }
  }

  lemma DivTwice(v: nat, b: nat)
    requires b > 0
    ensures v / 256 / b == v / (256 * b)
  {
    var q, r, c := v / 256 / b, v / 256 % b, v % 256;
    assert v / 256 == q * b + r;
    Regroup(q, b);
    Remainder(q, 256 * b, 256 * r + c);
    QuotientIs(v, 256 * b, q, 256 * r + c);
  }

  lemma Regroup(q: nat, b: nat)
    ensures 256 * (q * b) == q * (256 * b)
  {
  }

  lemma QuotientIs(v: nat, d: nat, q: nat, r: nat)
    requires d > 0 && r < d && v == q * d + r && v % d == r
    ensures v / d == q
  {
    assert v == v / d * d + v % d;
    if v / d < q {
      MulMonotone(v / d + 1, q, d);
    } else if v / d > q {
      MulMonotone(q + 1, v / d, d);
    }
  }

  lemma {:induction false} BigEndianOfBytes(s: seq<byte>)
    ensures FromBigEndian(s) < Pow256(|s|) && BigEndian(FromBigEndian(s), |s|) == s
  {
    if s != [] {
      var init, last := s[..|s| - 1], s[|s| - 1];
      BigEndianOfBytes(init);
      var v := FromBigEndian(init);
      assert (256 * v + last) / 256 == v && (256 * v + last) % 256 == last;
      assert s == init + [last];
    }
  }

  lemma {:induction false} LittleEndianOfBytes(s: seq<byte>)
    ensures FromLittleEndian(s) < Pow256(|s|) && LittleEndian(FromLittleEndian(s), |s|) == s
  {
    if s != [] {
      var first, rest := s[0], s[1..];
      LittleEndianOfBytes(rest);
      var v := FromLittleEndian(rest);
      assert (first + 256 * v) / 256 == v && (first + 256 * v) % 256 == first;
      assert s == [first] + rest;
    }
  }

  lemma {:induction false} BigEndianTail(v: nat, n: nat)
    requires v < Pow256(n)
    ensures BigEndian(v, n + 1) == [0] + BigEndian(v, n)
    decreases n
  {
    if n == 0 {
      assert BigEndian(0, 1) == BigEndian(0, 0) + [0];
    } else {
      BigEndianTail(v / 256, n - 1);
    }
  }

  lemma {:induction false} LittleEndianFront(v: nat, n: nat)
    requires v < Pow256(n)
    ensures LittleEndian(v, n + 1) == LittleEndian(v, n) + [0]
    decreases n
  {
    if n == 0 {
      assert LittleEndian(0, 1) == [0] + LittleEndian(0, 0);
    } else {
      LittleEndianFront(v / 256, n - 1);
    }
  }

  // ------------------------------------------------------------------
  // Host and network order
  // ------------------------------------------------------------------

  datatype Order = Network | Host

  /** How an `n`-byte integer variable with value `v` lies in memory. */
  function InMemory(v: nat, n: nat, hostBig: bool): (s: seq<byte>)
    ensures |s| == n
  {
    if hostBig then BigEndian(v, n) else LittleEndian(v, n)
  }

  function FromMemory(s: seq<byte>, hostBig: bool): nat {
    if hostBig then FromBigEndian(s) else FromLittleEndian(s)
  }

  /** The memory of the variable that a write copies from: HostToNetwork sets it byte by byte. */
  function WriteVariable(v: nat, n: nat, order: Order, hostBig: bool): (s: seq<byte>)
    ensures |s| == n
  {
    if order == Network then BigEndian(v, n) else InMemory(v, n, hostBig)
  }

  /** The value of the variable that a read has filled: NetworkToHost gets it byte by byte. */
  function ReadVariable(s: seq<byte>, order: Order, hostBig: bool): nat {
    if order == Network then FromBigEndian(s) else FromMemory(s, hostBig)
  }

  /** The bytes that go into the buffer; a 24-bit value is three bytes of a 32-bit variable. */
  function Written(v: nat, n: nat, order: Order, hostBig: bool): seq<byte>
    requires n in {1, 2, 3, 4, 8}
  {
    if n != 3 then WriteVariable(v, n, order, hostBig)
    else
      var whole := WriteVariable(v, 4, order, hostBig);
      if order == Network || hostBig then whole[1..] else whole[..3]
  }

  /** The value read from such bytes; for 24 bits they fill part of a zeroed 32-bit variable. */
  function Read(s: seq<byte>, order: Order, hostBig: bool): nat
    requires |s| in {1, 2, 3, 4, 8}
  {
    if |s| != 3 then ReadVariable(s, order, hostBig)
    else if order == Network || hostBig then ReadVariable([0] + s, order, hostBig)
    else ReadVariable(s + [0], order, hostBig)
  }

  /** Values of every width read back as written, in both byte orders, on hosts of either endianness. */
  lemma IntegerRoundTrip(v: nat, n: nat, order: Order, hostBig: bool)
    requires n in {1, 2, 3, 4, 8} && v < Pow256(n)
    ensures |Written(v, n, order, hostBig)| == n
    ensures Read(Written(v, n, order, hostBig), order, hostBig) == v
  {
    hide BigEndian, LittleEndian, FromBigEndian, FromLittleEndian, Pow256;
    BigEndianRoundTrip(v, n);
    LittleEndianRoundTrip(v, n);
    if n == 3 {
      BigEndianTail(v, 3);
      LittleEndianFront(v, 3);
      assert Pow256(3) <= Pow256(4) by { PowStep(3); }
      BigEndianRoundTrip(v, 4);
      LittleEndianRoundTrip(v, 4);
      assert ([0] + BigEndian(v, 3))[1..] == BigEndian(v, 3);
      assert (LittleEndian(v, 3) + [0])[..3] == LittleEndian(v, 3);
    }
  }

  /** Every byte string of a width is the written form of the value read from it, which fits the width. */
  lemma BytesRoundTrip(s: seq<byte>, order: Order, hostBig: bool)
    requires |s| in {1, 2, 3, 4, 8}
    ensures Read(s, order, hostBig) < Pow256(|s|)
    ensures Written(Read(s, order, hostBig), |s|, order, hostBig) == s
  {
    hide BigEndian, LittleEndian, FromBigEndian, FromLittleEndian, Pow256;
    BigEndianOfBytes(s);
    LittleEndianOfBytes(s);
    if |s| == 3 {
      var v, w := FromBigEndian(s), FromLittleEndian(s);
      BigEndianTail(v, 3);
      LittleEndianFront(w, 3);
      PowStep(3);
      BigEndianRoundTrip(v, 4);
      LittleEndianRoundTrip(w, 4);
      assert ([0] + s)[1..] == s && (s + [0])[..3] == s;
    }
  }

  lemma PowStep(n: nat)
    ensures Pow256(n) <= Pow256(n + 1)
  {
  }

  /** In network order the bytes are the same on every host. */
  lemma NetworkOrderIsPortable(v: nat, n: nat)
    requires n in {1, 2, 3, 4, 8} && v < Pow256(n)
    ensures Written(v, n, Network, true) == Written(v, n, Network, false) == BigEndian(v, n)
  {
    hide BigEndian, Pow256;
    if n == 3 {
      BigEndianTail(v, 3);
    }
  }

  /** In host order they are those of the host's memory. */
  lemma HostOrderIsMemory(v: nat, n: nat)
    requires n in {1, 2, 3, 4, 8} && v < Pow256(n)
    ensures Written(v, n, Host, true) == BigEndian(v, n) && Written(v, n, Host, false) == LittleEndian(v, n)
  {
    hide BigEndian, LittleEndian, Pow256;
    if n == 3 {
      BigEndianTail(v, 3);
      LittleEndianFront(v, 3);
    }
  }
}

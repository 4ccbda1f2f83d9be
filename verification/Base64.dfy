/**
 The Base64 encoder and decoder of webrtc/base/base64.cc (section 4 of RFC
 4648).  The reference is the text's alphabet characters read as one run of
 bits, six per character, cut into bytes.
 */
module Base64 {
  import opened Arith
  import opened Bytes
  import opened Bits

  // ------------------------------------------------------------------
  // The two tables
  // ------------------------------------------------------------------

  const PADDING := 0xFD
  const WHITESPACE := 0xFE
  const ILLEGAL := 0xFF

  type sextet = v: int | 0 <= v < 64

  function Base64Table(v: sextet): char {
    if v < 26 then 'A' + v as char
    else if v < 52 then 'a' + (v - 26) as char
    else if v < 62 then '0' + (v - 52) as char
    else if v == 62 then '+'
    else '/'
  }

  /** The value of an alphabet character, or what kind of other character it is. */
  function DecodeTable(c: char): byte {
    if 'A' <= c <= 'Z' then (c - 'A') as int
    else if 'a' <= c <= 'z' then (c - 'a') as int + 26
    else if '0' <= c <= '9' then (c - '0') as int + 52
    else if c == '+' then 62
    else if c == '/' then 63
    else if c == '=' then PADDING
    else if '\t' <= c <= '\r' || c == ' ' then WHITESPACE
    else ILLEGAL
  }

  predicate InAlphabet(c: char) {
    DecodeTable(c) < 64
  }

  const ALPHABET := "ABCDEFGHIJKLMNOPQRSTUVWXYZ" + "abcdefghijklmnopqrstuvwxyz" + "0123456789+/"

  /** The alphabet in the order of section 4 of RFC 4648, and the characters that are neither of it nor illegal. */
  lemma TheAlphabet(v: sextet, c: char)
    ensures |ALPHABET| == 64 && Base64Table(v) == ALPHABET[v]
    ensures DecodeTable(c) == PADDING <==> c == '='
    ensures DecodeTable(c) == WHITESPACE <==> c as int in {9, 10, 11, 12, 13, 32}
  {
    if v < 26 {
      assert "ABCDEFGHIJKLMNOPQRSTUVWXYZ"[v] == Base64Table(v);
    } else if v < 52 {
      assert "abcdefghijklmnopqrstuvwxyz"[v - 26] == Base64Table(v);
    } else {
      assert "0123456789+/"[v - 52] == Base64Table(v);
    }
  }

  lemma TablesInverse(v: sextet, c: char)
    ensures DecodeTable(Base64Table(v)) == v
    ensures InAlphabet(c) ==> Base64Table(DecodeTable(c)) == c
  {
  }

  // ------------------------------------------------------------------
  // Reference: characters as bits, bits as bytes
  // ------------------------------------------------------------------

  /** The values of the alphabet characters in `text`, in order. */
  function Sextets(text: string): seq<sextet> {
    if text == [] then [] else SextetOf(text[0]) + Sextets(text[1..])
  }

  function SextetOf(c: char): seq<sextet> {
    if InAlphabet(c) then [DecodeTable(c)] else []
  }

  function SextetBits(s: seq<sextet>): (bits: seq<bool>)
    ensures |bits| == 6 * |s|
  {
    if s == [] then [] else ToBits(s[0], 6) + SextetBits(s[1..])
  }

  /** The whole bytes in a run of bits; up to seven bits at the end carry nothing. */
  function WholeBytes(bits: seq<bool>): seq<byte> {
    if |bits| < 8 then []
    else
      ByteRange(bits[..8]);
      [FromBits(bits[..8])] + WholeBytes(bits[8..])
  }

  lemma ByteRange(bits: seq<bool>)
    requires |bits| == 8
    ensures 0 <= FromBits(bits) < 256
  {
    ToFromBits(bits);
    assert Pow2(4) == 16 && Pow2(6) == 64 && Pow2(8) == 256;
  }

  /** The bytes that a run of characters carries. */
  function Carried(s: seq<sextet>): seq<byte> {
    WholeBytes(SextetBits(s))
  }

  /** `k` characters carry floor(6k/8) bytes. */
  lemma CarriedLength(s: seq<sextet>)
    ensures |Carried(s)| == 6 * |s| / 8
  {
    WholeBytesLength(SextetBits(s));
  }

  lemma {:induction false} WholeBytesLength(bits: seq<bool>)
    ensures |WholeBytes(bits)| == |bits| / 8
    decreases |bits|
  {
    hide FromBits;
    if |bits| >= 8 {
      WholeBytesLength(bits[8..]);
    }
  }

  lemma {:induction false} SextetsConcat(a: string, b: string)
    ensures Sextets(a + b) == Sextets(a) + Sextets(b)
  {
    hide SextetOf;
    if a == [] {
      assert a + b == b;
    } else {
      assert (a + b)[1..] == a[1..] + b;
      SextetsConcat(a[1..], b);
    }
  }

  lemma {:induction false} SextetBitsConcat(a: seq<sextet>, b: seq<sextet>)
    ensures SextetBits(a + b) == SextetBits(a) + SextetBits(b)
  {
    hide ToBits;
    if a == [] {
      assert a + b == b;
    } else {
      assert (a + b)[1..] == a[1..] + b;
      SextetBitsConcat(a[1..], b);
    }
  }

  lemma {:induction false} WholeBytesConcat(a: seq<bool>, b: seq<bool>)
    requires |a| % 8 == 0
    ensures WholeBytes(a + b) == WholeBytes(a) + WholeBytes(b)
    decreases |a|
  {
    hide FromBits;
    if a == [] {
      assert a + b == b;
    } else {
      assert (a + b)[..8] == a[..8] && (a + b)[8..] == a[8..] + b;
      WholeBytesConcat(a[8..], b);
    }
  }

  lemma Aligned(n: nat)
    requires n % 4 == 0
    ensures 6 * n % 8 == 0
  {
    var k := 3 * (n / 4);
    assert n == 4 * (n / 4);
    assert 6 * n == 8 * k;
    Remainder(k, 8, 0);
  }

  /** Whole quanta decode independently of what follows. */
  lemma CarriedConcat(a: seq<sextet>, b: seq<sextet>)
    requires |a| % 4 == 0
    ensures Carried(a + b) == Carried(a) + Carried(b)
  {
    hide SextetBits, WholeBytes;
    SextetBitsConcat(a, b);
    Aligned(|a|);
    WholeBytesConcat(SextetBits(a), SextetBits(b));
  }

  // ------------------------------------------------------------------
  // One quantum of up to four characters
  // ------------------------------------------------------------------

  // The three bytes assembled from four sextets with shifts and masks.

  function Byte0(q0: sextet, q1: sextet): byte { q0 * 4 + q1 / 16 }
  function Byte1(q1: sextet, q2: sextet): byte { q1 % 16 * 16 + q2 / 4 }
  function Byte2(q2: sextet, q3: sextet): byte { q2 % 4 * 64 + q3 }

  /** `v` followed by `k` zero bits. */
  function Shifted(v: nat, k: nat): nat {
    if k == 0 then v else 2 * Shifted(v, k - 1)
  }

  lemma {:induction false} FromBitsConcat(a: seq<bool>, b: seq<bool>)
    ensures FromBits(a + b) == Shifted(FromBits(a), |b|) + FromBits(b)
    decreases |b|
  {
    if b == [] {
      assert a + b == a;
    } else {
      var init := b[..|b| - 1];
      assert (a + b)[..|a + b| - 1] == a + init;
      FromBitsConcat(a, init);
    }
  }

  lemma JoinBits(a: nat, n: nat, b: nat, k: nat)
    requires a < Pow2(n) && b < Pow2(k)
    ensures FromBits(ToBits(a, n) + ToBits(b, k)) == Shifted(a, k) + b
  {
    hide ToBits, FromBits, Pow2, Shifted;
    FromBitsConcat(ToBits(a, n), ToBits(b, k));
    FromToBits(a, n);
    FromToBits(b, k);
  }

  lemma SmallShifts(v: nat)
    ensures Shifted(v, 2) == 4 * v && Shifted(v, 4) == 16 * v && Shifted(v, 6) == 64 * v
  {
    assert Shifted(v, 1) == 2 * v;
    assert Shifted(v, 2) == 4 * v;
    assert Shifted(v, 3) == 8 * v;
    assert Shifted(v, 4) == 16 * v;
    assert Shifted(v, 5) == 32 * v;
  }

  lemma SmallPowers()
    ensures Pow2(2) == 4 && Pow2(4) == 16 && Pow2(6) == 64 && Pow2(8) == 256
  {
    assert Pow2(2) == 4;
    assert Pow2(4) == 16;
    assert Pow2(6) == 64;
  }

  lemma SplitSextet(v: sextet)
    ensures ToBits(v, 6)[..2] == ToBits(v / 16, 2) && ToBits(v, 6)[2..] == ToBits(v % 16, 4)
    ensures ToBits(v, 6)[..4] == ToBits(v / 4, 4) && ToBits(v, 6)[4..] == ToBits(v % 4, 2)
  {
    assert v / 2 / 2 == v / 4 && v / 4 / 2 / 2 == v / 16;
    assert ToBits(v, 6) == ToBits(v / 2, 5) + [v % 2 == 1];
    assert ToBits(v / 2, 5) == ToBits(v / 4, 4) + [v / 2 % 2 == 1];
    assert ToBits(v / 4, 4) == ToBits(v / 4 / 2, 3) + [v / 4 % 2 == 1];
    assert ToBits(v / 4 / 2, 3) == ToBits(v / 16, 2) + [v / 4 / 2 % 2 == 1];
    LowBits(v, 6, 4);
    LowBits(v, 6, 2);
    LowOf16(v);
  }

  lemma LowOf16(v: sextet)
    ensures ToBits(v, 4) == ToBits(v % 16, 4) && ToBits(v, 2) == ToBits(v % 4, 2)
  {
    hide ToBits, FromBits, Pow2;
    SmallPowers();
    LowBitsModulo(v, 4);
    LowBitsModulo(v, 2);
    ToFromBits(ToBits(v, 4));
    ToFromBits(ToBits(v, 2));
  }

  lemma PeelByte(a: nat, n: nat, b: nat, k: nat, rest: seq<bool>)
    requires n + k == 8 && a < Pow2(n) && b < Pow2(k) && Shifted(a, k) + b < 256
    ensures WholeBytes((ToBits(a, n) + ToBits(b, k)) + rest) == [Shifted(a, k) + b] + WholeBytes(rest)
  {
    hide ToBits, FromBits, Pow2, Shifted;
    JoinBits(a, n, b, k);
    var x := ToBits(a, n) + ToBits(b, k);
    assert (x + rest)[..8] == x && (x + rest)[8..] == rest;
  }

  lemma Regroup(x: seq<bool>, y: seq<bool>, k: nat, rest: seq<bool>)
    requires k <= |y|
    ensures x + (y + rest) == (x + y[..k]) + (y[k..] + rest)
  {
  }

  lemma FrontByte(q0: sextet, q1: sextet, rest: seq<bool>)
    ensures WholeBytes(ToBits(q0, 6) + (ToBits(q1, 6) + rest)) == [Byte0(q0, q1)] + WholeBytes(ToBits(q1, 6)[2..] + rest)
  {
    hide ToBits, Pow2, WholeBytes, Shifted;
    SmallPowers();
    SmallShifts(q0);
    SplitSextet(q1);
    Regroup(ToBits(q0, 6), ToBits(q1, 6), 2, rest);
    PeelByte(q0, 6, q1 / 16, 2, ToBits(q1, 6)[2..] + rest);
  }

  lemma MiddleByte(q1: sextet, q2: sextet, rest: seq<bool>)
    ensures WholeBytes(ToBits(q1, 6)[2..] + (ToBits(q2, 6) + rest)) == [Byte1(q1, q2)] + WholeBytes(ToBits(q2, 6)[4..] + rest)
  {
    hide ToBits, Pow2, WholeBytes, Shifted;
    SmallPowers();
    SmallShifts(q1 % 16);
    SplitSextet(q1);
    SplitSextet(q2);
    Regroup(ToBits(q1, 6)[2..], ToBits(q2, 6), 4, rest);
    PeelByte(q1 % 16, 4, q2 / 4, 4, ToBits(q2, 6)[4..] + rest);
  }

  lemma BackByte(q2: sextet, q3: sextet)
    ensures WholeBytes(ToBits(q2, 6)[4..] + (ToBits(q3, 6) + [])) == [Byte2(q2, q3)]
  {
    hide ToBits, Pow2, WholeBytes, Shifted;
    SmallPowers();
    SmallShifts(q2 % 4);
    SplitSextet(q2);
    var a, b := ToBits(q2, 6)[4..], ToBits(q3, 6);
    assert a + (b + []) == (a + b) + [];
    PeelByte(q2 % 4, 2, q3, 6, []);
    TooShort([]);
  }

  lemma BitsOfQuantum(q0: sextet, q1: sextet, q2: sextet, q3: sextet)
    ensures SextetBits([q0]) == ToBits(q0, 6) + []
    ensures SextetBits([q0, q1]) == ToBits(q0, 6) + (ToBits(q1, 6) + [])
    ensures SextetBits([q0, q1, q2]) == ToBits(q0, 6) + (ToBits(q1, 6) + (ToBits(q2, 6) + []))
    ensures SextetBits([q0, q1, q2, q3]) == ToBits(q0, 6) + (ToBits(q1, 6) + (ToBits(q2, 6) + (ToBits(q3, 6) + [])))
  {
    hide ToBits, SextetBits;
    assert SextetBits([]) == [] by { NoBits(); }
    AddSextet(q3, []);
    AddSextet(q2, [q3]);
    AddSextet(q1, [q2, q3]);
    AddSextet(q0, [q1, q2, q3]);
    AddSextet(q2, []);
    AddSextet(q1, [q2]);
    AddSextet(q0, [q1, q2]);
    AddSextet(q1, []);
    AddSextet(q0, [q1]);
    AddSextet(q0, []);
    assert [q0] + [q1, q2, q3] == [q0, q1, q2, q3] && [q1] + [q2, q3] == [q1, q2, q3] && [q2] + [q3] == [q2, q3];
    assert [q0] + [q1, q2] == [q0, q1, q2] && [q1] + [q2] == [q1, q2] && [q0] + [q1] == [q0, q1];
    assert [q0] + [] == [q0] && [q1] + [] == [q1] && [q2] + [] == [q2] && [q3] + [] == [q3];
  }

  lemma NoBits()
    ensures SextetBits([]) == []
  {
  }

  lemma AddSextet(q: sextet, s: seq<sextet>)
    ensures SextetBits([q] + s) == ToBits(q, 6) + SextetBits(s)
  {
    hide ToBits;
    assert ([q] + s)[1..] == s;
  }

  /** Four characters carry the three assembled bytes, three carry two of them, two carry one. */
  lemma QuantumBytes(q0: sextet, q1: sextet, q2: sextet, q3: sextet)
    ensures Carried([q0]) == []
    ensures Carried([q0, q1]) == [Byte0(q0, q1)]
    ensures Carried([q0, q1, q2]) == [Byte0(q0, q1), Byte1(q1, q2)]
    ensures Carried([q0, q1, q2, q3]) == [Byte0(q0, q1), Byte1(q1, q2), Byte2(q2, q3)]
  {
    hide ToBits, WholeBytes, SextetBits, Byte0, Byte1, Byte2;
    BitsOfQuantum(q0, q1, q2, q3);
    FrontByte(q0, q1, []);
    FrontByte(q0, q1, ToBits(q2, 6) + []);
    FrontByte(q0, q1, ToBits(q2, 6) + (ToBits(q3, 6) + []));
    MiddleByte(q1, q2, []);
    MiddleByte(q1, q2, ToBits(q3, 6) + []);
    BackByte(q2, q3);
    TooShort(ToBits(q0, 6) + []);
    TooShort(ToBits(q1, 6)[2..] + []);
    TooShort(ToBits(q2, 6)[4..] + []);
  }

  lemma TooShort(bits: seq<bool>)
    requires |bits| < 8
    ensures WholeBytes(bits) == []
  {
  }

  // ------------------------------------------------------------------
  // Encoding
  // ------------------------------------------------------------------

  /** The four characters of the first one to three bytes of `x`, padded. */
  function Quantum(x: seq<byte>): (s: string)
    requires x != []
    ensures |s| == 4
  {
    var second := if |x| > 1 then x[1] / 16 else 0;
    var third := if |x| > 2 then x[2] / 64 else 0;
    [Base64Table(x[0] / 4), Base64Table(x[0] % 4 * 16 + second),
     if |x| > 1 then Base64Table(x[1] % 16 * 4 + third) else '=',
     if |x| > 2 then Base64Table(x[2] % 64) else '=']
  }

  function Rest(x: seq<byte>): seq<byte> {
    if |x| <= 3 then [] else x[3..]
  }

  /** The text of `x`: four characters for every three bytes, the last group padded. */
  function Encode(x: seq<byte>): string
    decreases |x|
  {
    if x == [] then [] else Quantum(x) + Encode(Rest(x))
  }

  method EncodeFromArray(data: seq<byte>) returns (result: string)
    ensures result == Encode(data)
  {
    hide Base64Table;
    result := [];
    var i := 0;
    assert data[0..] == data;
    while i < |data|
      invariant 0 <= i <= |data|
      invariant result + Encode(data[i..]) == Encode(data)
    {
      ghost var x := data[i..];
      var c: sextet := data[i] / 4;
      var c0 := Base64Table(c);
      c := data[i] % 4 * 16;
      i := i + 1;
      if i < |data| {
        c := c + data[i] / 16;
      }
      var c1 := Base64Table(c);
      var c2, c3 := '=', '=';
      if i < |data| {
        c := data[i] % 16 * 4;
        i := i + 1;
        if i < |data| {
          c := c + data[i] / 64;
        }
        c2 := Base64Table(c);
      }
      if i < |data| {
        c := data[i] % 64;
        c3 := Base64Table(c);
        i := i + 1;
      }
      assert [c0, c1, c2, c3] == Quantum(x);
      assert data[i..] == Rest(x);
      NextGroup(result, x);
      result := result + [c0, c1, c2, c3];
    }
  }

  lemma NextGroup(before: string, x: seq<byte>)
    requires x != []
    ensures before + Encode(x) == (before + Quantum(x)) + Encode(Rest(x))
  {
    hide Quantum, Rest;
  }

  /** One of the test vectors of section 10 of RFC 4648: "fooba". */
  lemma KnownEncoding()
    ensures Encode([102, 111, 111, 98, 97]) == "Zm9vYmE="
  {
    var x: seq<byte> := [102, 111, 111, 98, 97];
    assert Rest(x) == [98, 97] && Rest([98, 97]) == [];
    assert Quantum(x) == "Zm9v";
    assert Quantum([98, 97]) == "YmE=";
    assert Encode([98, 97]) == Quantum([98, 97]) + Encode([]);
  }

  // ------------------------------------------------------------------
  // Canonical texts
  // ------------------------------------------------------------------

  /** `s` begins with `n` alphabet characters and pads up to four. */
  predicate FirstQuantum(s: string, n: nat) {
    && 2 <= n <= 4 <= |s|
    && InAlphabet(s[0]) && InAlphabet(s[1])
    && (if n > 2 then InAlphabet(s[2]) else s[2] == '=')
    && (if n > 3 then InAlphabet(s[3]) else s[3] == '=')
  }

  /** The bits of the last character that no byte uses are zero. */
  predicate NoUnusedBits(s: string, n: nat)
    requires FirstQuantum(s, n)
  {
    match n
    case 2 => DecodeTable(s[1]) % 16 == 0
    case 3 => DecodeTable(s[2]) % 4 == 0
    case _ => true
  }

  /** The canonical texts of section 3.5 of RFC 4648: full groups, then at most one padded group without unused bits. */
  predicate Canonical(s: string) {
    if s == [] then true
    else if FirstQuantum(s, 4) then Canonical(s[4..])
    else |s| == 4 && exists n :: 2 <= n <= 3 && FirstQuantum(s, n) && NoUnusedBits(s, n)
  }

  lemma QuantumDecodes(x: seq<byte>)
    requires x != []
    ensures var n := if |x| >= 3 then 4 else |x| + 1;
            && FirstQuantum(Quantum(x), n) && NoUnusedBits(Quantum(x), n)
            && |Sextets(Quantum(x))| == n
            && Carried(Sextets(Quantum(x))) == if |x| <= 3 then x else x[..3]
  {
    hide Base64Table, DecodeTable, Carried, Sextets;
    var s, n := Quantum(x), if |x| >= 3 then 4 else |x| + 1;
    var q0, q1 := x[0] / 4, x[0] % 4 * 16 + (if |x| > 1 then x[1] / 16 else 0);
    var q2 := if |x| > 1 then x[1] % 16 * 4 + (if |x| > 2 then x[2] / 64 else 0) else 0;
    var q3 := if |x| > 2 then x[2] % 64 else 0;
    TablesInverse(q0, '=');
    TablesInverse(q1, '=');
    TablesInverse(q2, '=');
    TablesInverse(q3, '=');
    PadIsNoSextet();
    SextetsOfFour(s);
    QuantumBytes(q0, q1, q2, q3);
    if |x| == 1 {
      assert Sextets(s) == [q0, q1];
      assert x == [x[0]] && Byte0(q0, q1) == x[0];
    } else if |x| == 2 {
      assert Sextets(s) == [q0, q1, q2];
      assert x == [x[0], x[1]] && Byte0(q0, q1) == x[0] && Byte1(q1, q2) == x[1];
    } else {
      assert Sextets(s) == [q0, q1, q2, q3];
      assert x[..3] == [x[0], x[1], x[2]];
      assert Byte0(q0, q1) == x[0] && Byte1(q1, q2) == x[1] && Byte2(q2, q3) == x[2];
    }
  }

  lemma PadIsNoSextet()
    ensures !InAlphabet('=')
  {
  }

  lemma SextetsOfFour(s: string)
    requires |s| == 4
    ensures Sextets(s) == SextetOf(s[0]) + (SextetOf(s[1]) + (SextetOf(s[2]) + (SextetOf(s[3]) + [])))
  {
    hide SextetOf;
    assert s[1..][1..] == s[2..] && s[2..][1..] == s[3..] && s[3..][1..] == [];
    assert Sextets(s[3..]) == SextetOf(s[3]) + [];
    assert Sextets(s[2..]) == SextetOf(s[2]) + Sextets(s[3..]);
    assert Sextets(s[1..]) == SextetOf(s[1]) + Sextets(s[2..]);
  }

  /** Every encoded text is canonical and carries exactly the bytes that were encoded. */
  lemma {:induction false} EncodeIsCanonical(x: seq<byte>)
    ensures Canonical(Encode(x))
    ensures Carried(Sextets(Encode(x))) == x
    decreases |x|
  {
    hide Quantum, Carried, DecodeTable, Sextets;
    if x == [] {
      assert Carried(Sextets([])) == [] by { NothingCarried(); }
    } else {
      var s, t := Quantum(x), Encode(Rest(x));
      QuantumDecodes(x);
      EncodeIsCanonical(Rest(x));
      assert (s + t)[4..] == t;
      SextetsConcat(s, t);
      if |x| >= 3 {
        assert FirstQuantum(s + t, 4);
        CarriedConcat(Sextets(s), Sextets(t));
        assert x == x[..3] + Rest(x);
      } else {
        assert s + t == s;
        assert FirstQuantum(s, |x| + 1) && NoUnusedBits(s, |x| + 1);
        assert !FirstQuantum(s, 4) by { PadIsNoSextet(); }
      }
    }
  }

  lemma NothingCarried()
    ensures Carried(Sextets([])) == []
  {
  }

  /** The bytes of one group determine its characters, when no bit is unused. */
  lemma QuantumOfDecoded(s: string, n: nat)
    requires |s| == 4 && FirstQuantum(s, n) && NoUnusedBits(s, n)
    ensures |Sextets(s)| == n && |Carried(Sextets(s))| == n - 1
    ensures Quantum(Carried(Sextets(s))) == s
  {
    hide Base64Table, DecodeTable, Carried, Sextets, Byte0, Byte1, Byte2;
    PadIsNoSextet();
    SextetsOfFour(s);
    TablesInverse(0, s[0]);
    TablesInverse(0, s[1]);
    TablesInverse(0, s[2]);
    TablesInverse(0, s[3]);
    var q0, q1 := DecodeTable(s[0]), DecodeTable(s[1]);
    var q2, q3 := if n > 2 then DecodeTable(s[2]) else 0, if n > 3 then DecodeTable(s[3]) else 0;
    QuantumBytes(q0, q1, q2, q3);
    Resplit(q0, q1, q2, q3);
    if n == 2 {
      assert Sextets(s) == [q0, q1];
    } else if n == 3 {
      assert Sextets(s) == [q0, q1, q2];
    } else {
      assert Sextets(s) == [q0, q1, q2, q3];
    }
  }

  lemma Resplit(q0: sextet, q1: sextet, q2: sextet, q3: sextet)
    ensures Byte0(q0, q1) / 4 == q0
    ensures Byte0(q0, q1) % 4 * 16 + Byte1(q1, q2) / 16 == q1
    ensures Byte1(q1, q2) % 16 * 4 + Byte2(q2, q3) / 64 == q2
    ensures Byte2(q2, q3) % 64 == q3
    ensures q1 % 16 == 0 ==> Byte0(q0, q1) % 4 * 16 == q1
    ensures q2 % 4 == 0 ==> Byte1(q1, q2) % 16 * 4 == q2
  {
  }

  /** A canonical text is the encoding of the bytes it carries. */
  lemma {:induction false} CanonicalIsEncoded(s: string)
    requires Canonical(s)
    ensures Encode(Carried(Sextets(s))) == s
    decreases |s|
  {
    hide Quantum, Carried, DecodeTable, Sextets;
    if s == [] {
      assert Carried(Sextets([])) == [] by { NothingCarried(); }
    } else if FirstQuantum(s, 4) {
      var a, t := s[..4], s[4..];
      assert s == a + t && FirstQuantum(a, 4);
      QuantumOfDecoded(a, 4);
      CanonicalIsEncoded(t);
      SextetsConcat(a, t);
      CarriedConcat(Sextets(a), Sextets(t));
      var x, y := Carried(Sextets(a)), Carried(Sextets(t));
      assert Rest(x + y) == y;
      SameQuantum(x, y);
    } else {
      var n :| 2 <= n <= 3 && FirstQuantum(s, n) && NoUnusedBits(s, n);
      QuantumOfDecoded(s, n);
      assert Rest(Carried(Sextets(s))) == [];
    }
  }

  lemma SameQuantum(x: seq<byte>, y: seq<byte>)
    requires |x| == 3
    ensures Quantum(x + y) == Quantum(x)
  {
  }

  /** Canonical is exactly being an encoding. */
  lemma CanonicalIffEncoding(s: string)
    ensures Canonical(s) <==> exists x :: s == Encode(x)
  {
    hide Canonical, Encode;
    if Canonical(s) {
      CanonicalIsEncoded(s);
    }
    forall x | s == Encode(x)
      ensures Canonical(s)
    {
      EncodeIsCanonical(x);
    }
  }

  lemma NoSextets()
    ensures Sextets([]) == []
  {
  }

  lemma SextetsPush(text: string, a: nat, d: nat)
    requires a <= d < |text|
    ensures Sextets(text[a..d + 1]) == Sextets(text[a..d]) + SextetOf(text[d])
  {
    hide SextetOf, Sextets;
    assert text[a..d + 1] == text[a..d] + [text[d]];
    SextetsConcat(text[a..d], [text[d]]);
    SextetsOne(text[d]);
  }

  lemma SextetsOne(c: char)
    ensures Sextets([c]) == SextetOf(c)
  {
    assert [c][1..] == [];
  }

  lemma SextetsSplit(text: string, a: nat, b: nat, c: nat)
    requires a <= b <= c <= |text|
    ensures Sextets(text[a..c]) == Sextets(text[a..b]) + Sextets(text[b..c])
  {
    hide Sextets;
    assert text[a..c] == text[a..b] + text[b..c];
    SextetsConcat(text[a..b], text[b..c]);
  }
}

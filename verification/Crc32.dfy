/**
 CRC-32 as computed by webrtc/base/crc32.cc: a table-driven register update,
 proved equal to the bit-at-a-time division of section 8 of RFC 1952, and the
 error-detection guarantee a 32-bit CRC exists for: every error burst of at
 most 32 consecutive bits changes the checksum.

 Facts about machine words are proved in small lemmas of their own; the
 inductive proofs hide the word operations and use only those facts.
 */
module Crc32 {

  const POLYNOMIAL: bv32 := 0xEDB88320
  const ALL_ONES: bv32 := 0xFFFFFFFF

  // ------------------------------------------------------------------
  // Reference definition: one message bit at a time, least significant first
  // ------------------------------------------------------------------

  function Xor(a: bv32, b: bv32): bv32 {
    a ^ b
  }

  predicate Odd(c: bv32) {
    c & 1 == 1
  }

  function Half(c: bv32): bv32 {
    c >> 1
  }

  /** One division step of the register, by the polynomial in reversed form. */
  function BitStep(c: bv32): bv32 {
    if Odd(c) then Xor(POLYNOMIAL, Half(c)) else Half(c)
  }

  function Steps(c: bv32, n: nat): bv32
    decreases n
  {
    if n == 0 then c else Steps(BitStep(c), n - 1)
  }

  function BitWord(b: bool): bv32 {
    if b then 1 else 0
  }

  /** Feeds the bits of a message into the register, one by one. */
  function FeedBits(c: bv32, bits: seq<bool>): bv32
    decreases |bits|
  {
    if bits == [] then c else FeedBits(BitStep(Xor(c, BitWord(bits[0]))), bits[1..])
  }

  function ByteBits(b: bv8): (bits: seq<bool>)
    ensures |bits| == 8
  {
    [b & 1 != 0, b & 2 != 0, b & 4 != 0, b & 8 != 0,
     b & 16 != 0, b & 32 != 0, b & 64 != 0, b & 128 != 0]
  }

  function MessageBits(m: seq<bv8>): (bits: seq<bool>)
    ensures |bits| == 8 * |m|
  {
    if m == [] then [] else ByteBits(m[0]) + MessageBits(m[1..])
  }

  /** The checksum of `m`, continuing from the checksum `start`. */
  function Crc(start: bv32, m: seq<bv8>): bv32 {
    Xor(FeedBits(Xor(start, ALL_ONES), MessageBits(m)), ALL_ONES)
  }

  // ------------------------------------------------------------------
  // Facts about single words
  // ------------------------------------------------------------------

  lemma XorCancel(x: bv32, y: bv32)
    ensures Xor(Xor(x, y), y) == x
    ensures Xor(Xor(y, x), y) == x
  {
  }

  lemma XorAssoc(a: bv32, b: bv32, c: bv32)
    ensures Xor(Xor(a, b), c) == Xor(a, Xor(b, c))
  {
  }

  lemma XorZero(c: bv32)
    ensures Xor(c, BitWord(false)) == c
    ensures Xor(c, 0) == c
  {
  }

  predicate TopClear(w: bv32) {
    w & 0x80000000 == 0
  }

  /** Shifts `w` up by one and puts `b` in the lowest position. */
  function ShiftIn(w: bv32, b: bool): bv32 {
    (w << 1) | BitWord(b)
  }

  lemma OddShiftIn(c: bv32, w: bv32, b: bool)
    ensures Odd(Xor(c, ShiftIn(w, b))) == Odd(Xor(c, BitWord(b)))
  {
  }

  lemma HalfShiftIn(c: bv32, w: bv32, b: bool)
    requires TopClear(w)
    ensures Half(Xor(c, ShiftIn(w, b))) == Xor(Half(Xor(c, BitWord(b))), w)
  {
  }

  lemma ShiftInInjective(p: bv32, x: bool, q: bv32, y: bool)
    requires TopClear(p) && TopClear(q)
    requires ShiftIn(p, x) == ShiftIn(q, y)
    ensures p == q && x == y
  {
  }

  lemma HalfTop(c: bv32)
    ensures TopClear(Half(c))
    ensures !TopClear(Xor(POLYNOMIAL, Half(c)))
  {
  }

  lemma HalfBack(c: bv32)
    ensures ShiftIn(Half(c), Odd(c)) == c
  {
  }

  // ------------------------------------------------------------------
  // The register step loses nothing
  // ------------------------------------------------------------------

  /** The step run backwards; the polynomial's top bit tells which branch was taken. */
  function BitUnstep(c: bv32): bv32 {
    if TopClear(c) then ShiftIn(c, false) else ShiftIn(Xor(c, POLYNOMIAL), true)
  }

  lemma UnstepStep(c: bv32)
    ensures BitUnstep(BitStep(c)) == c
  {
    hide Xor, Odd, Half, ShiftIn, TopClear;
    HalfTop(c);
    HalfBack(c);
    XorCancel(Half(c), POLYNOMIAL);
  }

  lemma {:induction false} StepsInjective(a: bv32, b: bv32, n: nat)
    requires Steps(a, n) == Steps(b, n)
    ensures a == b
    decreases n
  {
    hide BitStep, BitUnstep;
    if n > 0 {
      StepsInjective(BitStep(a), BitStep(b), n - 1);
      UnstepStep(a);
      UnstepStep(b);
    }
  }

  lemma {:induction false} FeedInjective(a: bv32, b: bv32, bits: seq<bool>)
    requires FeedBits(a, bits) == FeedBits(b, bits)
    ensures a == b
    decreases |bits|
  {
    hide Xor, BitStep, BitUnstep, BitWord;
    if bits != [] {
      var w := BitWord(bits[0]);
      FeedInjective(BitStep(Xor(a, w)), BitStep(Xor(b, w)), bits[1..]);
      UnstepStep(Xor(a, w));
      UnstepStep(Xor(b, w));
      XorCancel(a, w);
      XorCancel(b, w);
    }
  }

  // ------------------------------------------------------------------
  // Splitting a run of bits
  // ------------------------------------------------------------------

  lemma {:induction false} FeedConcat(c: bv32, a: seq<bool>, b: seq<bool>)
    ensures FeedBits(c, a + b) == FeedBits(FeedBits(c, a), b)
    decreases |a|
  {
    hide Xor, BitStep, BitWord;
    if a == [] {
      assert a + b == b;
    } else {
      assert (a + b)[1..] == a[1..] + b;
      FeedConcat(BitStep(Xor(c, BitWord(a[0]))), a[1..], b);
    }
  }

  lemma {:induction false} MessageBitsConcat(a: seq<bv8>, b: seq<bv8>)
    ensures MessageBits(a + b) == MessageBits(a) + MessageBits(b)
  {
    hide ByteBits;
    if a == [] {
      assert a + b == b;
    } else {
      assert (a + b)[1..] == a[1..] + b;
      MessageBitsConcat(a[1..], b);
    }
  }

  /** Updating over `a` and then over `b` is updating once over `a + b`. */
  lemma CrcConcat(start: bv32, a: seq<bv8>, b: seq<bv8>)
    ensures Crc(Crc(start, a), b) == Crc(start, a + b)
  {
    hide Xor, FeedBits, MessageBits;
    XorCancel(FeedBits(Xor(start, ALL_ONES), MessageBits(a)), ALL_ONES);
    MessageBitsConcat(a, b);
    FeedConcat(Xor(start, ALL_ONES), MessageBits(a), MessageBits(b));
  }

  // ------------------------------------------------------------------
  // Up to 32 bits can be xored in up front, before any step is taken
  // ------------------------------------------------------------------

  /** The bits as a word, first bit lowest. */
  function Pack(bits: seq<bool>): bv32 {
    if bits == [] then 0 else ShiftIn(Pack(bits[1..]), bits[0])
  }

  /** All ones from position `k` upwards. */
  function HighMask(k: nat): bv32 {
    if k == 0 then ALL_ONES else HighMask(k - 1) << 1
  }

  predicate Disjoint(p: bv32, h: bv32) {
    p & h == 0
  }

  lemma ShiftInDisjoint(p: bv32, h: bv32, b: bool)
    requires Disjoint(p, h)
    ensures Disjoint(ShiftIn(p, b), h << 1)
  {
  }

  lemma {:induction false} PackDisjoint(bits: seq<bool>)
    ensures Disjoint(Pack(bits), HighMask(|bits|))
  {
    hide Disjoint, ShiftIn;
    if bits == [] {
      assert Disjoint(0, ALL_ONES) by { ZeroDisjoint(ALL_ONES); }
    } else {
      PackDisjoint(bits[1..]);
      ShiftInDisjoint(Pack(bits[1..]), HighMask(|bits| - 1), bits[0]);
    }
  }

  lemma ZeroDisjoint(h: bv32)
    ensures Disjoint(0, h)
  {
  }

  lemma {:induction false} HighMaskTop(k: nat)
    requires k <= 31
    ensures !TopClear(HighMask(k))
    decreases 31 - k
  {
    if k == 31 {
      assert HighMask(4) == 0xFFFFFFF0;
      assert HighMask(8) == 0xFFFFFF00;
      assert HighMask(12) == 0xFFFFF000;
      assert HighMask(16) == 0xFFFF0000;
      assert HighMask(20) == 0xFFF00000;
      assert HighMask(24) == 0xFF000000;
      assert HighMask(28) == 0xF0000000;
      assert HighMask(31) == 0x80000000;
    } else {
      HighMaskTop(k + 1);
      HighMaskNested(k);
      SubMaskTop(HighMask(k + 1), HighMask(k));
    }
  }

  lemma SubMaskTop(g: bv32, h: bv32)
    requires g & h == g && !TopClear(g)
    ensures !TopClear(h)
  {
  }

  lemma {:induction false} HighMaskNested(k: nat)
    ensures HighMask(k + 1) & HighMask(k) == HighMask(k + 1)
  {
    if k > 0 {
      HighMaskNested(k - 1);
      var h, g := HighMask(k), HighMask(k - 1);
      assert h & g == h ==> (h << 1) & (g << 1) == h << 1;
    }
  }

  lemma DisjointTop(p: bv32, h: bv32)
    requires Disjoint(p, h) && !TopClear(h)
    ensures TopClear(p)
  {
  }

  lemma PackTopClear(bits: seq<bool>)
    requires |bits| <= 31
    ensures TopClear(Pack(bits))
  {
    hide Pack, HighMask, Disjoint, TopClear;
    PackDisjoint(bits);
    HighMaskTop(|bits|);
    DisjointTop(Pack(bits), HighMask(|bits|));
  }

  lemma {:induction false} PackInjective(a: seq<bool>, b: seq<bool>)
    requires |a| == |b| <= 32
    requires Pack(a) == Pack(b)
    ensures a == b
  {
    hide ShiftIn, TopClear;
    if a != [] {
      PackTopClear(a[1..]);
      PackTopClear(b[1..]);
      ShiftInInjective(Pack(a[1..]), a[0], Pack(b[1..]), b[0]);
      PackInjective(a[1..], b[1..]);
      assert a == [a[0]] + a[1..];
      assert b == [b[0]] + b[1..];
    }
  }

  /** The step commutes with xoring in a shifted word: no bit is lost while the top bit is clear. */
  lemma StepLinear(c: bv32, w: bv32, b: bool)
    requires TopClear(w)
    ensures BitStep(Xor(c, ShiftIn(w, b))) == Xor(BitStep(Xor(c, BitWord(b))), w)
  {
    hide Xor, Odd, Half, ShiftIn, BitWord, TopClear;
    OddShiftIn(c, w, b);
    HalfShiftIn(c, w, b);
    XorAssoc(POLYNOMIAL, Half(Xor(c, BitWord(b))), w);
  }

  lemma {:induction false} FeedPacked(c: bv32, bits: seq<bool>)
    requires |bits| <= 32
    ensures FeedBits(c, bits) == Steps(Xor(c, Pack(bits)), |bits|)
    decreases |bits|
  {
    hide Xor, BitStep, ShiftIn, BitWord, TopClear;
    if bits == [] {
      XorZero(c);
    } else {
      FeedPacked(BitStep(Xor(c, BitWord(bits[0]))), bits[1..]);
      PackTopClear(bits[1..]);
      StepLinear(c, Pack(bits[1..]), bits[0]);
    }
  }

  // ------------------------------------------------------------------
  // Error detection
  // ------------------------------------------------------------------

  /** From one register value, two different runs of at most 32 bits lead to different values. */
  lemma BurstInjective(c: bv32, a: seq<bool>, b: seq<bool>)
    requires |a| == |b| <= 32
    requires FeedBits(c, a) == FeedBits(c, b)
    ensures a == b
  {
    hide Xor, Steps, Pack, FeedBits;
    FeedPacked(c, a);
    FeedPacked(c, b);
    StepsInjective(Xor(c, Pack(a)), Xor(c, Pack(b)), |a|);
    XorCancel(Pack(a), c);
    XorCancel(Pack(b), c);
    PackInjective(a, b);
  }

  /** `a` and `b` agree everywhere but possibly in the `n` positions from `i` on. */
  ghost predicate DifferOnlyWithin(a: seq<bool>, b: seq<bool>, i: nat, n: nat) {
    |a| == |b| && i + n <= |a| && a[..i] == b[..i] && a[i + n..] == b[i + n..]
  }

  lemma BurstDetectedInBits(c: bv32, a: seq<bool>, b: seq<bool>, i: nat, n: nat)
    requires DifferOnlyWithin(a, b, i, n) && n <= 32
    requires FeedBits(c, a) == FeedBits(c, b)
    ensures a == b
  {
    hide FeedBits;
    var j := i + n;
    assert a == a[..i] + (a[i..j] + a[j..]) && b == b[..i] + (b[i..j] + b[j..]);
    FeedConcat(c, a[..i], a[i..j] + a[j..]);
    FeedConcat(c, b[..i], b[i..j] + b[j..]);
    var r := FeedBits(c, a[..i]);
    FeedConcat(r, a[i..j], a[j..]);
    FeedConcat(r, b[i..j], b[j..]);
    FeedInjective(FeedBits(r, a[i..j]), FeedBits(r, b[i..j]), a[j..]);
    BurstInjective(r, a[i..j], b[i..j]);
  }

  lemma ByteBitsInjective(x: bv8, y: bv8)
    requires ByteBits(x) == ByteBits(y)
    ensures x == y
  {
    assert ByteBits(x)[0] == ByteBits(y)[0] && ByteBits(x)[1] == ByteBits(y)[1]
        && ByteBits(x)[2] == ByteBits(y)[2] && ByteBits(x)[3] == ByteBits(y)[3]
        && ByteBits(x)[4] == ByteBits(y)[4] && ByteBits(x)[5] == ByteBits(y)[5]
        && ByteBits(x)[6] == ByteBits(y)[6] && ByteBits(x)[7] == ByteBits(y)[7];
  }

  lemma {:induction false} MessageBitsInjective(a: seq<bv8>, b: seq<bv8>)
    requires MessageBits(a) == MessageBits(b)
    ensures a == b
  {
    hide ByteBits;
    assert |a| == |b|;
    if a != [] {
      var x, y := MessageBits(a), MessageBits(b);
      assert x[..8] == ByteBits(a[0]) && y[..8] == ByteBits(b[0]);
      assert x[8..] == MessageBits(a[1..]) && y[8..] == MessageBits(b[1..]);
      ByteBitsInjective(a[0], b[0]);
      MessageBitsInjective(a[1..], b[1..]);
      assert a == [a[0]] + a[1..];
      assert b == [b[0]] + b[1..];
    }
  }

  /**
   Every error burst of at most 32 consecutive bits, at any bit position of a
   message of any length, changes the checksum.
   */
  lemma BurstDetected(start: bv32, a: seq<bv8>, b: seq<bv8>, i: nat, n: nat)
    requires DifferOnlyWithin(MessageBits(a), MessageBits(b), i, n) && n <= 32
    requires a != b
    ensures Crc(start, a) != Crc(start, b)
  {
    hide Xor, FeedBits, MessageBits;
    var c := Xor(start, ALL_ONES);
    if Crc(start, a) == Crc(start, b) {
      XorCancel(FeedBits(c, MessageBits(a)), ALL_ONES);
      XorCancel(FeedBits(c, MessageBits(b)), ALL_ONES);
      BurstDetectedInBits(c, MessageBits(a), MessageBits(b), i, n);
      MessageBitsInjective(a, b);
    }
  }

  /** In particular, any damage confined to four consecutive bytes is detected. */
  lemma FourByteWindowDetected(start: bv32, a: seq<bv8>, b: seq<bv8>, i: nat, k: nat)
    requires |a| == |b| && k <= 4 && i + k <= |a|
    requires a[..i] == b[..i] && a[i + k..] == b[i + k..]
    requires a != b
    ensures Crc(start, a) != Crc(start, b)
  {
    hide Xor, FeedBits, MessageBits, Crc;
    MessageBitsWindow(a, i, k);
    MessageBitsWindow(b, i, k);
    BurstDetected(start, a, b, 8 * i, 8 * k);
  }

  lemma MessageBitsWindow(a: seq<bv8>, i: nat, k: nat)
    requires i + k <= |a|
    ensures MessageBits(a)[..8 * i] == MessageBits(a[..i])
    ensures MessageBits(a)[8 * i + 8 * k..] == MessageBits(a[i + k..])
  {
    hide MessageBits;
    assert a == a[..i] + a[i..] && a == a[..i + k] + a[i + k..];
    MessageBitsConcat(a[..i], a[i..]);
    MessageBitsConcat(a[..i + k], a[i + k..]);
  }

  // ------------------------------------------------------------------
  // The table-driven implementation
  // ------------------------------------------------------------------

  /** What slot `x` of the table holds once initialised. */
  function TableEntry(x: bv32): bv32 {
    Steps(x, 8)
  }

  function HalfN(x: bv32, n: nat): bv32 {
    if n == 0 then x else Half(HalfN(x, n - 1))
  }

  function LowBits(x: bv32, n: nat): (bits: seq<bool>)
    ensures |bits| == n
    decreases n
  {
    if n == 0 then [] else [Odd(x)] + LowBits(Half(x), n - 1)
  }

  lemma {:induction false} HalfCommutes(x: bv32, n: nat)
    ensures HalfN(Half(x), n) == HalfN(x, n + 1)
  {
    hide Half;
    if n > 0 {
      HalfCommutes(x, n - 1);
    }
  }

  lemma {:induction false} LowBitsAt(x: bv32, n: nat, k: nat)
    requires k < n
    ensures LowBits(x, n)[k] == Odd(HalfN(x, k))
    decreases n
  {
    hide Half, Odd;
    if k > 0 {
      LowBitsAt(Half(x), n - 1, k - 1);
      HalfCommutes(x, k - 1);
    }
  }

  /** Xoring in a whole word and stepping `n` times feeds its `n` low bits and shifts the rest down. */
  lemma {:induction false} StepsOfWord(c: bv32, x: bv32, n: nat)
    ensures Steps(Xor(c, x), n) == Xor(FeedBits(c, LowBits(x, n)), HalfN(x, n))
    decreases n
  {
    hide Xor, Half, Odd, BitStep, BitWord, ShiftIn, TopClear;
    if n > 0 {
      HalfBack(x);
      HalfTop(x);
      StepLinear(c, Half(x), Odd(x));
      StepsOfWord(BitStep(Xor(c, BitWord(Odd(x)))), Half(x), n - 1);
      HalfCommutes(x, n - 1);
      assert LowBits(x, n)[1..] == LowBits(Half(x), n - 1);
    }
  }

  lemma Halves(x: bv32)
    ensures HalfN(x, 0) == x && HalfN(x, 1) == x >> 1 && HalfN(x, 2) == x >> 2 && HalfN(x, 3) == x >> 3
    ensures HalfN(x, 4) == x >> 4 && HalfN(x, 5) == x >> 5 && HalfN(x, 6) == x >> 6 && HalfN(x, 7) == x >> 7
    ensures HalfN(x, 8) == x >> 8
  {
    assert HalfN(x, 1) == x >> 1;
    assert HalfN(x, 2) == x >> 2;
    assert HalfN(x, 3) == x >> 3;
    assert HalfN(x, 4) == x >> 4;
    assert HalfN(x, 5) == x >> 5;
    assert HalfN(x, 6) == x >> 6;
    assert HalfN(x, 7) == x >> 7;
  }

  lemma EightLowBits(x: bv32)
    ensures LowBits(x, 8) == [Odd(x), Odd(x >> 1), Odd(x >> 2), Odd(x >> 3),
                              Odd(x >> 4), Odd(x >> 5), Odd(x >> 6), Odd(x >> 7)]
  {
    hide Odd, HalfN, LowBits;
    Halves(x);
    LowBitsAt(x, 8, 0);
    LowBitsAt(x, 8, 1);
    LowBitsAt(x, 8, 2);
    LowBitsAt(x, 8, 3);
    LowBitsAt(x, 8, 4);
    LowBitsAt(x, 8, 5);
    LowBitsAt(x, 8, 6);
    LowBitsAt(x, 8, 7);
  }

  lemma LowByteBits(x: bv32)
    ensures LowBits(x & 0xFF, 8) == LowBits(x, 8)
  {
    hide LowBits;
    EightLowBits(x);
    EightLowBits(x & 0xFF);
  }

  lemma ByteBitsAreLowBits(b: bv8)
    ensures ByteBits(b) == LowBits(b as bv32, 8)
  {
    hide LowBits;
    EightLowBits(b as bv32);
  }

  lemma ByteShift(x: bv32, b: bv8)
    ensures (x & 0xFF) >> 8 == 0 && b as bv32 >> 8 == 0
    ensures Xor(0, x) == x && Xor(0, x & 0xFF) == x & 0xFF
  {
  }

  /** Eight steps on a word: the low byte goes through the table, the rest just shifts down. */
  lemma EightSteps(x: bv32)
    ensures Steps(x, 8) == Xor(TableEntry(x & 0xFF), x >> 8)
  {
    hide Xor, Steps, HalfN, LowBits, FeedBits;
    ByteShift(x, 0);
    StepsOfWord(0, x, 8);
    StepsOfWord(0, x & 0xFF, 8);
    LowByteBits(x);
    Halves(x);
    Halves(x & 0xFF);
    XorZero(FeedBits(0, LowBits(x, 8)));
  }

  lemma HighBitsUntouched(c: bv32, b: bv8)
    ensures Xor(c, b as bv32) >> 8 == c >> 8
  {
  }

  /** One byte of input: eight bit steps are one table lookup. */
  lemma FeedByte(c: bv32, b: bv8)
    ensures FeedBits(c, ByteBits(b)) == Xor(TableEntry(Xor(c, b as bv32) & 0xFF), c >> 8)
  {
    hide Xor, Steps, ByteBits, FeedBits, TableEntry;
    FeedByteSteps(c, b);
    EightSteps(Xor(c, b as bv32));
    HighBitsUntouched(c, b);
  }

  // ------------------------------------------------------------------
  // A known checksum
  // ------------------------------------------------------------------

  /** Feeding a byte is xoring it in and taking eight steps. */
  lemma FeedByteSteps(c: bv32, b: bv8)
    ensures FeedBits(c, ByteBits(b)) == Steps(Xor(c, b as bv32), 8)
  {
    hide Xor, Steps, ByteBits, FeedBits, HalfN, LowBits;
    ByteShift(0, b);
    ByteBitsAreLowBits(b);
    StepsOfWord(c, b as bv32, 8);
    Halves(b as bv32);
    XorZero(FeedBits(c, LowBits(b as bv32, 8)));
  }

  lemma EightTimes(x0: bv32, x1: bv32, x2: bv32, x3: bv32, x4: bv32, x5: bv32, x6: bv32, x7: bv32, x8: bv32)
    requires BitStep(x0) == x1 && BitStep(x1) == x2 && BitStep(x2) == x3 && BitStep(x3) == x4
    requires BitStep(x4) == x5 && BitStep(x5) == x6 && BitStep(x6) == x7 && BitStep(x7) == x8
    ensures Steps(x0, 8) == x8
  {
    hide BitStep;
    assert Steps(x6, 2) == x8;
    assert Steps(x4, 4) == Steps(x6, 2);
    assert Steps(x2, 6) == Steps(x4, 4);
  }

  /** The checksum of "abc" that the unit test expects. */
  lemma ChecksumOfAbc()
    ensures Crc(0, [0x61, 0x62, 0x63]) == 0x352441C2
  {
    hide FeedBits, ByteBits, Steps;
    var m: seq<bv8> := [0x61, 0x62, 0x63];
    ThreeBytes(0xFFFFFFFF, 0x61, 0x62, 0x63);
    FeedByteSteps(0xFFFFFFFF, 0x61);
    EightTimes(0xFFFFFF9E, 0x7FFFFFCF, 0xD2477CC7, 0x849B3D43, 0xAFF51D81, 0xBA420DE0, 0x5D2106F0, 0x2E908378, 0x174841BC);
    FeedByteSteps(0x174841BC, 0x62);
    EightTimes(0x174841DE, 0xBA420EF, 0xE86A9357, 0x998DCA8B, 0xA17E6665, 0xBD07B012, 0x5E83D809, 0xC2F96F24, 0x617CB792);
    FeedByteSteps(0x617CB792, 0x63);
    EightTimes(0x617CB7F1, 0xDD06D8D8, 0x6E836C6C, 0x3741B636, 0x1BA0DB1B, 0xE068EEAD, 0x9D8CF476, 0x4EC67A3B, 0xCADBBE3D);
  }

  lemma ThreeBytes(c: bv32, x: bv8, y: bv8, z: bv8)
    ensures FeedBits(c, MessageBits([x, y, z]))
         == FeedBits(FeedBits(FeedBits(c, ByteBits(x)), ByteBits(y)), ByteBits(z))
  {
    hide FeedBits, ByteBits;
    assert [x, y, z][1..] == [y, z] && [y, z][1..] == [z] && [z][1..] == [];
    assert MessageBits([z]) == ByteBits(z);
    FeedConcat(c, ByteBits(x), MessageBits([y, z]));
    FeedConcat(FeedBits(c, ByteBits(x)), ByteBits(y), MessageBits([z]));
  }

  /** The state of crc32.cc: the table, static and filled on first use. */
  class Crc32Table {
    const table: array<bv32>

    /** Untouched, or filled completely; the last slot tells which. */
    ghost predicate Valid()
      reads this, table
    {
      && table.Length == 256
      && (table[255] != 0 ==> Filled())
    }

    ghost predicate Filled()
      reads this, table
      requires table.Length == 256
    {
      forall i :: 0 <= i < 256 ==> table[i] == TableEntry(i as bv32)
    }

    constructor ()
      ensures Valid() && fresh(table)
    {
      table := new bv32[256](_ => 0);
    }

    method EnsureInited()
      requires Valid()
      modifies table
      ensures Valid() && Filled()
    {
      hide BitStep;
      if table[255] != 0 {
        return;
      }
      var i := 0;
      while i < 256
        invariant 0 <= i <= 256
        invariant forall k :: 0 <= k < i ==> table[k] == TableEntry(k as bv32)
      {
        var c := i as bv32;
        for j := 0 to 8
          invariant Steps(c, 8 - j) == TableEntry(i as bv32)
        {
          c := BitStep(c);
        }
        table[i] := c;
        i := i + 1;
      }
    }

    /** The running register equals the bit-at-a-time one after every byte, so the result is the checksum. */
    method UpdateCrc32(start: bv32, buf: seq<bv8>) returns (crc: bv32)
      requires Valid()
      modifies table
      ensures Valid() && Filled()
      ensures crc == Crc(start, buf)
    {
      hide BitStep, Xor, FeedBits, MessageBits, TableEntry, ByteBits;
      EnsureInited();
      ghost var c0 := Xor(start, ALL_ONES);
      var c := Xor(start, ALL_ONES);
      var i := 0;
      assert buf[..0] == [];
      EmptyMessage(c0);
      while i < |buf|
        invariant 0 <= i <= |buf|
        invariant c == FeedBits(c0, MessageBits(buf[..i]))
        invariant Filled()
      {
        FeedByte(c, buf[i]);
        FeedNextByte(c0, buf, i);
        var slot := Xor(c, buf[i] as bv32) & 0xFF;
        SlotInRange(slot);
        c := Xor(table[slot as int], c >> 8);
        i := i + 1;
      }
      assert buf[..|buf|] == buf;
      crc := Xor(c, ALL_ONES);
    }
  }

  lemma SlotInRange(x: bv32)
    requires x <= 0xFF
    ensures 0 <= x as int < 256
    ensures (x as int) as bv32 == x
  {
  }

  lemma EmptyMessage(c: bv32)
    ensures FeedBits(c, MessageBits([])) == c
  {
  }

  lemma FeedNextByte(c: bv32, m: seq<bv8>, i: nat)
    requires i < |m|
    ensures FeedBits(c, MessageBits(m[..i + 1])) == FeedBits(FeedBits(c, MessageBits(m[..i])), ByteBits(m[i]))
  {
    hide FeedBits, ByteBits;
    assert m[..i + 1] == m[..i] + [m[i]];
    MessageBitsConcat(m[..i], [m[i]]);
    assert [m[i]][1..] == [];
    assert MessageBits([m[i]]) == ByteBits(m[i]);
    FeedConcat(c, MessageBits(m[..i]), ByteBits(m[i]));
  }
}

/**
 Which texts the Base64 decoder of webrtc/base/base64.cc accepts under each
 combination of rules, in terms of the text and of the bits of its characters.
 */
module Base64Verdicts {
  import opened Arith
  import opened Bytes
  import opened Bits
  import opened Base64
  import opened Base64Decoder

  // ------------------------------------------------------------------
  // What the rules accept
  // ------------------------------------------------------------------

  /** Which characters are skipped. */
  lemma WhatIsIgnored(r: Rules, c: char)
    ensures r.Ignores(c) <==> match r.parse
                              case ParseStrict => false
                              case ParseWhite => c as int in {9, 10, 11, 12, 13, 32}
                              case ParseAny => c !in ALPHABET && (c != '=' || r.noPads)
  {
    hide DecodeTable;
    TheAlphabet(0, c);
    InAlphabetIff(c);
    PadIsNoSextet();
  }

  lemma InAlphabetIff(c: char)
    ensures InAlphabet(c) <==> c in ALPHABET
  {
    if InAlphabet(c) {
      TablesInverse(0, c);
      TheAlphabet(DecodeTable(c), c);
    }
    if c in ALPHABET {
      TheAlphabet(0, c);
      var v :| 0 <= v < |ALPHABET| && ALPHABET[v] == c;
      TheAlphabet(v, c);
      TablesInverse(v, c);
    }
  }

  function Pads(n: nat): (s: string)
    ensures |s| == n
  {
    seq(n, _ => '=')
  }

  predicate AllAlphabet(s: string) {
    forall i :: 0 <= i < |s| ==> InAlphabet(s[i])
  }

  lemma {:induction false} SextetsOfAlphabet(a: string)
    requires AllAlphabet(a)
    ensures |Sextets(a)| == |a|
  {
    hide DecodeTable;
    if a != [] {
      SextetsOfAlphabet(a[1..]);
    }
  }

  /** `a` in front of `p` is a canonical text: the pads complete the last group, which leaves no bit over. */
  predicate Completes(a: string, p: string) {
    || (|a| % 4 == 0 && p == [])
    || (|a| % 4 >= 2 && p == Pads(4 - |a| % 4) && NoBitsLeft(Sextets(a)))
  }

  /** Canonical texts are alphabet characters and then the pads that complete the last group. */
  lemma {:induction false} CanonicalParts(a: string, p: string)
    requires AllAlphabet(a) && (p == [] || !InAlphabet(p[0]))
    ensures |Sextets(a)| == |a|
    ensures Canonical(a + p) <==> Completes(a, p)
    decreases |a|
  {
    hide DecodeTable, Sextets, NoBitsLeft, Pads, Canonical, Completes;
    SextetsOfAlphabet(a);
    if |a| >= 4 {
      var front, rest := a[..4], a[4..];
      CanonicalParts(rest, p);
      assert a == front + rest && a + p == front + (rest + p);
      FullGroup(front, rest + p);
      LaterCompletes(front, rest, p);
    } else if |a| == 3 {
      ThreeLetters(a, p);
    } else if |a| == 2 {
      TwoLetters(a, p);
    } else {
      NoGroup(a, p);
    }
  }

  lemma FullGroup(front: string, s: string)
    requires |front| == 4 && AllAlphabet(front)
    ensures Canonical(front + s) <==> Canonical(s)
  {
    hide DecodeTable;
    assert FirstQuantum(front + s, 4) && (front + s)[4..] == s;
  }

  lemma LaterCompletes(front: string, rest: string, p: string)
    requires |front| == 4 && AllAlphabet(front)
    ensures Completes(front + rest, p) <==> Completes(rest, p)
  {
    hide DecodeTable, Sextets, NoBitsLeft, Pads;
    SextetsConcat(front, rest);
    SextetsOfAlphabet(front);
    FullGroupInFront(Sextets(front), Sextets(rest));
    assert |front + rest| % 4 == |rest| % 4;
  }

  lemma FullGroupInFront(x: seq<sextet>, y: seq<sextet>)
    requires |x| == 4
    ensures NoBitsLeft(x + y) <==> NoBitsLeft(y)
  {
    assert |x + y| % 4 == |y| % 4;
    if y != [] {
      assert (x + y)[|x + y| - 1] == y[|y| - 1];
    }
  }

  lemma NoGroup(a: string, p: string)
    requires |a| < 2 && AllAlphabet(a) && (p == [] || !InAlphabet(p[0]))
    ensures Canonical(a + p) <==> Completes(a, p)
  {
    hide DecodeTable, Sextets, NoBitsLeft;
    if p != [] {
      assert (a + p)[|a|] == p[0];
    }
  }

  lemma TwoLetters(a: string, p: string)
    requires |a| == 2 && AllAlphabet(a) && (p == [] || !InAlphabet(p[0]))
    ensures Canonical(a + p) <==> Completes(a, p)
  {
    hide DecodeTable, Sextets;
    var s := a + p;
    LastSextet(a);
    if |p| == 2 {
      assert s == [a[0], a[1], p[0], p[1]];
      assert p == Pads(2) <==> p[0] == '=' && p[1] == '=';
      LastGroupOf(s, 2);
    } else {
      OneGroupOnly(s);
    }
  }

  lemma ThreeLetters(a: string, p: string)
    requires |a| == 3 && AllAlphabet(a) && (p == [] || !InAlphabet(p[0]))
    ensures Canonical(a + p) <==> Completes(a, p)
  {
    hide DecodeTable, Sextets;
    var s := a + p;
    LastSextet(a);
    if |p| == 1 {
      assert s == [a[0], a[1], a[2], p[0]];
      assert p == Pads(1) <==> p[0] == '=';
      LastGroupOf(s, 3);
    } else {
      OneGroupOnly(s);
    }
  }

  lemma OneGroupOnly(s: string)
    requires s != [] && |s| != 4 && (|s| > 4 ==> !InAlphabet(s[2]) || !InAlphabet(s[3]))
    ensures !Canonical(s)
  {
    hide DecodeTable;
  }

  lemma LastGroupOf(s: string, n: nat)
    requires |s| == 4 && 2 <= n <= 3 && !InAlphabet(s[n])
    requires forall i :: 0 <= i < n ==> InAlphabet(s[i])
    ensures Canonical(s) <==> FirstQuantum(s, n) && NoUnusedBits(s, n)
  {
    hide DecodeTable;
    PadIsNoSextet();
    assert !FirstQuantum(s, 4) && !FirstQuantum(s, 5 - n);
  }

  lemma LastSextet(a: string)
    requires a != [] && AllAlphabet(a)
    ensures |Sextets(a)| == |a| && Sextets(a)[|a| - 1] == DecodeTable(a[|a| - 1])
  {
    hide Sextets, DecodeTable;
    SextetsOfAlphabet(a);
    assert a[0..|a| - 1 + 1] == a;
    SextetsPush(a, 0, |a| - 1);
  }

  /** `data` without the ignored characters. */
  function Stripped(data: string, r: Rules): string {
    if data == [] then [] else (if r.Ignores(data[0]) then [] else [data[0]]) + Stripped(data[1..], r)
  }

  lemma {:induction false} StrippedConcat(a: string, b: string, r: Rules)
    ensures Stripped(a + b, r) == Stripped(a, r) + Stripped(b, r)
  {
    hide DecodeTable;
    if a == [] {
      assert a + b == b;
    } else {
      assert (a + b)[1..] == a[1..] + b;
      StrippedConcat(a[1..], b, r);
    }
  }

  lemma StrippedStep(data: string, i: nat, r: Rules)
    requires i < |data|
    ensures Stripped(data[i..], r) == (if r.Ignores(data[i]) then [] else [data[i]]) + Stripped(data[i + 1..], r)
    ensures Sextets(data[i..]) == SextetOf(data[i]) + Sextets(data[i + 1..])
  {
    hide DecodeTable, SextetOf;
    assert data[i..][1..] == data[i + 1..];
  }

  lemma NothingStripped(r: Rules)
    ensures Stripped([], r) == []
  {
  }

  /** Ignored characters carry nothing. */
  lemma {:induction false} SextetsOfStripped(data: string, r: Rules)
    ensures Sextets(Stripped(data, r)) == Sextets(data)
  {
    hide DecodeTable, Sextets, Stripped;
    if data == [] {
      NothingStripped(r);
    } else {
      assert data[0..] == data;
      StrippedStep(data, 0, r);
      SextetsOfStripped(data[1..], r);
      SextetsConcat(if r.Ignores(data[0]) then [] else [data[0]], Stripped(data[1..], r));
      NoSextets();
      SextetsOne(data[0]);
    }
  }

  /** Up to the end of the plain part only alphabet characters remain; what follows begins with another character. */
  lemma {:induction false} PlainStripped(data: string, i: nat, r: Rules)
    requires i <= |data|
    ensures AllAlphabet(Stripped(data[i..PlainEnd(data, i, r)], r))
    decreases |data| - i
  {
    hide DecodeTable, Stripped;
    var e := PlainEnd(data, i, r);
    if i < e {
      PlainStripped(data, i + 1, r);
      assert data[i..e] == [data[i]] + data[i + 1..e];
      StrippedConcat([data[i]], data[i + 1..e], r);
      StrippedOne(data[i], r);
    } else {
      assert data[i..e] == [];
      NothingStripped(r);
    }
  }

  lemma StrippedOne(c: char, r: Rules)
    ensures Stripped([c], r) == if r.Ignores(c) then [] else [c]
  {
    hide DecodeTable;
    assert [c][1..] == [];
  }

  lemma {:induction false} PlainEndStops(data: string, i: nat, r: Rules)
    requires i <= |data|
    ensures PlainEnd(data, i, r) < |data| ==> !r.IsPlain(data[PlainEnd(data, i, r)])
    decreases |data| - i
  {
    hide DecodeTable;
    if i < |data| && r.IsPlain(data[i]) {
      PlainEndStops(data, i + 1, r);
    }
  }

  /** The rest of a text is `n` pads and ignored characters exactly when the pads are found and nothing comes after. */
  lemma {:induction false} PadsStripped(data: string, i: nat, n: nat, r: Rules)
    requires i <= |data| && !r.parse.ParseAny?
    ensures PadRun(data, i, r) >= n && AfterPads(data, i, n, r) == |data|
       <==> Stripped(data[i..], r) == Pads(n) && (n > 0 ==> !r.noPads)
    decreases |data| - i
  {
    hide DecodeTable, Stripped;
    PadIsNoSextet();
    if i == |data| {
      assert data[i..] == [];
      NothingStripped(r);
    } else {
      StrippedStep(data, i, r);
      if r.Ignores(data[i]) {
        PadsStripped(data, i + 1, n, r);
      } else if r.IsPad(data[i]) && n > 0 {
        PadsStripped(data, i + 1, n - 1, r);
        PadsFront(n, Stripped(data[i + 1..], r));
      } else if Stripped(data[i..], r) == Pads(n) {
        assert Pads(n)[0] == data[i];
      }
    }
  }

  lemma PadsFront(n: nat, s: string)
    requires n > 0
    ensures ['='] + s == Pads(n) <==> s == Pads(n - 1)
  {
    assert Pads(n) == ['='] + Pads(n - 1);
    assert (['='] + s)[1..] == s && Pads(n)[1..] == Pads(n - 1);
  }

  lemma {:induction false} SextetsOfPads(n: nat)
    ensures Sextets(Pads(n)) == []
  {
    if n > 0 {
      SextetsOfPads(n - 1);
      assert Pads(n)[1..] == Pads(n - 1);
    }
  }

  /** A text as the characters before the padding and the rest, both without ignored characters. */
  lemma StrippedParts(data: string, r: Rules)
    requires !r.parse.ParseAny?
    ensures var e := CharsEnd(data, r);
            var a, p := Stripped(data[..e], r), Stripped(data[e..], r);
            && Stripped(data, r) == a + p && AllAlphabet(a) && Sextets(a) == Sextets(data[..e])
            && (p == [] <==> e == |data|) && (p == [] || !InAlphabet(p[0]))
            && Sextets(data) == Sextets(a) + Sextets(p)
  {
    hide DecodeTable, Sextets, Stripped;
    var e := CharsEnd(data, r);
    assert data == data[..e] + data[e..] && data[0..e] == data[..e];
    StrippedConcat(data[..e], data[e..], r);
    SextetsConcat(data[..e], data[e..]);
    PlainStripped(data, 0, r);
    SextetsOfStripped(data[..e], r);
    SextetsOfStripped(data[e..], r);
    PlainEndStops(data, 0, r);
    if e < |data| {
      StrippedStep(data, e, r);
    } else {
      assert data[e..] == [];
      NothingStripped(r);
    }
  }

  /**
   With padding required and the whole text to be used, a text is accepted
   exactly when it is canonical without its ignored characters, and nothing is
   ignored after a final full group.
   */
  lemma VerdictOnWholeText(data: string, parse: ParseMode)
    requires parse != ParseAny
    ensures Succeeds(data, parse, PadYes, TermBuffer)
       <==> && Canonical(Stripped(data, Rules(parse, false)))
            && (|Sextets(data)| % 4 == 0 ==> EndsFull(data))
  {
    hide DecodeTable, Sextets, Stripped, Canonical, PlainEnd, PadRun, AfterPads, CharsEnd, EndsFull, NoBitsLeft, Pads;
    var r := Rules(parse, false);
    var e := CharsEnd(data, r);
    var a, p := Stripped(data[..e], r), Stripped(data[e..], r);
    StrippedParts(data, r);
    CanonicalParts(a, p);
    var k := |a| % 4;
    FullHasNoBitsLeft(Sextets(a));
    FullEnds(data);
    if e == |data| {
      assert data[..e] == data;
    }
    if k >= 2 {
      PadsStripped(data, e, 4 - k, r);
      SextetsOfPads(4 - k);
    }
  }

  lemma FullHasNoBitsLeft(s: seq<sextet>)
    ensures |s| % 4 == 0 ==> NoBitsLeft(s)
  {
  }

  lemma FullEnds(data: string)
    ensures EndsFull(data) ==> |Sextets(data)| % 4 == 0
  {
    hide DecodeTable;
  }

  lemma {:induction false} NothingIgnored(s: string, r: Rules)
    requires forall c :: c in s ==> !r.Ignores(c)
    ensures Stripped(s, r) == s
  {
    hide DecodeTable;
    if s != [] {
      NothingIgnored(s[1..], r);
      assert s == [s[0]] + s[1..];
    }
  }

  lemma StrictStripsNothing(data: string)
    ensures Stripped(data, Rules(ParseStrict, false)) == data
  {
    hide DecodeTable;
    NothingIgnored(data, Rules(ParseStrict, false));
  }

  /** In the strictest mode exactly the canonical texts are accepted. */
  lemma StrictVerdict(data: string)
    ensures Succeeds(data, ParseStrict, PadYes, TermBuffer) <==> Canonical(data)
  {
    hide DecodeTable, Sextets, Stripped, Canonical, Succeeds, EndsFull, NoBitsLeft, Pads;
    VerdictOnWholeText(data, ParseStrict);
    StrictStripsNothing(data);
    if Canonical(data) && |Sextets(data)| % 4 == 0 {
      CanonicalFull(data);
    }
  }

  lemma CanonicalFull(data: string)
    requires Canonical(data) && |Sextets(data)| % 4 == 0
    ensures EndsFull(data)
  {
    hide DecodeTable, Sextets, Stripped, Canonical, NoBitsLeft, PlainEnd;
    var r := Rules(ParseStrict, false);
    var e := CharsEnd(data, r);
    StrictStripsNothing(data);
    StrictStripsNothing(data[..e]);
    StrictStripsNothing(data[e..]);
    StrippedParts(data, r);
    CanonicalParts(data[..e], data[e..]);
    if |data[..e]| % 4 >= 2 {
      SextetsOfPads(4 - |data[..e]| % 4);
    }
    assert data == data[..e] + data[e..];
  }

  // Encoded texts under every rule that allows pads.

  lemma {:induction false} PlainEndAt(data: string, i: nat, e: nat, r: Rules)
    requires i <= e <= |data| && AllAlphabet(data[i..e]) && (e == |data| || r.IsPad(data[e]))
    ensures PlainEnd(data, i, r) == e
    decreases e - i
  {
    hide DecodeTable;
    PadIsNoSextet();
    if i < e {
      assert data[i..e][0] == data[i];
      assert data[i + 1..e] == data[i..e][1..];
      PlainEndAt(data, i + 1, e, r);
    }
  }

  lemma {:induction false} PadsAtEnd(data: string, i: nat, n: nat, r: Rules)
    requires i <= |data| && data[i..] == Pads(n) && !r.noPads
    ensures PadRun(data, i, r) == n && AfterPads(data, i, n, r) == |data|
    decreases |data| - i
  {
    if n > 0 {
      assert data[i] == data[i..][0] == '=';
      assert data[i + 1..] == data[i..][1..] == Pads(n - 1);
      PadsAtEnd(data, i + 1, n - 1, r);
    }
  }

  /** A canonical text as its characters and its pads. */
  lemma SplitCanonical(data: string) returns (e: nat)
    requires Canonical(data)
    ensures e <= |data| && AllAlphabet(data[..e]) && Sextets(data) == Sextets(data[..e]) && |Sextets(data)| == e
    ensures (e % 4 == 0 && e == |data|) || (e % 4 >= 2 && data[e..] == Pads(4 - e % 4))
    ensures NoBitsLeft(Sextets(data))
  {
    hide DecodeTable, Sextets, Stripped, Canonical, NoBitsLeft, PlainEnd;
    var r := Rules(ParseStrict, false);
    e := CharsEnd(data, r);
    StrictStripsNothing(data);
    StrictStripsNothing(data[..e]);
    StrictStripsNothing(data[e..]);
    StrippedParts(data, r);
    CanonicalParts(data[..e], data[e..]);
    FullHasNoBitsLeft(Sextets(data[..e]));
    NoSextets();
    if e % 4 >= 2 {
      SextetsOfPads(4 - e % 4);
    }
  }

  /** Whatever the rules, as long as they allow pads, an encoded text decodes to the bytes it encodes, all of it used. */
  lemma EncodedDecodes(x: seq<byte>, parse: ParseMode, pad: PadMode, term: TermMode)
    requires pad != PadNo
    ensures Succeeds(Encode(x), parse, pad, term)
    ensures Used(Encode(x), Rules(parse, false)) == |Encode(x)| && Carried(Sextets(Encode(x))) == x
  {
    hide DecodeTable, Sextets, Canonical, NoBitsLeft, PlainEnd, PadRun, AfterPads, LastEnd, Carried, Encode, Pads;
    var data, r := Encode(x), Rules(parse, false);
    EncodeIsCanonical(x);
    var e := SplitCanonical(data);
    var k := e % 4;
    assert data[0..e] == data[..e];
    if k >= 2 {
      PadsAtEnd(data, e, 4 - k, r);
      PadsBegin(data, e, 4 - k);
    }
    PlainEndAt(data, 0, e, r);
    if parse == ParseAny && k >= 2 {
      assert data[..e][e - 1] == data[e - 1];
      SextetsOfPads(4 - k);
      LastEndAt(data, e);
      assert data[e..e] == [];
      PlainEndAt(data, e, e, r);
    }
    assert CharsEnd(data, r) == e;
    if k == 0 {
      assert data[..e] == data;
      if e > 0 {
        assert data[..e][e - 1] == data[e - 1];
      }
    }
  }

  lemma PadsBegin(data: string, e: nat, n: nat)
    requires e <= |data| && n > 0 && data[e..] == Pads(n)
    ensures e < |data| && data[e] == '='
  {
    assert data[e..][0] == '=';
  }

  /** When every character is tolerated, no alphabet character is left out. */
  lemma TolerantUsesAll(data: string, noPads: bool)
    ensures Sextets(data[..Used(data, Rules(ParseAny, noPads))]) == Sextets(data)
  {
    hide DecodeTable, Sextets, PlainEnd, PadRun, AfterPads, LastEnd;
    var r := Rules(ParseAny, noPads);
    var u := Used(data, r);
    AfterLast(data);
    SextetsFrom(data, u, |data|);
    assert data[..|data|] == data && data[u..|data|] == data[u..];
    if LastEnd(data) <= u {
      assert data[LastEnd(data)..][u - LastEnd(data)..] == data[u..];
      SplitTail(data, LastEnd(data), u);
    }
  }

  lemma SplitTail(data: string, a: nat, b: nat)
    requires a <= b <= |data| && Sextets(data[a..]) == []
    ensures Sextets(data[b..]) == []
  {
    hide Sextets;
    assert data[a..] == data[a..b] + data[b..];
    SextetsConcat(data[a..b], data[b..]);
  }

  lemma WholeTail(data: string, e: nat)
    requires e < |data|
    ensures data[e..|data| - 1 + 1] == data[e..]
  {
  }

  lemma {:induction false} AfterLast(data: string)
    ensures Sextets(data[LastEnd(data)..]) == []
  {
    hide DecodeTable, Sextets;
    NoSextets();
    if data != [] && !InAlphabet(data[|data| - 1]) {
      var n, e := |data| - 1, LastEnd(data);
      AfterLast(data[..n]);
      assert data[..n][e..] == data[e..n];
      SextetsPush(data, e, n);
      WholeTail(data, e);
    } else {
      assert data[LastEnd(data)..] == [];
    }
  }

  /** White space behind an encoded text is accepted exactly when the last group is padded. */
  lemma NewlineAfterEncoded(x: seq<byte>)
    ensures Succeeds(Encode(x) + "\n", ParseWhite, PadYes, TermBuffer) <==> |x| % 3 != 0
  {
    hide Succeeds, Canonical, Stripped, Sextets, DecodeTable, Encode, Carried, NoBitsLeft, Pads;
    var s, r := Encode(x), Rules(ParseWhite, false);
    EncodeIsCanonical(x);
    var e := SplitCanonical(s);
    VerdictOnWholeText(s + "\n", ParseWhite);
    NewlineIgnored(s, e);
    CarriedLength(Sextets(s));
    GroupsOfThree(e, |x|);
    assert (s + "\n")[|s + "\n"| - 1] == '\n';
    NewlineKind();
  }

  lemma NewlineKind()
    ensures !InAlphabet('\n') && Rules(ParseWhite, false).Ignores('\n')
  {
  }

  lemma NewlineIgnored(s: string, e: nat)
    requires e <= |s| && AllAlphabet(s[..e]) && (e == |s| || s[e..] == Pads(|s| - e))
    ensures Stripped(s + "\n", Rules(ParseWhite, false)) == s
    ensures Sextets(s + "\n") == Sextets(s)
  {
    hide Sextets, Stripped, DecodeTable;
    var r := Rules(ParseWhite, false);
    NewlineKind();
    SextetsConcat(s, "\n");
    SextetsOne('\n');
    StrippedConcat(s, "\n", r);
    StrippedOne('\n', r);
    forall c | c in s
      ensures !r.Ignores(c)
    {
      var i :| 0 <= i < |s| && s[i] == c;
      if i < e {
        assert s[..e][i] == c;
      } else {
        assert s[e..][i - e] == c;
      }
    }
    NothingIgnored(s, r);
  }

  lemma GroupsOfThree(e: nat, n: nat)
    requires n == 6 * e / 8 && e % 4 != 1
    ensures n % 3 == 0 <==> e % 4 == 0
  {
    var q, k := e / 4, e % 4;
    assert 6 * e == 8 * (3 * q) + 6 * k;
    assert n == 3 * q + 6 * k / 8;
    Remainder(q, 3, 6 * k / 8);
  }

  // ------------------------------------------------------------------
  // What is used and what succeeds, told from the characters and their bits
  // ------------------------------------------------------------------

  /** The bits of the characters that make no whole byte are all zero. */
  ghost predicate NothingOver(s: seq<sextet>) {
    forall i :: 8 * |Carried(s)| <= i < 6 * |s| ==> !SextetBits(s)[i]
  }

  lemma NothingOverIff(s: seq<sextet>)
    ensures NothingOver(s) <==> NoBitsLeft(s)
  {
    hide SextetBits, WholeBytes, ToBits;
    CarriedLength(s);
    var k := |s| % 4;
    BitsOver(|s|);
    if k > 0 {
      var last := s[|s| - 1];
      LastSextetBits(s);
      LowBitsZero(last, if k == 1 then 6 else if k == 2 then 4 else 2);
      assert forall i :: 6 * |s| - 6 <= i < 6 * |s| ==> SextetBits(s)[i] == ToBits(last, 6)[i - (6 * |s| - 6)];
      assert forall j :: 0 <= j < 6 ==> SextetBits(s)[6 * |s| - 6 + j] == ToBits(last, 6)[j];
    }
  }

  lemma BitsOver(n: nat)
    ensures 6 * n - 8 * (6 * n / 8) == match n % 4 case 0 => 0 case 1 => 6 case 2 => 4 case _ => 2
  {
    var q, k := n / 4, n % 4;
    var d, rest := if k == 3 then 2 else if k == 2 then 1 else 0, match k case 0 => 0 case 1 => 6 case 2 => 4 case _ => 2;
    assert 6 * n == (3 * q + d) * 8 + rest;
    Remainder(3 * q + d, 8, rest);
  }

  lemma LastSextetBits(s: seq<sextet>)
    requires s != []
    ensures SextetBits(s)[6 * |s| - 6..] == ToBits(s[|s| - 1], 6)
  {
    hide ToBits, SextetBits;
    var init, last := s[..|s| - 1], [s[|s| - 1]];
    assert s == init + last;
    SextetBitsConcat(init, last);
    AddSextet(s[|s| - 1], []);
    NoBits();
    assert last == last + [];
  }

  lemma LowBitsZero(v: sextet, n: nat)
    requires n in {2, 4, 6}
    ensures (forall j :: 6 - n <= j < 6 ==> !ToBits(v, 6)[j]) <==> v % (if n == 2 then 4 else if n == 4 then 16 else 64) == 0
  {
    hide ToBits, FromBits, Pow2, Zeros;
    SmallPowers();
    var low := ToBits(v, 6)[6 - n..];
    LowBits(v, 6, n);
    LowBitsModulo(v, n);
    ZeroBits(n);
    ToFromBits(low);
    if forall j :: 6 - n <= j < 6 ==> !ToBits(v, 6)[j] {
      AllFalse(low);
    }
    if FromBits(low) == 0 {
      assert low == Zeros(n);
      AllFalse(Zeros(n));
      ZerosAreFalse(n);
    }
  }

  lemma AllFalse(bits: seq<bool>)
    ensures (forall j :: 0 <= j < |bits| ==> !bits[j]) ==> bits == Zeros(|bits|)
  {
  }

  lemma ZerosAreFalse(n: nat)
    ensures forall j :: 0 <= j < n ==> !Zeros(n)[j]
  {
  }

  /** Alphabet characters, and the pads that complete the last group, if pads are allowed. */
  ghost predicate WellFormed(s: string, r: Rules) {
    AllAlphabet(s) || (!r.noPads && exists n :: Padded(s, n))
  }

  /** The first `n` characters are of the alphabet and pads complete the last group. */
  ghost predicate Padded(s: string, n: nat) {
    n <= |s| && AllAlphabet(s[..n]) && n % 4 >= 2 && s[n..] == Pads(4 - n % 4)
  }

  lemma {:induction false} AfterPadsStripped(data: string, i: nat, n: nat, r: Rules)
    requires i <= |data| && !r.parse.ParseAny? && PadRun(data, i, r) >= n
    ensures var u := AfterPads(data, i, n, r);
            Stripped(data[i..u], r) == Pads(n) && (u < |data| ==> !r.Ignores(data[u]))
    decreases |data| - i
  {
    hide DecodeTable, Stripped;
    PadIsNoSextet();
    var u := AfterPads(data, i, n, r);
    if u == i {
      assert data[i..i] == [];
      NothingStripped(r);
    } else {
      assert data[i..u] == [data[i]] + data[i + 1..u];
      StrippedConcat([data[i]], data[i + 1..u], r);
      StrippedOne(data[i], r);
      if r.Ignores(data[i]) {
        AfterPadsStripped(data, i + 1, n, r);
      } else {
        AfterPadsStripped(data, i + 1, n - 1, r);
        PadsFront(n, Pads(n - 1));
      }
    }
  }

  lemma {:induction false} PadRunOfPrefix(data: string, v: nat, i: nat, r: Rules)
    requires i <= v <= |data|
    ensures PadRun(data[..v], i, r) <= PadRun(data, i, r)
    decreases v - i
  {
    hide DecodeTable;
    if i < v {
      assert data[..v][i] == data[i];
      PadRunOfPrefix(data, v, i + 1, r);
    }
  }

  /** Where pads begin, the number of characters is settled. */
  lemma PaddedWhere(a: string, p: string, n: nat)
    requires AllAlphabet(a) && p != [] && !InAlphabet(p[0]) && Padded(a + p, n)
    ensures n == |a| && p == Pads(4 - n % 4)
  {
    hide DecodeTable, AllAlphabet, Pads;
    PadIsNoSextet();
    var s := a + p;
    if n > |a| {
      AlphabetAt(s[..n], |a|);
    } else {
      PadsBegin(s, n, 4 - n % 4);
      if n < |a| {
        AlphabetAt(a, n);
      }
    }
    assert s[|a|..] == p;
  }

  lemma AlphabetAt(s: string, i: nat)
    requires AllAlphabet(s) && i < |s|
    ensures InAlphabet(s[i])
  {
  }

  /** A prefix of the text beyond the characters: stripped, it is the characters and something else. */
  lemma PrefixStripped(data: string, r: Rules, v: nat)
    requires !r.parse.ParseAny? && CharsEnd(data, r) < v <= |data|
    ensures var e := CharsEnd(data, r);
            var a, q := Stripped(data[..e], r), Stripped(data[e..v], r);
            && Stripped(data[..v], r) == a + q && AllAlphabet(a) && q != [] && q[0] == data[e] && !InAlphabet(q[0])
            && |a| == |Sextets(data[..e])|
  {
    hide DecodeTable, Sextets, Stripped, PlainEnd;
    var e := CharsEnd(data, r);
    assert data[..v] == data[..e] + data[e..v];
    StrippedConcat(data[..e], data[e..v], r);
    StrippedParts(data, r);
    SextetsOfAlphabet(Stripped(data[..e], r));
    assert data[e..v] == [data[e]] + data[e + 1..v];
    StrippedConcat([data[e]], data[e + 1..v], r);
    StrippedOne(data[e], r);
    StrippedStep(data, e, r);
    PlainEndStops(data, 0, r);
  }

  /**
   Unless everything is tolerated, what is used is the longest prefix that,
   without the ignored characters, is of the alphabet and completely padded or
   not at all.
   */
  lemma UsedIsLongest(data: string, r: Rules)
    requires !r.parse.ParseAny?
    ensures WellFormed(Stripped(data[..Used(data, r)], r), r)
    ensures forall v :: Used(data, r) < v <= |data| ==> !WellFormed(Stripped(data[..v], r), r)
  {
    hide DecodeTable, Sextets, Stripped, CharsEnd, PlainEnd, PadRun, AfterPads, WellFormed, Pads;
    UsedWellFormed(data, r);
    forall v | Used(data, r) < v <= |data|
      ensures !WellFormed(Stripped(data[..v], r), r)
    {
      MoreIsIllFormed(data, r, v);
    }
  }

  /** The used part without ignored characters: the characters, and their pads if there are enough. */
  lemma UsedStripped(data: string, r: Rules)
    requires !r.parse.ParseAny?
    ensures var a := Stripped(data[..CharsEnd(data, r)], r);
            && AllAlphabet(a) && |a| == |Sextets(a)| && Sextets(a) == Sextets(data[..CharsEnd(data, r)])
            && Stripped(data[..Used(data, r)], r) == a + (if IsPadded(data, r) then Pads(4 - |a| % 4) else [])
            && (IsPadded(data, r) ==> !r.noPads && |a| % 4 >= 2)
  {
    hide DecodeTable, Sextets, Stripped, CharsEnd, PlainEnd, AfterPads, Pads;
    var e, u := CharsEnd(data, r), Used(data, r);
    StrippedParts(data, r);
    SextetsOfAlphabet(Stripped(data[..e], r));
    if IsPadded(data, r) {
      AfterPadsStripped(data, e, 4 - LastGroup(data, r), r);
      assert data[..u] == data[..e] + data[e..u];
      StrippedConcat(data[..e], data[e..u], r);
      PadsAllowed(data, e, r);
    }
  }

  lemma {:induction false} PadsAllowed(data: string, i: nat, r: Rules)
    requires i <= |data| && PadRun(data, i, r) > 0
    ensures !r.noPads
    decreases |data| - i
  {
    hide DecodeTable;
    if !r.IsPad(data[i]) {
      PadsAllowed(data, i + 1, r);
    }
  }

  lemma UsedWellFormed(data: string, r: Rules)
    requires !r.parse.ParseAny?
    ensures WellFormed(Stripped(data[..Used(data, r)], r), r)
  {
    hide DecodeTable, Sextets, Stripped, CharsEnd, PlainEnd, AfterPads, Pads, Used, IsPadded;
    UsedStripped(data, r);
    var a, s := Stripped(data[..CharsEnd(data, r)], r), Stripped(data[..Used(data, r)], r);
    if IsPadded(data, r) {
      assert s[..|a|] == a && s[|a|..] == Pads(4 - |a| % 4);
      assert Padded(s, |a|);
    }
  }

  lemma MoreIsIllFormed(data: string, r: Rules, v: nat)
    requires !r.parse.ParseAny? && Used(data, r) < v <= |data|
    ensures !WellFormed(Stripped(data[..v], r), r)
  {
    hide DecodeTable, Sextets, Stripped, CharsEnd, PlainEnd, PadRun, AfterPads, Pads;
    var e := CharsEnd(data, r);
    PrefixStripped(data, r, v);
    var a, q := Stripped(data[..e], r), Stripped(data[e..v], r);
    assert !AllAlphabet(a + q) by { assert (a + q)[|a|] == q[0]; }
    forall n: nat | Padded(a + q, n) && !r.noPads
      ensures false
    {
      PaddedWhere(a, q, n);
      PadsTooMany(data, r, v);
    }
  }

  lemma PadsTooMany(data: string, r: Rules, v: nat)
    requires !r.parse.ParseAny? && !r.noPads && LastGroup(data, r) >= 2
    requires CharsEnd(data, r) < v <= |data| && Used(data, r) < v
    ensures Stripped(data[CharsEnd(data, r)..v], r) != Pads(4 - LastGroup(data, r))
  {
    hide DecodeTable, Sextets, Stripped, CharsEnd, PlainEnd, PadRun, AfterPads, Pads;
    var e, n := CharsEnd(data, r), 4 - LastGroup(data, r);
    if Stripped(data[e..v], r) == Pads(n) {
      var d := data[..v];
      assert d[e..] == data[e..v];
      PadsStripped(d, e, n, r);
      PadRunOfPrefix(data, v, e, r);
      var u := Used(data, r);
      AfterPadsStripped(data, e, n, r);
      assert data[e..v] == data[e..u] + data[u..v];
      assert data[u..v] == [data[u]] + data[u + 1..v];
      StrippedConcat(data[e..u], data[u..v], r);
      StrippedConcat([data[u]], data[u + 1..v], r);
      StrippedOne(data[u], r);
      assert false;
    }
  }

  /**
   Unless everything is tolerated, the verdict from the used part: no bits over,
   nothing unused, and full groups, as far as they are asked for.  With padding
   required a final full group must end the text.
   */
  lemma VerdictOnUsed(data: string, parse: ParseMode, pad: PadMode, term: TermMode)
    requires parse != ParseAny
    ensures var r := Rules(parse, pad == PadNo);
            var u := Used(data, r);
            var s := Stripped(data[..u], r);
            Succeeds(data, parse, pad, term) <==>
              && (term != TermAny ==> NothingOver(Sextets(s)))
              && (term == TermBuffer ==> u == |data|)
              && (pad == PadYes ==> |s| % 4 == 0 && (|Sextets(s)| % 4 == 0 ==> u == |data| && EndsFull(data)))
  {
    hide DecodeTable, Sextets, Stripped, CharsEnd, PlainEnd, PadRun, AfterPads, Pads, NothingOver, NoBitsLeft;
    var r := Rules(parse, pad == PadNo);
    var e, u := CharsEnd(data, r), Used(data, r);
    var a, s := Stripped(data[..e], r), Stripped(data[..u], r);
    UsedStripped(data, r);
    SextetsConcat(a, if IsPadded(data, r) then Pads(4 - |a| % 4) else []);
    SextetsOfPads(4 - |a| % 4);
    NoSextets();
    assert Sextets(s) == Sextets(a);
    NothingOverIff(Sextets(s));
    FullEnds(data);
    if e == |data| {
      assert data[..e] == data;
    }
  }

  /** With the whole text to be used and padding optional or forbidden: well formed without what is ignored, and no bits over. */
  lemma VerdictWithoutPads(data: string, parse: ParseMode, pad: PadMode)
    requires parse != ParseAny && pad != PadYes
    ensures var r := Rules(parse, pad == PadNo);
            Succeeds(data, parse, pad, TermBuffer) <==> WellFormed(Stripped(data, r), r) && NothingOver(Sextets(data))
  {
    hide DecodeTable, Sextets, Stripped, Succeeds, Used, WellFormed, NothingOver;
    var r := Rules(parse, pad == PadNo);
    var u := Used(data, r);
    VerdictOnUsed(data, parse, pad, TermBuffer);
    UsedIsLongest(data, r);
    assert data[..|data|] == data;
    SextetsOfStripped(data, r);
  }

  // When everything is tolerated.

  /** Behind the last alphabet character only pads are left. */
  lemma {:induction false} TolerantTail(data: string, r: Rules, i: nat)
    requires r.parse.ParseAny? && i <= |data| && Sextets(data[i..]) == []
    ensures Stripped(data[i..], r) == Pads(PadRun(data, i, r))
    ensures PlainEnd(data, i, r) < |data| <==> PadRun(data, i, r) > 0
    ensures PadRun(data, PlainEnd(data, i, r), r) == PadRun(data, i, r)
    ensures forall n :: 0 <= n <= PadRun(data, i, r) ==> AfterPads(data, i, n, r) == |data|
    decreases |data| - i
  {
    hide DecodeTable, Sextets, Stripped;
    PadIsNoSextet();
    if i == |data| {
      assert data[i..] == [];
      NothingStripped(r);
      assert Pads(0) == [];
    } else {
      StrippedStep(data, i, r);
      NotASextet(data, i);
      TolerantTail(data, r, i + 1);
      if r.IsPad(data[i]) {
        PadsFront(PadRun(data, i, r), Pads(PadRun(data, i + 1, r)));
      }
    }
  }

  lemma NotASextet(data: string, i: nat)
    requires i < |data| && Sextets(data[i..]) == []
    ensures !InAlphabet(data[i]) && Sextets(data[i + 1..]) == []
  {
    assert data[i..][1..] == data[i + 1..];
  }

  /**
   When everything is tolerated, all of the text is used, except that a single
   pad after a last group of two characters is given back; and the verdict asks
   for no bits over, nothing given back and complete pads, as the modes say.
   `last` is the end of the last alphabet character.
   */
  lemma TolerantVerdict(data: string, pad: PadMode, term: TermMode, last: nat)
    requires last <= |data| && Sextets(data[last..]) == [] && (last == 0 || InAlphabet(data[last - 1]))
    ensures var r := Rules(ParseAny, pad == PadNo);
            var k, pads := |Sextets(data)| % 4, |Stripped(data[last..], r)|;
            && (Used(data, r) == |data| <==> !(k == 2 && pads == 1))
            && (Used(data, r) < |data| ==> last <= Used(data, r) && data[Used(data, r)] == '=')
            && (Succeeds(data, ParseAny, pad, term) <==>
                  && (term != TermAny ==> NothingOver(Sextets(data)))
                  && (term == TermBuffer ==> !(k == 2 && pads == 1))
                  && (pad == PadYes ==> (k >= 2 && pads >= 4 - k) || EndsFull(data)))
  {
    hide DecodeTable, Sextets, Stripped, PlainEnd, PadRun, AfterPads, Pads, NothingOver, NoBitsLeft, LastEnd;
    var r := Rules(ParseAny, pad == PadNo);
    var e := CharsEnd(data, r);
    TolerantTail(data, r, last);
    NothingOverIff(Sextets(data));
    FullEnds(data);
    assert data[0..] == data;
    if |Sextets(data)| % 4 < 2 {
      assert data[..e] == data;
    } else {
      if last > 0 {
        LastEndAt(data, last);
      }
      SplitTail(data, last, e);
      TolerantTail(data, r, e);
      SextetsFrom(data, e, |data|);
      assert data[..|data|] == data && data[e..|data|] == data[e..];
      assert Sextets(data[..e]) == Sextets(data);
      PlainEndStops(data, last, r);
      if e < |data| {
        NotASextet(data, e);
      }
    }
  }

  /** The lax mode takes every text whose characters leave no bits over. */
  lemma LaxVerdict(data: string)
    ensures Succeeds(data, ParseAny, PadAny, TermChar) <==> NothingOver(Sextets(data))
  {
    hide Succeeds, Used, Stripped, Sextets, DecodeTable, NothingOver;
    AfterLast(data);
    LastIsAlphabet(data);
    TolerantVerdict(data, PadAny, TermChar, LastEnd(data));
  }

  lemma {:induction false} LastIsAlphabet(data: string)
    ensures LastEnd(data) == 0 || InAlphabet(data[LastEnd(data) - 1])
  {
    hide DecodeTable;
    if data != [] && !InAlphabet(data[|data| - 1]) {
      LastIsAlphabet(data[..|data| - 1]);
    }
  }
}

/**
 The Base64 decoder of webrtc/base/base64.cc.  It reads under one of 27
 combinations of rules: which characters it tolerates, what padding it wants,
 and how the text must end.  The reference says for all of them, without groups
 or a scan, how much of a text is used and whether decoding succeeds.
 */
module Base64Decoder {
  import opened Arith
  import opened Bytes
  import opened Base64

  datatype ParseMode = ParseStrict | ParseWhite | ParseAny
  datatype PadMode = PadYes | PadAny | PadNo
  datatype TermMode = TermBuffer | TermChar | TermAny

  // ------------------------------------------------------------------
  // Reference: what is used and what succeeds
  // ------------------------------------------------------------------

  datatype Rules = Rules(parse: ParseMode, noPads: bool) {
    predicate IsPad(c: char) {
      c == '=' && !noPads
    }

    /** A character that is skipped wherever it stands. */
    predicate Ignores(c: char) {
      && !InAlphabet(c) && !IsPad(c)
      && match parse
         case ParseStrict => false
         case ParseWhite => DecodeTable(c) == WHITESPACE
         case ParseAny => true
    }

    predicate IsPlain(c: char) {
      InAlphabet(c) || Ignores(c)
    }
  }

  /** Where, from `i` on, the characters cease to be of the alphabet or ignored. */
  function PlainEnd(data: string, i: nat, r: Rules): (e: nat)
    requires i <= |data|
    ensures i <= e <= |data|
    decreases |data| - i
  {
    if i < |data| && r.IsPlain(data[i]) then PlainEnd(data, i + 1, r) else i
  }

  /** The number of pads from `i` on, with only ignored characters between them. */
  function PadRun(data: string, i: nat, r: Rules): nat
    requires i <= |data|
    decreases |data| - i
  {
    if i < |data| && r.IsPad(data[i]) then 1 + PadRun(data, i + 1, r)
    else if i < |data| && r.Ignores(data[i]) then PadRun(data, i + 1, r)
    else 0
  }

  /** The end of `n` pads from `i` on and of the ignored characters after them, further pads included if all is tolerated. */
  function AfterPads(data: string, i: nat, n: nat, r: Rules): (e: nat)
    requires i <= |data|
    ensures i <= e <= |data|
    decreases |data| - i
  {
    if i < |data| && r.IsPad(data[i]) && (n > 0 || r.parse.ParseAny?) then
      AfterPads(data, i + 1, if n > 0 then n - 1 else 0, r)
    else if i < |data| && r.Ignores(data[i]) then AfterPads(data, i + 1, n, r)
    else i
  }

  /** The position after the last alphabet character. */
  function LastEnd(data: string): (e: nat)
    ensures e <= |data|
  {
    if data == [] then 0 else if InAlphabet(data[|data| - 1]) then |data| else LastEnd(data[..|data| - 1])
  }

  /** The part of the text before the padding, or before the character that ends decoding. */
  function CharsEnd(data: string, r: Rules): (e: nat)
    ensures e <= |data|
  {
    if !r.parse.ParseAny? then PlainEnd(data, 0, r)
    else if |Sextets(data)| % 4 < 2 then |data|
    else PlainEnd(data, LastEnd(data), r)
  }

  /** The number of characters in the last, incomplete group. */
  function LastGroup(data: string, r: Rules): nat {
    |Sextets(data[..CharsEnd(data, r)])| % 4
  }

  /** The last group is one of two or three characters and padded to four. */
  predicate IsPadded(data: string, r: Rules) {
    LastGroup(data, r) >= 2 && PadRun(data, CharsEnd(data, r), r) >= 4 - LastGroup(data, r)
  }

  function Used(data: string, r: Rules): (n: nat)
    ensures n <= |data|
  {
    if IsPadded(data, r) then AfterPads(data, CharsEnd(data, r), 4 - LastGroup(data, r), r) else CharsEnd(data, r)
  }

  /** The bits of the last character that belong to no whole byte are zero. */
  predicate NoBitsLeft(s: seq<sextet>) {
    match |s| % 4
    case 0 => true
    case 1 => s[|s| - 1] == 0
    case 2 => s[|s| - 1] % 16 == 0
    case _ => s[|s| - 1] % 4 == 0
  }

  /** Full groups only, and the text ends with the last of their characters. */
  predicate EndsFull(data: string) {
    data == [] || (|Sextets(data)| % 4 == 0 && InAlphabet(data[|data| - 1]))
  }

  /** When decoding reports success. */
  predicate Succeeds(data: string, parse: ParseMode, pad: PadMode, term: TermMode) {
    var r := Rules(parse, pad == PadNo);
    var e := CharsEnd(data, r);
    && (term == TermAny || NoBitsLeft(Sextets(data[..e])))
    && (pad == PadYes ==> IsPadded(data, r) || (e == |data| && EndsFull(data)))
    && (term == TermBuffer ==> Used(data, r) == |data|)
  }

  // ------------------------------------------------------------------
  // One group
  // ------------------------------------------------------------------

  /**
   The scan for one group has passed `start..dpos`: `byteLen` alphabet characters,
   the last of them before `la`, and since then `padLen` pads, the first of them
   at `padStart`.
   */
  ghost predicate Scanned(data: string, r: Rules, start: nat, la: nat, dpos: nat,
                          byteLen: nat, padLen: nat, padStart: nat)
  {
    && start <= la <= dpos <= |data| && byteLen + padLen <= 4
    && (if byteLen == 0 then la == start else start < la && InAlphabet(data[la - 1]))
    && (byteLen == 4 ==> la == dpos)
    && Sextets(data[la..dpos]) == []
    && (!r.parse.ParseAny? ==> PlainEnd(data, start, r) == PlainEnd(data, la, r))
    && (if padLen > 0 then PadsScanned(data, r, la, dpos, byteLen, padLen, padStart)
        else !r.parse.ParseAny? || byteLen >= 2 ==> PlainEnd(data, la, r) == PlainEnd(data, dpos, r))
  }

  ghost predicate PadsScanned(data: string, r: Rules, la: nat, dpos: nat, byteLen: nat, padLen: nat, padStart: nat)
    requires la <= dpos <= |data| && byteLen + padLen <= 4
  {
    && 2 <= byteLen && la <= padStart <= dpos && padStart == PlainEnd(data, la, r)
    && (if byteLen + padLen < 4 then PadRun(data, padStart, r) == padLen + PadRun(data, dpos, r)
        else PadRun(data, padStart, r) >= padLen)
    && AfterPads(data, padStart, 4 - byteLen, r) == AfterPads(data, dpos, 4 - byteLen - padLen, r)
  }

  lemma ScanStart(data: string, r: Rules, start: nat)
    requires start <= |data|
    ensures Scanned(data, r, start, start, start, 0, 0, start)
    ensures Sextets(data[start..start]) == []
  {
    assert data[start..start] == [];
    NoSextets();
  }

  lemma PassedNoSextet(data: string, la: nat, dpos: nat)
    requires la <= dpos < |data| && !InAlphabet(data[dpos]) && Sextets(data[la..dpos]) == []
    ensures Sextets(data[la..dpos + 1]) == []
  {
    hide Sextets, DecodeTable;
    SextetsPush(data, la, dpos);
  }

  /** What the next character does to a scan. */
  lemma ScanIgnores(data: string, r: Rules, start: nat, la: nat, dpos: nat, byteLen: nat, padLen: nat, padStart: nat)
    requires Scanned(data, r, start, la, dpos, byteLen, padLen, padStart) && byteLen < 4
    requires dpos < |data| && r.Ignores(data[dpos])
    ensures Scanned(data, r, start, la, dpos + 1, byteLen, padLen, padStart)
  {
    hide Sextets, DecodeTable;
    PassedNoSextet(data, la, dpos);
  }

  lemma ScanTakes(data: string, r: Rules, start: nat, la: nat, dpos: nat, byteLen: nat, padLen: nat, padStart: nat)
    requires Scanned(data, r, start, la, dpos, byteLen, padLen, padStart) && byteLen < 4
    requires dpos < |data| && InAlphabet(data[dpos]) && (padLen == 0 || r.parse.ParseAny?)
    ensures Scanned(data, r, start, dpos + 1, dpos + 1, byteLen + 1, 0, padStart)
  {
    hide Sextets, DecodeTable;
    assert data[dpos + 1..dpos + 1] == [];
    NoSextets();
  }

  lemma ScanCountsPad(data: string, r: Rules, start: nat, la: nat, dpos: nat, byteLen: nat, padLen: nat, padStart: nat)
    requires Scanned(data, r, start, la, dpos, byteLen, padLen, padStart)
    requires dpos < |data| && r.IsPad(data[dpos]) && 2 <= byteLen && byteLen + padLen < 4
    ensures Scanned(data, r, start, la, dpos + 1, byteLen, padLen + 1, if padLen == 0 then dpos else padStart)
  {
    hide Sextets;
    PadIsNoSextet();
    PassedNoSextet(data, la, dpos);
  }

  lemma ScanDropsPad(data: string, r: Rules, start: nat, la: nat, dpos: nat, byteLen: nat, padLen: nat, padStart: nat)
    requires Scanned(data, r, start, la, dpos, byteLen, padLen, padStart) && byteLen < 4
    requires dpos < |data| && r.IsPad(data[dpos]) && r.parse.ParseAny? && (byteLen < 2 || byteLen + padLen >= 4)
    ensures Scanned(data, r, start, la, dpos + 1, byteLen, padLen, padStart)
  {
    hide Sextets;
    PadIsNoSextet();
    PassedNoSextet(data, la, dpos);
  }

  /** The character can neither continue a group of `byteLen` characters and `padLen` pads nor be ignored. */
  predicate Refused(c: char, r: Rules, byteLen: nat, padLen: nat) {
    && !r.parse.ParseAny? && !r.Ignores(c)
    && (InAlphabet(c) ==> padLen > 0)
    && (r.IsPad(c) ==> byteLen < 2 || byteLen + padLen >= 4)
  }

  lemma Kinds(c: char)
    ensures DecodeTable(c) < 64 ==> SextetOf(c) == [DecodeTable(c)]
    ensures DecodeTable(c) >= 64 ==> SextetOf(c) == []
    ensures DecodeTable(c) == PADDING <==> c == '='
    ensures DecodeTable(c) < 64 || DecodeTable(c) in {PADDING, WHITESPACE, ILLEGAL}
  {
  }

  /** The scanning loop of GetNextQuantum: reads up to four sextets and the pads after them. */
  method ScanGroup(parse: ParseMode, illegalPads: bool, data: string, start: nat, qbuf: array<byte>)
      returns (byteLen: nat, padLen: nat, padStart: nat, dpos: nat, stopped: bool, ghost la: nat)
    requires start <= |data| && qbuf.Length == 4
    modifies qbuf
    ensures start + byteLen <= dpos <= |data| && byteLen + padLen <= 4
    ensures forall i :: 0 <= i < byteLen ==> qbuf[i] < 64
    ensures qbuf[..byteLen] == Sextets(data[start..dpos])
    ensures Scanned(data, Rules(parse, illegalPads), start, la, dpos, byteLen, padLen, padStart)
    ensures if stopped then dpos < |data| && byteLen < 4 && Refused(data[dpos], Rules(parse, illegalPads), byteLen, padLen)
            else byteLen == 4 || dpos == |data|
  {
    hide DecodeTable, Sextets, SextetOf, Scanned;
    ghost var r := Rules(parse, illegalPads);
    byteLen, dpos, padLen, padStart, stopped, la := 0, start, 0, start, false, start;
    ScanStart(data, r, start);
    while !stopped && byteLen < 4 && dpos < |data|
      invariant start + byteLen <= dpos <= |data| && byteLen + padLen <= 4
      invariant forall i :: 0 <= i < byteLen ==> qbuf[i] < 64
      invariant qbuf[..byteLen] == Sextets(data[start..dpos])
      invariant Scanned(data, r, start, la, dpos, byteLen, padLen, padStart)
      invariant stopped ==> dpos < |data| && byteLen < 4 && Refused(data[dpos], r, byteLen, padLen)
      decreases |data| - dpos, !stopped
    {
      var d := DecodeTable(data[dpos]);
      Kinds(data[dpos]);
      SextetsPush(data, start, dpos);
      Store(qbuf, byteLen, d);
      if d == ILLEGAL || (illegalPads && d == PADDING) {
        if parse != ParseAny {
          stopped := true;
        } else {
          ScanIgnores(data, r, start, la, dpos, byteLen, padLen, padStart);
        }
      } else if d == WHITESPACE {
        if parse == ParseStrict {
          stopped := true;
        } else {
          ScanIgnores(data, r, start, la, dpos, byteLen, padLen, padStart);
        }
      } else if d == PADDING {
        if byteLen < 2 || byteLen + padLen >= 4 {
          if parse != ParseAny {
            stopped := true;
          } else {
            ScanDropsPad(data, r, start, la, dpos, byteLen, padLen, padStart);
          }
        } else {
          ScanCountsPad(data, r, start, la, dpos, byteLen, padLen, padStart);
          padLen := padLen + 1;
          if padLen == 1 {
            padStart := dpos;
          }
        }
      } else if padLen > 0 && parse != ParseAny {
        stopped := true;
      } else {
        ScanTakes(data, r, start, la, dpos, byteLen, padLen, padStart);
        padLen := 0;
        byteLen := byteLen + 1;
        la := dpos + 1;
      }
      if !stopped {
        dpos := dpos + 1;
      }
    }
  }

  method Store(qbuf: array<byte>, i: nat, d: byte)
    requires i < qbuf.Length
    modifies qbuf
    ensures qbuf[i] == d && qbuf[..i] == old(qbuf[..i]) && qbuf[..i + 1] == old(qbuf[..i]) + [d]
    ensures forall k :: 0 <= k < qbuf.Length && k != i ==> qbuf[k] == old(qbuf[k])
  {
    qbuf[i] := d;
  }

  /** Where the characters of a last group of `n`, read from `start` on, end. */
  function GroupEnd(data: string, r: Rules, start: nat, la: nat, n: nat): (e: nat)
    requires start <= la <= |data|
    ensures e <= |data|
  {
    if !r.parse.ParseAny? then PlainEnd(data, start, r) else if n < 2 then |data| else PlainEnd(data, la, r)
  }

  /** A last group of `n` characters was read from `start` on, up to `dpos`. */
  ghost predicate LastGroupRead(data: string, r: Rules, start: nat, la: nat, n: nat, dpos: nat, padded: bool)
    requires start <= la <= |data|
  {
    var e := GroupEnd(data, r, start, la, n);
    && n < 4 && la <= e
    && (if n == 0 then la == start else start < la && InAlphabet(data[la - 1]))
    && (r.parse.ParseAny? ==> Sextets(data[la..]) == [])
    && (padded <==> n >= 2 && PadRun(data, e, r) >= 4 - n)
    && dpos == (if padded then AfterPads(data, e, 4 - n, r) else e)
    && dpos <= |data| && start <= dpos
    && Sextets(data[start..e]) == Sextets(data[start..dpos])
  }

  lemma GroupRead(data: string, r: Rules, start: nat, la: nat, dpos: nat, n: nat, padLen: nat, padStart: nat)
    requires n < 4 && Scanned(data, r, start, la, dpos, n, padLen, padStart)
    requires dpos == |data| || Refused(data[dpos], r, n, padLen)
    ensures var padded := n + padLen == 4;
            LastGroupRead(data, r, start, la, n, if padLen > 0 && !padded then padStart else dpos, padded)
  {
    hide Sextets, DecodeTable;
    PadIsNoSextet();
    if padLen > 0 {
      SextetsSplit(data, la, padStart, dpos);
      SextetsSplit(data, start, padStart, dpos);
    }
    if dpos == |data| {
      assert data[la..dpos] == data[la..];
    }
  }

  /**
   Collects up to four sextets into `qbuf`, starting at `start`.  Pads that do
   not complete a group are given back.
   */
  method GetNextQuantum(parse: ParseMode, illegalPads: bool, data: string, start: nat, qbuf: array<byte>)
      returns (byteLen: nat, dpos: nat, padded: bool, ghost la: nat)
    requires start <= |data| && qbuf.Length == 4
    modifies qbuf
    ensures start <= dpos <= |data| && byteLen <= 4 && start <= la <= |data|
    ensures forall i :: 0 <= i < 4 ==> qbuf[i] < 64 && (i >= byteLen ==> qbuf[i] == 0)
    ensures qbuf[..byteLen] == Sextets(data[start..dpos])
    ensures var r := Rules(parse, illegalPads);
            if byteLen < 4 then LastGroupRead(data, r, start, la, byteLen, dpos, padded)
            else start + 4 <= dpos && InAlphabet(data[dpos - 1])
                 && (parse != ParseAny ==> PlainEnd(data, start, r) == PlainEnd(data, dpos, r))
  {
    hide Sextets, DecodeTable, LastGroupRead, Refused;
    ghost var r := Rules(parse, illegalPads);
    var padLen, padStart, stopped;
    byteLen, padLen, padStart, dpos, stopped, la := ScanGroup(parse, illegalPads, data, start, qbuf);
    if byteLen < 4 {
      GroupRead(data, r, start, la, dpos, byteLen, padLen, padStart);
    }
    var i := byteLen;
    while i < 4
      invariant byteLen <= i <= 4
      invariant forall k :: 0 <= k < byteLen ==> qbuf[k] < 64
      invariant qbuf[..byteLen] == Sextets(data[start..dpos])
      invariant forall k :: byteLen <= k < i ==> qbuf[k] == 0
    {
      qbuf[i] := 0;
      i := i + 1;
    }
    if byteLen + padLen == 4 {
      padded := true;
    } else {
      padded := false;
      if padLen > 0 {
        SextetsSplit(data, la, padStart, dpos);
        SextetsSplit(data, start, padStart, dpos);
        dpos := padStart;
      }
    }
  }

  // ------------------------------------------------------------------
  // The whole text
  // ------------------------------------------------------------------

  /** The bytes pushed for a group of `n` sextets. */
  function GroupBytes(q: seq<sextet>, n: nat): seq<byte>
    requires |q| == 4 && n <= 4
  {
    if n < 2 then []
    else if n == 2 then [Byte0(q[0], q[1])]
    else if n == 3 then [Byte0(q[0], q[1]), Byte1(q[1], q[2])]
    else [Byte0(q[0], q[1]), Byte1(q[1], q[2]), Byte2(q[2], q[3])]
  }

  /** What is left over after pushing them. */
  function Leftover(q: seq<sextet>, n: nat): byte
    requires |q| == 4 && n <= 4
  {
    if n < 2 then Byte0(q[0], q[1]) else if n == 2 then Byte1(q[1], q[2]) else if n == 3 then Byte2(q[2], q[3]) else 0
  }

  /** The decoding loop extends the carried bytes by those of one more group. */
  lemma GroupCarried(data: string, start: nat, dpos: nat, q: seq<sextet>, n: nat)
    requires start <= dpos <= |data| && |q| == 4 && n <= 4 && q[..n] == Sextets(data[start..dpos])
    requires |Sextets(data[..start])| % 4 == 0
    ensures Carried(Sextets(data[..dpos])) == Carried(Sextets(data[..start])) + GroupBytes(q, n)
    ensures |Sextets(data[..dpos])| == |Sextets(data[..start])| + n
  {
    hide Sextets, Carried, Byte0, Byte1, Byte2;
    assert data[..start] + data[start..dpos] == data[..dpos];
    SextetsConcat(data[..start], data[start..dpos]);
    CarriedConcat(Sextets(data[..start]), q[..n]);
    QuantumBytes(q[0], q[1], q[2], q[3]);
    assert q == [q[0], q[1], q[2], q[3]];
    if n == 0 {
      assert q[..0] == [];
      assert Carried([]) == [] by { NoneCarried(); }
    } else if n == 1 {
      assert q[..1] == [q[0]];
    } else if n == 2 {
      assert q[..2] == [q[0], q[1]];
    } else if n == 3 {
      assert q[..3] == [q[0], q[1], q[2]];
    } else {
      assert q[..4] == q;
    }
  }

  lemma NoneCarried()
    ensures Carried([]) == []
  {
  }

  lemma {:induction false} LastEndAt(data: string, la: nat)
    requires 0 < la <= |data| && InAlphabet(data[la - 1]) && Sextets(data[la..]) == []
    ensures LastEnd(data) == la
  {
    hide DecodeTable, Sextets;
    if la < |data| {
      var n := |data| - 1;
      assert data[la..n + 1] == data[la..];
      SextetsPush(data, la, n);
      assert data[..n][la..] == data[la..n];
      LastEndAt(data[..n], la);
    }
  }

  /** The reference in terms of the last group read. */
  lemma FinalGroup(data: string, r: Rules, start: nat, la: nat, n: nat, dpos: nat, padded: bool)
    requires start < |data| && start <= la <= |data| && LastGroupRead(data, r, start, la, n, dpos, padded)
    requires |Sextets(data[..start])| % 4 == 0 && |Sextets(data[start..dpos])| == n
    requires !r.parse.ParseAny? ==> PlainEnd(data, 0, r) == PlainEnd(data, start, r)
    ensures var e := CharsEnd(data, r);
            && start <= e && Sextets(data[..e]) == Sextets(data[..start]) + Sextets(data[start..dpos])
            && LastGroup(data, r) == n && IsPadded(data, r) == padded && Used(data, r) == dpos
            && !(e == |data| && EndsFull(data))
  {
    hide Sextets, DecodeTable, PlainEnd, PadRun, AfterPads, LastEnd;
    var e := GroupEnd(data, r, start, la, n);
    SextetsFrom(data, start, e);
    SextetsFrom(data, start, |data|);
    assert data[..|data|] == data;
    if r.parse.ParseAny? {
      SextetsSplit(data, start, la, |data|);
      SextetsSplit(data, start, la, e);
      NothingBetween(data, la, e);
      assert data[la..|data|] == data[la..];
      if n > 0 {
        LastEndAt(data, la);
      }
    }
    assert CharsEnd(data, r) == e;
    if e == |data| && EndsFull(data) {
      LastOfRange(data, start);
    }
  }

  lemma SextetsFrom(data: string, start: nat, e: nat)
    requires start <= e <= |data|
    ensures Sextets(data[..e]) == Sextets(data[..start]) + Sextets(data[start..e])
  {
    hide Sextets;
    assert data[..e] == data[..start] + data[start..e];
    SextetsConcat(data[..start], data[start..e]);
  }

  lemma NothingBetween(data: string, la: nat, e: nat)
    requires la <= e <= |data| && Sextets(data[la..]) == []
    ensures Sextets(data[la..e]) == []
  {
    hide Sextets;
    assert data[la..] == data[la..e] + data[e..];
    SextetsConcat(data[la..e], data[e..]);
  }

  lemma LastOfRange(data: string, start: nat)
    requires start < |data| && InAlphabet(data[|data| - 1])
    ensures |Sextets(data[start..|data|])| > 0
  {
    hide Sextets, DecodeTable;
    SextetsPush(data, start, |data| - 1);
  }

  /** What the shifts leave over of a last group is zero exactly when no bit is unused. */
  lemma LeftoverBits(before: seq<sextet>, q: seq<sextet>, n: nat)
    requires |before| % 4 == 0 && |q| == 4 && n < 4 && forall i :: n <= i < 4 ==> q[i] == 0
    ensures Leftover(q, n) == 0 <==> NoBitsLeft(before + q[..n])
  {
    hide Byte0, Byte1, Byte2;
    var s := before + q[..n];
    Remainder(|before| / 4, 4, n);
    assert |s| == |before| / 4 * 4 + n;
    if n > 0 {
      assert s[|s| - 1] == q[n - 1];
      LastBits(q[n - 1]);
    } else {
      LastBits(0);
    }
  }

  lemma LastBits(v: sextet)
    ensures Byte0(v, 0) == 0 <==> v == 0
    ensures Byte1(v, 0) == 0 <==> v % 16 == 0
    ensures Byte2(v, 0) == 0 <==> v % 4 == 0
  {
  }

  /** A text of full groups, all of them read. */
  lemma AllGroupsFull(data: string, r: Rules)
    requires |Sextets(data)| % 4 == 0 && (data == [] || InAlphabet(data[|data| - 1]))
    requires !r.parse.ParseAny? ==> PlainEnd(data, 0, r) == |data|
    ensures CharsEnd(data, r) == |data| == Used(data, r) && EndsFull(data)
    ensures NoBitsLeft(Sextets(data[..|data|]))
  {
    hide Sextets, DecodeTable, PlainEnd;
    assert data[..|data|] == data;
  }

  /** Appends the whole bytes of the group in `qbuf`; `c` is what is left over. */
  method PushGroup(qbuf: array<byte>, ghost q: seq<sextet>, qlen: nat, before: seq<byte>)
      returns (result: seq<byte>, c: byte)
    requires qbuf.Length == 4 && q == qbuf[..] && qlen <= 4
    ensures result == before + GroupBytes(q, qlen) && c == Leftover(q, qlen)
  {
    hide Byte0, Byte1, Byte2;
    assert forall i :: 0 <= i < 4 ==> qbuf[i] == q[i];
    result := before;
    c := Byte0(qbuf[0], qbuf[1]);
    if qlen >= 2 {
      result := result + [c];
      c := Byte1(qbuf[1], qbuf[2]);
      if qlen >= 3 {
        result := result + [c];
        c := Byte2(qbuf[2], qbuf[3]);
        if qlen >= 4 {
          result := result + [c];
          c := 0;
        }
      }
    }
  }

  /**
   Decodes `data` under any combination of the parse, pad and termination modes:
   success, the used part and the result are those of the reference.
   */
  method DecodeFromArray(data: string, parse: ParseMode, pad: PadMode, term: TermMode)
      returns (success: bool, result: seq<byte>, dataUsed: nat)
    ensures success <==> Succeeds(data, parse, pad, term)
    ensures dataUsed == Used(data, Rules(parse, pad == PadNo))
    ensures result == Carried(Sextets(data[..dataUsed]))
  {
    hide Sextets, Carried, DecodeTable, Byte0, Byte1, Byte2, Leftover, GroupBytes, LastGroupRead, PlainEnd, CharsEnd,
         IsPadded, Used, EndsFull, NoBitsLeft, LastGroup;
    ghost var r := Rules(parse, pad == PadNo);
    var dpos := 0;
    success, result := true, [];
    var qbuf := new byte[4];
    var finished := false;
    assert data[..0] == [];
    NoSextets();
    NoneCarried();
    while dpos < |data| && !finished
      invariant dpos <= |data|
      invariant result == Carried(Sextets(data[..dpos]))
      invariant !finished ==> success && |Sextets(data[..dpos])| % 4 == 0 && (dpos == 0 || InAlphabet(data[dpos - 1]))
      invariant !finished && parse != ParseAny ==> PlainEnd(data, 0, r) == PlainEnd(data, dpos, r)
      invariant finished ==> dpos == Used(data, r) && !(CharsEnd(data, r) == |data| && EndsFull(data))
      invariant finished ==> (success <==> (term == TermAny || NoBitsLeft(Sextets(data[..CharsEnd(data, r)])))
                                           && (pad == PadYes ==> IsPadded(data, r)))
      decreases |data| - dpos, !finished
    {
      ghost var start := dpos;
      var qlen, padded;
      ghost var la;
      qlen, dpos, padded, la := GetNextQuantum(parse, pad == PadNo, data, dpos, qbuf);
      ghost var q: seq<sextet> := qbuf[..];
      assert qbuf[..qlen] == q[..qlen];
      GroupCarried(data, start, dpos, q, qlen);
      var c;
      result, c := PushGroup(qbuf, q, qlen, result);
      if qlen < 4 {
        FinalGroup(data, r, start, la, qlen, dpos, padded);
        LeftoverBits(Sextets(data[..start]), q, qlen);
        if term != TermAny && c != 0 {
          success := false;
        }
        if pad == PadYes && !padded {
          success := false;
        }
        finished := true;
      }
    }
    if !finished {
      assert data[..|data|] == data;
      PlainEndOfAll(data, r);
      AllGroupsFull(data, r);
    }
    if term == TermBuffer && dpos != |data| {
      success := false;
    }
    dataUsed := dpos;
  }

  lemma PlainEndOfAll(data: string, r: Rules)
    ensures PlainEnd(data, |data|, r) == |data|
  {
  }
}

/**
 The URL parser and printer of webrtc/base/httpcommon-inl.h.  Printing and then
 parsing returns the same value exactly for the values that describe a URL at
 all.
 */
module Url {
  import opened Bytes
  import opened Decimals

  const NUL: char := 0 as char

  datatype UrlValue = UrlValue(secure: bool, host: string, port: nat, path: string, query: string)

  function DefaultPort(secure: bool): nat {
    if secure then 443 else 80
  }

  // ------------------------------------------------------------------
  // Searching and numbers
  // ------------------------------------------------------------------

  /** The first `c` in `s`; the search gives up at a terminating zero. */
  function Find(s: string, c: char): (r: Option<nat>)
    ensures r.Some? ==> r.value < |s| && s[r.value] == c && c !in s[..r.value]
  {
    if s == [] || s[0] == NUL then None
    else if s[0] == c then Some(0)
    else match Find(s[1..], c)
      case None => None
      case Some(i) =>
        assert s[..i + 1] == [s[0]] + s[1..][..i];
        Some(i + 1)
  }

  lemma {:induction false} FindNone(s: string, c: char)
    requires c !in s
    ensures Find(s, c) == None
  {
    if s != [] {
      FindNone(s[1..], c);
    }
  }

  /** What is found is the first occurrence, with no terminating zero before it. */
  lemma {:induction false} FindMeans(s: string, c: char, i: nat)
    requires c != NUL
    ensures Find(s, c) == Some(i) <==> i < |s| && s[i] == c && c !in s[..i] && NUL !in s[..i]
  {
    if s != [] && s[0] != NUL && s[0] != c && i > 0 {
      FindMeans(s[1..], c, i - 1);
      if i <= |s| {
        assert s[..i] == [s[0]] + s[1..][..i - 1];
      }
    } else if 0 < i <= |s| {
      assert s[..i][0] == s[0];
    }
  }

  lemma {:induction false} FindAfter(a: string, c: char, b: string)
    requires c !in a && NUL !in a && c != NUL
    ensures Find(a + [c] + b, c) == Some(|a|)
  {
    var s := a + [c] + b;
    if a == [] {
      assert s[0] == c;
    } else {
      assert s[1..] == a[1..] + [c] + b;
      FindAfter(a[1..], c, b);
    }
  }

  // ------------------------------------------------------------------
  // Printing
  // ------------------------------------------------------------------

  function Protocol(secure: bool): string {
    if secure then "https://" else "http://"
  }

  /** The text of the port, as it follows the host. */
  function PortText(u: UrlValue): string {
    if u.port != DefaultPort(u.secure) then ":" + Decimal(u.port) else ""
  }

  function PrintAddress(u: UrlValue): string {
    u.host + PortText(u)
  }

  function Print(u: UrlValue): string {
    Protocol(u.secure) + (PrintAddress(u) + (u.path + u.query))
  }

  // ------------------------------------------------------------------
  // Parsing
  // ------------------------------------------------------------------

  function Lower(c: char): char {
    if 'A' <= c <= 'Z' then c - 'A' + 'a' else c
  }

  /** Does `s` begin with `prefix`, ignoring the case of letters? */
  predicate BeginsWith(s: string, prefix: string) {
    |prefix| <= |s| && forall i :: 0 <= i < |prefix| ==> Lower(s[i]) == Lower(prefix[i])
  }

  /** Host and port of the address `val`; `rest` is what follows it in the text, where a number may run on. */
  function ParseAddress(val: string, rest: string, secure: bool): (string, nat) {
    var a := match Find(val, '@') case Some(i) => val[i + 1..] case None => val;
    match Find(a, ':')
    case Some(i) => (a[..i], ParseUnsignedLong(a[i + 1..] + rest) % 65536)
    case None => (a, DefaultPort(secure))
  }

  function ParseFullPath(val: string): (string, string) {
    var at := match Find(val, '?') case Some(i) => i case None => |val|;
    (if at == 0 then "/" else val[..at], val[at..])
  }

  /** Where the address ends and the path begins. */
  function EndOfAddress(s: string): (at: nat)
    ensures at <= |s|
  {
    match Find(s, '/') case Some(i) => i case None => |s|
  }

  function ParseAfterProtocol(val: string, secure: bool): UrlValue {
    var at := EndOfAddress(val);
    var (host, port) := ParseAddress(val[..at], val[at..], secure);
    var (path, query) := ParseFullPath(val[at..]);
    UrlValue(secure, host, port, path, query)
  }

  function Parse(val: string): UrlValue {
    if BeginsWith(val, "http://") then ParseAfterProtocol(val[7..], false)
    else if BeginsWith(val, "https://") then ParseAfterProtocol(val[8..], true)
    else UrlValue(false, "", 80, "/", "")
  }

  // ------------------------------------------------------------------
  // Round trip
  // ------------------------------------------------------------------

  /** The values a URL text can describe. */
  predicate Describable(u: UrlValue) {
    && u.port < 65536
    && NUL !in u.host && '/' !in u.host && ':' !in u.host && '@' !in u.host
    && u.path != [] && u.path[0] == '/'
    && (if u.query == [] then Find(u.path, '?') == None
        else u.query[0] == '?' && '?' !in u.path && NUL !in u.path)
  }

  lemma ProtocolStripped(secure: bool, s: string)
    ensures Parse(Protocol(secure) + s) == ParseAfterProtocol(s, secure)
  {
    hide ParseAfterProtocol;
    var t := Protocol(secure) + s;
    if secure {
      assert t[4] == 's';
      assert !BeginsWith(t, "http://") by { assert Lower(t[4]) != Lower("http://"[4]); }
      assert t[8..] == s;
    } else {
      assert t[7..] == s;
    }
  }

  lemma AddressCharacters(u: UrlValue)
    requires Describable(u)
    ensures NUL !in PrintAddress(u) && '/' !in PrintAddress(u) && '@' !in PrintAddress(u)
  {
    hide Decimal, Find;
    DecimalDigits(u.port);
  }

  lemma PrintedAddress(u: UrlValue, rest: string)
    requires Describable(u) && rest != [] && rest[0] == '/'
    ensures ParseAddress(PrintAddress(u), rest, u.secure) == (u.host, u.port)
  {
    hide Decimal, Find, ParseUnsignedLong, ParseAddress;
    AddressCharacters(u);
    if u.port == DefaultPort(u.secure) {
      assert PrintAddress(u) == u.host;
      AddressWithoutPort(u.host, rest, u.secure);
    } else {
      var text := Decimal(u.port);
      assert PrintAddress(u) == u.host + [':'] + text;
      AddressWithPort(u.host, text, rest, u.secure);
      PrintedNumber(u.port, rest);
    }
  }

  lemma AddressWithoutPort(host: string, rest: string, secure: bool)
    requires ':' !in host && '@' !in host
    ensures ParseAddress(host, rest, secure) == (host, DefaultPort(secure))
  {
    hide Find, ParseUnsignedLong;
    FindNone(host, '@');
    FindNone(host, ':');
  }

  lemma AddressWithPort(host: string, text: string, rest: string, secure: bool)
    requires NUL !in host && ':' !in host && '@' !in host + [':'] + text
    ensures ParseAddress(host + [':'] + text, rest, secure) == (host, ParseUnsignedLong(text + rest) % 65536)
  {
    hide Find, ParseUnsignedLong;
    var a := host + [':'] + text;
    FindNone(a, '@');
    FindAfter(host, ':', text);
    assert a[|host| + 1..] == text && a[..|host|] == host;
  }

  lemma PrintedPath(u: UrlValue)
    requires Describable(u)
    ensures ParseFullPath(u.path + u.query) == (u.path, u.query)
  {
    var s := u.path + u.query;
    if u.query == [] {
      assert s == u.path;
    } else {
      assert s == u.path + ['?'] + u.query[1..];
      FindAfter(u.path, '?', u.query[1..]);
    }
  }

  /** Printing a describable value and parsing the text gives the value back, default port or not. */
  lemma PrintThenParse(u: UrlValue)
    requires Describable(u)
    ensures Parse(Print(u)) == u
  {
    hide PrintAddress, ParseAddress, ParseFullPath, Decimal, Find, Parse, Protocol;
    var a, s := PrintAddress(u), u.path + u.query;
    ProtocolStripped(u.secure, a + s);
    AddressCharacters(u);
    PrintedAddress(u, s);
    assert a + s == a + ['/'] + s[1..];
    FindAfter(a, '/', s[1..]);
    assert (a + s)[..|a|] == a && (a + s)[|a|..] == s;
    PrintedPath(u);
  }

  /** A value that survives the round trip is describable: the parser yields nothing else that prints to itself. */
  lemma OnlyDescribableSurvive(u: UrlValue)
    requires Parse(Print(u)) == u
    ensures Describable(u)
  {
    hide Decimal, Find, ParseAddress, ParseFullPath, Parse, Protocol;
    var s := PrintAddress(u) + (u.path + u.query);
    ProtocolStripped(u.secure, s);
    var at := EndOfAddress(s);
    assert s == u.host + (PortText(u) + (u.path + u.query));
    ParsedPath(s[at..]);
    ParsedHost(u, s, at);
  }

  lemma ParsedPath(val: string)
    requires val == [] || val[0] == '/'
    ensures var (path, query) := ParseFullPath(val);
            && path != [] && path[0] == '/'
            && (if query == [] then Find(path, '?') == None else query[0] == '?' && '?' !in path && NUL !in path)
  {
    match Find(val, '?')
    case Some(i) =>
      FoundPastZeros(val, '?');
    case None =>
      if val == [] {
        FindNone("/", '?');
      } else {
        assert val[..|val|] == val;
      }
  }

  lemma {:induction false} FoundPastZeros(s: string, c: char)
    requires Find(s, c).Some?
    ensures NUL !in s[..Find(s, c).value]
  {
    if s[0] != c {
      FoundPastZeros(s[1..], c);
      var i := Find(s[1..], c).value;
      assert s[..i + 1] == [s[0]] + s[1..][..i];
    }
  }

  /** A failed search leaves no occurrence in any prefix without zeros. */
  lemma {:induction false} FindNonePrefix(s: string, c: char, k: nat)
    requires Find(s, c) == None && k <= |s| && NUL !in s[..k]
    ensures c !in s[..k]
  {
    if k > 0 {
      assert s[..k] == [s[0]] + s[1..][..k - 1];
      FindNonePrefix(s[1..], c, k - 1);
    }
  }

  lemma NoSlashBefore(s: string, k: nat)
    requires k <= EndOfAddress(s) && NUL !in s[..k]
    ensures '/' !in s[..k]
  {
    match Find(s, '/')
    case Some(i) => assert s[..k] == s[..i][..k];
    case None => FindNonePrefix(s, '/', k);
  }

  lemma PortCharacters(u: UrlValue)
    ensures '@' !in PortText(u)
  {
    hide Decimal;
    DecimalDigits(u.port);
  }

  /** What follows the host in a printed URL has a slash before any at-sign. */
  lemma SlashBeforeAt(u: UrlValue, k: nat)
    requires u.path != [] && u.path[0] == '/' && k <= |PortText(u) + (u.path + u.query)|
    ensures var t := PortText(u) + (u.path + u.query); '/' in t[..k] || '@' !in t[..k]
  {
    hide PortText;
    var p, t := PortText(u), PortText(u) + (u.path + u.query);
    PortCharacters(u);
    if k > |p| {
      assert t[..k][|p|] == '/';
    } else {
      assert t[..k] == p[..k];
    }
  }

  /** If `h` stands at the front of `h + t` and again `k` places on, the first `k` letters of both tails agree up to order. */
  lemma SameLetters(h: string, t: string, k: nat)
    requires k <= |t| && (h + t)[k..k + |h|] == h
    ensures multiset((h + t)[..k]) == multiset(t[..k])
  {
    var s := h + t;
    var x, y := s[..k], t[..k];
    assert s[..k + |h|] == x + s[k..k + |h|];
    assert s[..k + |h|] == h + y;
    assert multiset(x + h) == multiset(x) + multiset(h);
    assert multiset(h + y) == multiset(h) + multiset(y);
    forall c
      ensures multiset(x)[c] == multiset(y)[c]
    {
      assert (multiset(x) + multiset(h))[c] == (multiset(h) + multiset(y))[c];
    }
  }

  /** A host preceded by a user name is never the printed host: what was skipped would have to reappear after it. */
  lemma NothingSkipped(u: UrlValue, s: string, i: nat, end: nat)
    requires s == u.host + (PortText(u) + (u.path + u.query)) && u.path != [] && u.path[0] == '/'
    requires i < end <= EndOfAddress(s) && s[i] == '@' && NUL !in s[..i + 1]
    ensures s[i + 1..end] != u.host
  {
    hide PortText, Find, EndOfAddress;
    var k, h, t := i + 1, u.host, PortText(u) + (u.path + u.query);
    NoSlashBefore(s, k);
    assert s[..k][i] == '@';
    assert '@' in multiset(s[..k]) && '/' !in multiset(s[..k]);
    if k <= |t| && s[k..k + |h|] == h {
      SameLetters(h, t, k);
      SlashBeforeAt(u, k);
      assert false;
    }
  }

  lemma ParsedHost(u: UrlValue, s: string, at: nat)
    requires s == u.host + (PortText(u) + (u.path + u.query)) && u.path != [] && u.path[0] == '/'
    requires at == EndOfAddress(s)
    requires ParseAddress(s[..at], s[at..], u.secure) == (u.host, u.port)
    ensures u.port < 65536
    ensures NUL !in u.host && '/' !in u.host && ':' !in u.host && '@' !in u.host
  {
    hide PortText, Find, EndOfAddress, ParseUnsignedLong;
    NoUserName(u, s, at);
    WithoutUserName(u, s, at);
  }

  lemma NoUserName(u: UrlValue, s: string, at: nat)
    requires s == u.host + (PortText(u) + (u.path + u.query)) && u.path != [] && u.path[0] == '/'
    requires at == EndOfAddress(s)
    requires ParseAddress(s[..at], s[at..], u.secure).0 == u.host
    ensures Find(s[..at], '@') == None
  {
    hide PortText, Find, EndOfAddress, ParseUnsignedLong;
    var a := s[..at];
    match Find(a, '@')
    case None =>
    case Some(i) =>
      var b := a[i + 1..];
      var n := match Find(b, ':') case Some(j) => j case None => |b|;
      FoundPastZeros(a, '@');
      HostSlice(s, at, i, n);
      NothingSkipped(u, s, i, i + 1 + n);
  }

  lemma HostSlice(s: string, at: nat, i: nat, n: nat)
    requires i < at <= |s| && i + 1 + n <= at && s[i] == '@' && NUL !in s[..at][..i]
    ensures s[..at][i + 1..][..n] == s[i + 1..i + 1 + n]
    ensures n == |s[..at][i + 1..]| ==> s[..at][i + 1..] == s[i + 1..i + 1 + n]
    ensures NUL !in s[..i + 1]
  {
    assert s[..at][..i] == s[..i] && s[..i + 1] == s[..i] + [s[i]];
    SliceOfPrefix(s, at, i + 1, n);
  }

  lemma SliceOfPrefix(s: string, at: nat, from: nat, n: nat)
    requires from + n <= at <= |s|
    ensures s[..at][from..][..n] == s[from..from + n]
    ensures n == |s[..at][from..]| ==> s[..at][from..] == s[from..from + n]
  {
    var x := s[..at][from..];
    assert |x| == at - from;
    forall k | 0 <= k < n
      ensures x[k] == s[from..from + n][k]
    {
      assert x[k] == s[..at][from + k] == s[from + k];
    }
  }

  lemma WithoutUserName(u: UrlValue, s: string, at: nat)
    requires s == u.host + (PortText(u) + (u.path + u.query)) && u.path != []
    requires at == EndOfAddress(s) && Find(s[..at], '@') == None
    requires ParseAddress(s[..at], s[at..], u.secure).0 == u.host
    ensures NUL !in u.host && '/' !in u.host && ':' !in u.host && '@' !in u.host
  {
    hide PortText, Find, EndOfAddress, ParseUnsignedLong;
    var a := s[..at];
    match Find(a, ':')
    case Some(j) =>
      FoundPastZeros(a, ':');
      assert u.host == a[..j] == s[..j];
      NoSlashBefore(s, j);
      FindNonePrefix(a, '@', j);
    case None =>
      assert at == |u.host| < |s|;
      SlashFound(s);
      assert a[..at] == a;
      NoSlashBefore(s, at);
      FindNonePrefix(a, '@', at);
      FindNonePrefix(a, ':', at);
  }

  lemma SlashFound(s: string)
    requires EndOfAddress(s) < |s|
    ensures NUL !in s[..EndOfAddress(s)]
  {
    FoundPastZeros(s, '/');
  }

  /** The round trip succeeds exactly on the describable values. */
  lemma RoundTripIffDescribable(u: UrlValue)
    ensures Parse(Print(u)) == u <==> Describable(u)
  {
    hide Parse, Print, Describable;
    if Describable(u) {
      PrintThenParse(u);
    }
    if Parse(Print(u)) == u {
      OnlyDescribableSurvive(u);
    }
  }

  // ------------------------------------------------------------------
  // The parts of a text
  // ------------------------------------------------------------------

  /** `s` is "http://", or "https://" if secure, in letters of either case. */
  predicate IsScheme(s: string, secure: bool) {
    var plain := if secure then "https://" else "http://";
    |s| == |plain| && forall i :: 0 <= i < |s| ==> s[i] == plain[i] || ('a' <= plain[i] <= 'z' && s[i] == plain[i] - 'a' + 'A')
  }

  lemma SchemeBegins(val: string, secure: bool)
    ensures BeginsWith(val, Protocol(secure)) <==> |val| >= |Protocol(secure)| && IsScheme(val[..|Protocol(secure)|], secure)
  {
    var p := Protocol(secure);
    if |val| >= |p| {
      forall i | 0 <= i < |p|
        ensures Lower(val[i]) == Lower(p[i]) <==> val[i] == p[i] || ('a' <= p[i] <= 'z' && val[i] == p[i] - 'a' + 'A')
      {
        assert Lower(p[i]) == p[i];
      }
      assert forall i :: 0 <= i < |p| ==> val[..|p|][i] == val[i];
    }
  }

  /** Texts of any other scheme clear the value. */
  lemma OtherSchemes(val: string)
    requires |val| < 7 || !IsScheme(val[..7], false)
    requires |val| < 8 || !IsScheme(val[..8], true)
    ensures Parse(val) == UrlValue(false, "", 80, "/", "")
  {
    hide BeginsWith, IsScheme;
    SchemeBegins(val, false);
    SchemeBegins(val, true);
  }

  lemma SchemeStripped(scheme: string, secure: bool, s: string)
    requires IsScheme(scheme, secure)
    ensures Parse(scheme + s) == ParseAfterProtocol(s, secure)
  {
    hide ParseAfterProtocol;
    var val := scheme + s;
    assert val[..|scheme|] == scheme && val[|scheme|..] == s;
    SchemeBegins(val, secure);
    if secure {
      assert !BeginsWith(val, "http://") by {
        assert val[4] == scheme[4];
        assert Lower(val[4]) == 's' && Lower("http://"[4]) == ':';
      }
    }
  }

  function UserText(user: Option<string>): string {
    if user.Some? then user.value + ['@'] else []
  }

  function NumberText(port: Option<nat>): string {
    if port.Some? then [':'] + Decimal(port.value) else []
  }

  predicate NoneOf(s: string, chars: string) {
    forall c :: c in chars ==> c !in s
  }

  lemma AddressParts(user: Option<string>, host: string, port: Option<nat>, rest: string, secure: bool)
    requires user.Some? ==> NoneOf(user.value, [NUL, '/', '@'])
    requires NoneOf(host, [NUL, '/', '@', ':'])
    requires rest == [] || rest[0] == '/'
    ensures ParseAddress(UserText(user) + (host + NumberText(port)), rest, secure)
         == (host, if port.None? then (if secure then 443 else 80)
                   else if port.value <= ULONG_MAX then port.value % 65536 else 65535)
    ensures NoneOf(UserText(user) + (host + NumberText(port)), [NUL, '/'])
  {
    hide Find, ParseUnsignedLong, Decimal, ParseAddress;
    var a := host + NumberText(port);
    PortHasNone(port);
    if user.Some? {
      assert UserText(user) + a == user.value + ['@'] + a;
      UserSkipped(user.value, a, rest, secure);
    } else {
      assert UserText(user) + a == a;
    }
    if port.Some? {
      assert a == host + [':'] + Decimal(port.value);
      AddressWithPort(host, Decimal(port.value), rest, secure);
      PrintedNumber(port.value, rest);
    } else {
      assert a == host;
      AddressWithoutPort(host, rest, secure);
    }
  }

  lemma UserSkipped(user: string, a: string, rest: string, secure: bool)
    requires NUL !in user && '@' !in user && '@' !in a
    ensures ParseAddress(user + ['@'] + a, rest, secure) == ParseAddress(a, rest, secure)
  {
    hide Find, ParseUnsignedLong;
    FindAfter(user, '@', a);
    FindNone(a, '@');
    assert (user + ['@'] + a)[|user| + 1..] == a;
  }

  lemma PortHasNone(port: Option<nat>)
    ensures NoneOf(NumberText(port), [NUL, '/', '@'])
  {
    hide Decimal;
    if port.Some? {
      DecimalDigits(port.value);
    }
  }

  lemma PathParts(path: string, query: string)
    requires NoneOf(path, [NUL, '?']) && (query == [] || query[0] == '?')
    ensures ParseFullPath(path + query) == (if path == [] then "/" else path, query)
  {
    hide Find;
    if query == [] {
      assert path + query == path;
      FindNone(path, '?');
    } else {
      assert path + query == path + ['?'] + query[1..];
      FindAfter(path, '?', query[1..]);
    }
  }

  /**
   Scheme in either case, an optional user, host, an optional port and, from a
   slash on, path and query: each comes out as it stands, the user is skipped,
   and a missing port or path is the default one.
   */
  lemma ParsedParts(scheme: string, secure: bool, user: Option<string>, host: string, port: Option<nat>,
                    path: string, query: string)
    requires IsScheme(scheme, secure)
    requires user.Some? ==> NoneOf(user.value, [NUL, '/', '@'])
    requires NoneOf(host, [NUL, '/', '@', ':'])
    requires NoneOf(path, [NUL, '?']) && (query == [] || query[0] == '?')
    requires if path == [] then query == [] else path[0] == '/'
    ensures Parse(scheme + (UserText(user) + (host + NumberText(port)) + (path + query)))
         == UrlValue(secure, host,
                     if port.None? then (if secure then 443 else 80)
                     else if port.value <= ULONG_MAX then port.value % 65536 else 65535,
                     if path == [] then "/" else path, query)
  {
    hide Find, ParseAddress, ParseFullPath, Parse, UserText, NumberText, IsScheme;
    var a, s := UserText(user) + (host + NumberText(port)), path + query;
    SchemeStripped(scheme, secure, a + s);
    AddressParts(user, host, port, s, secure);
    PathParts(path, query);
    if s == [] {
      assert a + s == a;
      FindNone(a, '/');
    } else {
      assert a + s == a + ['/'] + s[1..];
      FindAfter(a, '/', s[1..]);
    }
    assert (a + s)[..|a|] == a && (a + s)[|a|..] == s;
  }

  /** The printed text in its parts. */
  lemma PrintedParts(u: UrlValue)
    ensures Print(u) == (if u.secure then "https://" else "http://")
                        + (u.host + (if u.port == (if u.secure then 443 else 80) then "" else ":" + Decimal(u.port))
                           + (u.path + u.query))
  {
    hide Decimal;
  }

  // ------------------------------------------------------------------
  // The object
  // ------------------------------------------------------------------

  class HttpUrl {
    var secure: bool
    var host: string
    var port: nat
    var path: string
    var query: string

    function Value(): UrlValue
      reads this
    {
      UrlValue(secure, host, port, path, query)
    }

    constructor (val: string)
      ensures Value() == Parse(val)
    {
      secure, host, port, path, query := false, "", 80, "/", "";
      new;
      SetUrl(val);
    }

    method SetUrl(val: string)
      modifies this
      ensures Value() == Parse(val)
    {
      hide Find, ParseUnsignedLong;
      var rest;
      if BeginsWith(val, "http://") {
        rest := val[7..];
        secure := false;
      } else if BeginsWith(val, "https://") {
        rest := val[8..];
        secure := true;
      } else {
        host, port, secure, path, query := "", 80, false, "/", "";
        return;
      }
      var addressLength := EndOfAddress(rest);
      SetAddress(rest[..addressLength], rest[addressLength..]);
      SetFullPath(rest[addressLength..]);
    }

    method SetAddress(val: string, following: string)
      modifies this`host, this`port
      ensures (host, port) == ParseAddress(val, following, secure)
    {
      hide Find, ParseUnsignedLong;
      var at := Find(val, '@');
      var address := if at.Some? then val[at.value + 1..] else val;
      var colon := Find(address, ':');
      if colon.Some? {
        host := address[..colon.value];
        port := ParseUnsignedLong(address[colon.value + 1..] + following) % 65536;
      } else {
        host := address;
        port := DefaultPort(secure);
      }
    }

    method SetFullPath(val: string)
      modifies this`path, this`query
      ensures (path, query) == ParseFullPath(val)
    {
      hide Find;
      var mark := Find(val, '?');
      var pathLength := if mark.Some? then mark.value else |val|;
      if pathLength == 0 {
        path := "/";
      } else {
        path := val[..pathLength];
      }
      query := val[pathLength..];
    }

    method GetUrl() returns (val: string)
      ensures val == Print(Value())
    {
      val := Protocol(secure);
      var address := host;
      if port != DefaultPort(secure) {
        address := address + ":" + Decimal(port);
      }
      assert address == PrintAddress(Value());
      val := val + (address + (path + query));
    }
  }
}

/**
 canonicalize_origin: parsing, checking and rendering of a public origin, its idempotence,
 and the triple of scheme, host and effective port that its result is a complete key for
 (sections 4 and 6.2 of RFC 6454).
 */
module CanonicalOrigin {
  import opened Wrappers
  import opened Whitespace
  import opened Digits

  /** Library code taken as given: IDNA encoding of a non-ASCII host, and IPv6 text. */
  datatype Library = Library(
    idna: string -> Option<string>,
    parse6: string -> Option<nat>,
    print6: nat -> string,
    loopback6: nat -> bool)

  predicate Char6(c: char) {
    '0' <= c <= '9' || 'a' <= c <= 'f' || c == ':' || c == '.'
  }

  /** What the compressed text of an address has to satisfy: it parses back to the address,
      contains a colon, and consists of lower-case hexadecimal digits, colons and dots. */
  ghost predicate Compressed6(lib: Library, v: nat) {
    var t := lib.print6(v);
    lib.parse6(t) == Some(v) && ':' in t && forall c | c in t :: Char6(c)
  }

  ghost predicate SoundLibrary(lib: Library) {
    forall t: string :: lib.parse6(t).Some? ==> Compressed6(lib, lib.parse6(t).value)
  }

  // ---------- Characters and strings

  predicate IsControl(c: char) {
    c < ' ' || c == 0x7f as char
  }

  function LowerChar(c: char): char {
    if 'A' <= c <= 'Z' then (c as int - 'A' as int + 'a' as int) as char else c
  }

  function Lower(s: string): (r: string)
    ensures |r| == |s| && forall i | 0 <= i < |s| :: r[i] == LowerChar(s[i])
  {
    if s == [] then [] else [LowerChar(s[0])] + Lower(s[1..])
  }

  function Index(s: string, c: char): (i: nat)
    ensures i <= |s| && c !in s[..i]
    ensures i < |s| ==> s[i] == c
    ensures c !in s <==> i == |s|
  {
    if s == [] || s[0] == c then 0 else 1 + Index(s[1..], c)
  }

  function RStripDots(s: string): string {
    if s != [] && s[|s| - 1] == '.' then RStripDots(s[..|s| - 1]) else s
  }

  function Split(s: string, c: char): (parts: seq<string>)
    ensures |parts| > 0
    decreases |s|
  {
    var i := Index(s, c);
    if i == |s| then [s] else [s[..i]] + Split(s[i + 1..], c)
  }

  // ---------- Hosts

  predicate LetterOrDigit(c: char) {
    'a' <= c <= 'z' || 'A' <= c <= 'Z' || '0' <= c <= '9'
  }

  predicate ValidLabel(s: string) {
    && 0 < |s| <= 63
    && LetterOrDigit(s[0]) && LetterOrDigit(s[|s| - 1])
    && forall c | c in s :: LetterOrDigit(c) || c == '-'
  }

  predicate ValidName(s: string) {
    |s| <= 253 && forall part | part in Split(s, '.') :: ValidLabel(part)
  }

  predicate ValidOctet(s: string) {
    && 0 < |s| <= 3 && (forall c | c in s :: '0' <= c <= '9')
    && (s == "0" || s[0] != '0')
    && match ParseNat(s)
       case None => false
       case Some(n) => n <= 255
  }

  /** Dotted decimal with exactly four octets; such text is already its canonical form. */
  predicate IsIPv4(s: string) {
    |Split(s, '.')| == 4 && forall octet | octet in Split(s, '.') :: ValidOctet(octet)
  }

  predicate IsAscii(s: string) {
    forall c | c in s :: c < 128 as char
  }

  datatype Host = Named(name: string) | Literal4(text: string) | Literal6(v: nat)

  function HostName(lib: Library, host: Host): string {
    match host
    case Named(name) => name
    case Literal4(text) => text
    case Literal6(v) => Lower(lib.print6(v))
  }

  predicate IsLoopback(lib: Library, host: Host) {
    match host
    case Named(name) => name == "localhost"
    case Literal4(text) => Split(text, '.')[0] == "127"
    case Literal6(v) => lib.loopback6(v)
  }

  // ---------- Parsing

  datatype Origin = Origin(scheme: string, host: Host, port: Option<nat>)

  datatype Authority = Authority(bracketed: bool, host: string, port: Option<string>)

  /** Scheme and authority of a URL without path; the scheme is http or https. */
  function SplitUrl(raw: string): Option<(string, string)> {
    var colon := Index(raw, ':');
    var scheme := Lower(raw[..colon]);
    if colon == |raw| || (scheme != "http" && scheme != "https") then None
    else
      match AuthorityOf(raw[colon + 1..])
      case None => None
      case Some(authority) => Some((scheme, authority))
  }

  function AuthorityOf(rest: string): Option<string> {
    if |rest| < 2 || rest[0] != '/' || rest[1] != '/' then None
    else
      var slash := Index(rest[2..], '/');
      var authority, path := rest[2..][..slash], rest[2..][slash..];
      if authority == [] || (path != "" && path != "/") then None else Some(authority)
  }

  function SplitAuthority(a: string): Option<Authority> {
    if a == [] || '@' in a || (exists c | c in a :: IsSpace(c)) then None
    else if a[0] == '[' then
      var closing := Index(a, ']');
      if closing == |a| || closing <= 1 || '[' in a[1..] || ']' in a[closing + 1..] then None
      else
        var suffix := a[closing + 1..];
        if suffix != [] && suffix[0] != ':' then None
        else Some(Authority(true, a[1..closing], if suffix == [] then None else Some(suffix[1..])))
    else
      var colon := Index(a, ':');
      if '[' in a || ']' in a then None
      else if colon == |a| then Some(Authority(false, a, None))
      else if ':' in a[colon + 1..] then None
      else Some(Authority(false, a[..colon], Some(a[colon + 1..])))
  }

  function ParseHost(lib: Library, bracketed: bool, text: string): Option<Host> {
    if bracketed then
      if '%' in text then None
      else
        match lib.parse6(text)
        case None => None
        case Some(v) => Some(Literal6(v))
    else
      var host := RStripDots(text);
      if host == [] then None
      else if IsIPv4(host) then Some(Literal4(host))
      else
        match if IsAscii(host) then Some(host) else lib.idna(host)
        case None => None
        case Some(encoded) =>
          var name := Lower(encoded);
          if ValidName(name) then Some(Named(name)) else None
  }

  const MAX_INT_DIGITS := 4300

  function ParsePort(text: Option<string>): Option<Option<nat>> {
    if text.None? then Some(None)
    else if exists c | c in text.value :: !('0' <= c <= '9') then None
    else if |text.value| > MAX_INT_DIGITS then None
    else
      match ParseNat(text.value)
      case None => None
      case Some(n) => if 1 <= n <= 65535 then Some(Some(n)) else None
  }

  function ParseOrigin(lib: Library, value: string): Option<Origin> {
    var raw := Strip(value);
    if raw == [] || (exists c | c in raw :: IsControl(c)) || '?' in raw || '#' in raw || '\\' in raw then None
    else
      match SplitUrl(raw)
      case None => None
      case Some((scheme, authority)) =>
        match SplitAuthority(authority)
        case None => None
        case Some(a) =>
          var host, port := ParseHost(lib, a.bracketed, a.host), ParsePort(a.port);
          if host.None? || port.None? then None else Some(Origin(scheme, host.value, port.value))
  }

  // ---------- Rendering and permission

  function DefaultPort(scheme: string): nat {
    if scheme == "http" then 80 else 443
  }

  function PortPart(o: Origin): string {
    if o.port.None? || o.port.value == DefaultPort(o.scheme) then "" else ":" + Decimal(o.port.value)
  }

  function HostPart(lib: Library, o: Origin): string {
    var name := HostName(lib, o.host);
    if !o.host.Named? && ':' in name then "[" + name + "]" else name
  }

  function Render(lib: Library, o: Origin): string {
    o.scheme + "://" + (HostPart(lib, o) + PortPart(o))
  }

  const DEFAULT_PUBLIC_BASE_URL := "http://localhost:8000"

  const LOOPBACK_ENVIRONMENTS := {"development", "development-local", "logic-test", "test", "testing"}

  predicate Permitted(lib: Library, o: Origin, environment: string, allowLegacyDefault: bool) {
    o.scheme == "http" ==>
      && IsLoopback(lib, o.host)
      && (|| Lower(Strip(environment)) in LOOPBACK_ENVIRONMENTS
          || (allowLegacyDefault && Render(lib, o) == DEFAULT_PUBLIC_BASE_URL))
  }

  /** None stands for the ValueError. */
  function Canonicalize(lib: Library, value: string, environment: string, allowLegacyDefault: bool): Option<string> {
    match ParseOrigin(lib, value)
    case None => None
    case Some(o) => if Permitted(lib, o, environment, allowLegacyDefault) then Some(Render(lib, o)) else None
  }

  // ---------- Facts about strings

  lemma {:induction false} IndexOfFirst(a: string, c: char, b: string)
    requires c !in a
    ensures Index(a + [c] + b, c) == |a|
  {
    var s := a + [c] + b;
    if a != [] {
      IndexOfFirst(a[1..], c, b);
      assert s[1..] == a[1..] + [c] + b;
      assert a[0] in a;
    }
  }

  lemma LowerIdempotent(s: string)
    ensures Lower(Lower(s)) == Lower(s)
  {
  }

  lemma LowerKeeps(s: string)
    requires forall c | c in s :: !('A' <= c <= 'Z')
    ensures Lower(s) == s
  {
    assert forall i | 0 <= i < |s| :: s[i] in s && Lower(s)[i] == LowerChar(s[i]);
  }

  lemma {:induction false} SplitCovers(s: string, c: char, x: char)
    requires x in s && x != c
    ensures exists p | p in Split(s, c) :: x in p
    decreases |s|
  {
    var i := Index(s, c);
    if i < |s| {
      if x in s[..i] {
        assert s[..i] in Split(s, c);
      } else {
        assert s == s[..i] + [c] + s[i + 1..];
        SplitCovers(s[i + 1..], c, x);
        var p :| p in Split(s[i + 1..], c) && x in p;
        assert p in Split(s, c);
      }
    } else {
      assert s in Split(s, c);
    }
  }

  lemma {:induction false} SplitTrailing(s: string, c: char)
    requires s == [] || s[|s| - 1] == c
    ensures [] in Split(s, c)
    decreases |s|
  {
    var i := Index(s, c);
    if i < |s| {
      SplitTrailing(s[i + 1..], c);
    } else if s == [] {
      assert Split(s, c) == [s];
    }
  }

  predicate NameChar(c: char) {
    LetterOrDigit(c) || c == '-' || c == '.'
  }

  /** Names and dotted addresses are not empty, do not end in a dot, and have no separators. */
  lemma PlainHostFacts(s: string)
    requires ValidName(s) || IsIPv4(s)
    ensures s != [] && s[|s| - 1] != '.'
    ensures forall c | c in s :: NameChar(c)
  {
    assert !ValidLabel([]) && !ValidOctet([]);
    if s == [] || s[|s| - 1] == '.' {
      SplitTrailing(s, '.');
    }
    forall c | c in s ensures NameChar(c) {
      if c != '.' {
        SplitCovers(s, '.', c);
      }
    }
  }

  lemma LocalhostIsNoAddress()
    ensures !IsIPv4("localhost")
  {
    assert Index("localhost", '.') == |"localhost"|;
  }

  function Pow10(width: nat): nat {
    if width == 0 then 1 else 10 * Pow10(width - 1)
  }

  lemma {:induction false} DecimalWidth(n: nat, width: nat)
    requires n < Pow10(width) && width > 0
    ensures |Decimal(n)| <= width
  {
    if n >= 10 {
      DecimalWidth(n / 10, width - 1);
    }
  }

  lemma DecimalPort(n: nat)
    requires n <= 65535
    ensures |Decimal(n)| <= 5
  {
    assert Pow10(5) == 10 * Pow10(4) && Pow10(4) == 10 * Pow10(3) && Pow10(3) == 1000;
    DecimalWidth(n, 5);
  }

  // ---------- Accepted origins and their key

  ghost predicate ValidHost(lib: Library, host: Host) {
    match host
    case Named(name) => ValidName(name) && Lower(name) == name
    case Literal4(text) => IsIPv4(text)
    case Literal6(v) => Compressed6(lib, v)
  }

  predicate ValidPort(port: Option<nat>) {
    port.Some? ==> 1 <= port.value <= 65535
  }

  ghost predicate ValidOrigin(lib: Library, o: Origin) {
    && o.scheme in {"http", "https"}
    && ValidHost(lib, o.host)
    && ValidPort(o.port)
  }

  lemma ParsedIsValid(lib: Library, value: string)
    requires SoundLibrary(lib) && ParseOrigin(lib, value).Some?
    ensures ValidOrigin(lib, ParseOrigin(lib, value).value)
  {
    var (scheme, authority) := SplitUrl(Strip(value)).value;
    var a := SplitAuthority(authority).value;
    HostIsValid(lib, a.bracketed, a.host);
  }

  lemma HostIsValid(lib: Library, bracketed: bool, text: string)
    requires SoundLibrary(lib) && ParseHost(lib, bracketed, text).Some?
    ensures ValidHost(lib, ParseHost(lib, bracketed, text).value)
  {
    var host := ParseHost(lib, bracketed, text).value;
    if host.Named? {
      var stripped := RStripDots(text);
      LowerIdempotent(if IsAscii(stripped) then stripped else lib.idna(stripped).value);
    }
  }

  /** The identity of an origin: scheme, host and effective port. */
  datatype Key = Key(scheme: string, host: string, port: nat)

  /** Scheme, host and the port that the origin is reached at: 443 for https and 80 for http unless
      another one is given. */
  function KeyOf(lib: Library, o: Origin): Key {
    var port := match o.port
      case Some(n) => n
      case None => if o.scheme == "https" then 443 else 80;
    Key(o.scheme, HostName(lib, o.host), port)
  }

  lemma HostNameFacts(lib: Library, host: Host)
    requires ValidHost(lib, host)
    ensures var name := HostName(lib, host);
      && name != []
      && (host.Literal6? ==> name == lib.print6(host.v) && ':' in name && forall c | c in name :: Char6(c))
      && (!host.Literal6? ==> name[|name| - 1] != '.' && forall c | c in name :: NameChar(c))
  {
    match host
    case Named(name) => PlainHostFacts(name);
    case Literal4(text) => PlainHostFacts(text);
    case Literal6(v) => LowerKeeps(lib.print6(v));
  }

  lemma RenderFromKey(lib: Library, a: Origin, b: Origin)
    requires ValidOrigin(lib, a) && ValidOrigin(lib, b) && KeyOf(lib, a) == KeyOf(lib, b)
    ensures Render(lib, a) == Render(lib, b)
  {
    HostNameFacts(lib, a.host);
    HostNameFacts(lib, b.host);
  }

  // ---------- Rendering parses back

  predicate NetlocChar(c: char) {
    LetterOrDigit(c) || c in {'-', '.', ':', '[', ']'}
  }

  lemma NetlocFacts(lib: Library, o: Origin)
    requires ValidOrigin(lib, o)
    ensures var netloc := HostPart(lib, o) + PortPart(o);
      netloc != [] && forall c | c in netloc :: NetlocChar(c)
  {
    HostNameFacts(lib, o.host);
    var netloc := HostPart(lib, o) + PortPart(o);
    forall c | c in netloc ensures NetlocChar(c) {
      if c in PortPart(o) && c != ':' {
        assert c in Decimal(o.port.value);
      }
    }
  }

  lemma AuthorityOfNetloc(netloc: string)
    requires netloc != [] && '/' !in netloc
    ensures AuthorityOf("//" + netloc) == Some(netloc)
  {
    assert ("//" + netloc)[2..] == netloc;
    assert netloc[..|netloc|] == netloc;
  }

  lemma SplitUrlOf(scheme: string, netloc: string)
    requires scheme in {"http", "https"} && netloc != [] && '/' !in netloc
    ensures SplitUrl(scheme + "://" + netloc) == Some((scheme, netloc))
  {
    var raw := scheme + "://" + netloc;
    assert raw == scheme + [':'] + ("//" + netloc);
    IndexOfFirst(scheme, ':', "//" + netloc);
    assert raw[..|scheme|] == scheme;
    LowerKeeps(scheme);
    assert raw[|scheme| + 1..] == "//" + netloc;
    AuthorityOfNetloc(netloc);
  }

  /** The rendered port: nothing, or a colon and digits. */
  predicate PortText(port: string) {
    port == "" || (port[0] == ':' && forall c | c in port[1..] :: '0' <= c <= '9')
  }

  lemma PortTextChars(port: string)
    requires PortText(port)
    ensures forall c | c in port :: c == ':' || '0' <= c <= '9'
    ensures port != "" ==> port == [':'] + port[1..] && ':' !in port[1..]
  {
    if port != "" {
      assert port == [port[0]] + port[1..];
    }
  }

  lemma NoSpaces(a: string)
    requires forall c | c in a :: c in {'[', ']', ':'} || Char6(c) || NameChar(c)
    ensures forall c | c in a :: !IsSpace(c) && c != '@'
  {
  }

  lemma SplitBracketed(name: string, port: string)
    requires name != [] && (forall c | c in name :: Char6(c)) && PortText(port)
    ensures SplitAuthority("[" + name + "]" + port) ==
      Some(Authority(true, name, if port == "" then None else Some(port[1..])))
  {
    var a := "[" + name + "]" + port;
    PortTextChars(port);
    assert a == ("[" + name) + [']'] + port;
    IndexOfFirst("[" + name, ']', port);
    assert a[1..|name| + 1] == name;
    assert a[|name| + 2..] == port;
    assert a[1..] == name + "]" + port;
    assert a[0] == '[';
    assert forall c | c in a :: c in {'[', ']', ':'} || Char6(c);
    NoSpaces(a);
  }

  lemma PlainChars(name: string, port: string)
    requires name != [] && (forall c | c in name :: NameChar(c)) && PortText(port)
    ensures var a := name + port;
      && a != [] && a[0] != '[' && '@' !in a && '[' !in a && ']' !in a && forall c | c in a :: !IsSpace(c)
  {
    var a := name + port;
    PortTextChars(port);
    assert a[0] == name[0] && name[0] in name;
    assert forall c | c in a :: NameChar(c) || c == ':';
    NoSpaces(a);
  }

  lemma SplitPlain(name: string, port: string)
    requires name != [] && (forall c | c in name :: NameChar(c)) && PortText(port)
    ensures SplitAuthority(name + port) ==
      Some(Authority(false, name, if port == "" then None else Some(port[1..])))
  {
    var a := name + port;
    PlainChars(name, port);
    assert ':' !in name;
    if port == "" {
      assert a == name;
    } else {
      PortTextChars(port);
      assert a == name + [':'] + port[1..];
      IndexOfFirst(name, ':', port[1..]);
      assert a[..|name|] == name;
      assert a[|name| + 1..] == port[1..];
    }
  }

  lemma PortPartParses(o: Origin)
    requires o.scheme in {"http", "https"} && ValidPort(o.port)
    ensures var part := PortPart(o);
      && PortText(part)
      && ParsePort(if part == "" then None else Some(part[1..])) ==
           Some(if o.port == Some(DefaultPort(o.scheme)) then None else o.port)
  {
    if PortPart(o) != "" {
      var n := o.port.value;
      DecimalRoundTrip(n);
      DecimalPort(n);
      assert PortPart(o)[1..] == Decimal(n);
    }
  }

  /** The host read back from a rendered name is the same name; only an IDNA-encoded dotted
      address changes from a name to a literal. */
  lemma HostParses(lib: Library, host: Host)
    requires ValidHost(lib, host)
    ensures var h := ParseHost(lib, host.Literal6?, HostName(lib, host));
      && h.Some? && HostName(lib, h.value) == HostName(lib, host) && ValidHost(lib, h.value)
      && (IsLoopback(lib, host) ==> IsLoopback(lib, h.value))
  {
    HostNameFacts(lib, host);
    match host
    case Literal6(v) =>
    case Literal4(text) => assert RStripDots(text) == text;
    case Named(name) => NameParses(lib, name); LocalhostIsNoAddress();
  }

  lemma NameParses(lib: Library, name: string)
    requires ValidName(name) && Lower(name) == name
    ensures ParseHost(lib, false, name) == Some(if IsIPv4(name) then Literal4(name) else Named(name))
  {
    PlainHostFacts(name);
    assert RStripDots(name) == name;
    assert forall c | c in name :: NameChar(c);
    assert IsAscii(name);
  }

  lemma RenderParses(lib: Library, o: Origin)
    requires ValidOrigin(lib, o)
    ensures var p := ParseOrigin(lib, Render(lib, o));
      && p.Some? && ValidOrigin(lib, p.value) && KeyOf(lib, p.value) == KeyOf(lib, o)
      && (IsLoopback(lib, o.host) ==> IsLoopback(lib, p.value.host))
  {
    var netloc := HostPart(lib, o) + PortPart(o);
    var t := Render(lib, o);
    RenderedText(lib, o);
    SplitUrlOf(o.scheme, netloc);
    RenderedAuthority(lib, o);
    PortPartParses(o);
    HostParses(lib, o.host);
    ParseFromParts(lib, t, o.scheme, netloc);
  }

  lemma NothingForbidden(t: string)
    requires forall c | c in t :: NetlocChar(c) || c == '/'
    ensures forall c | c in t :: !IsControl(c)
    ensures '?' !in t && '#' !in t && '\\' !in t
  {
  }

  lemma ParseFromParts(lib: Library, t: string, scheme: string, netloc: string)
    requires Strip(t) == t && t != [] && (forall c | c in t :: NetlocChar(c) || c == '/')
    requires SplitUrl(t) == Some((scheme, netloc)) && SplitAuthority(netloc).Some?
    ensures var a := SplitAuthority(netloc).value;
      var host, port := ParseHost(lib, a.bracketed, a.host), ParsePort(a.port);
      ParseOrigin(lib, t) == if host.None? || port.None? then None else Some(Origin(scheme, host.value, port.value))
  {
    NothingForbidden(t);
  }

  lemma RenderedText(lib: Library, o: Origin)
    requires ValidOrigin(lib, o)
    ensures var t, netloc := Render(lib, o), HostPart(lib, o) + PortPart(o);
      && Strip(t) == t && t != [] && netloc != [] && '/' !in netloc
      && forall c | c in t :: NetlocChar(c) || c == '/'
  {
    var netloc := HostPart(lib, o) + PortPart(o);
    var t := Render(lib, o);
    NetlocFacts(lib, o);
    assert t[0] == o.scheme[0] == 'h';
    assert t[|t| - 1] == netloc[|netloc| - 1] && netloc[|netloc| - 1] in netloc;
    StripNothing(t);
    forall c | c in t ensures NetlocChar(c) || c == '/' {
      if c in o.scheme {
        assert LetterOrDigit(c);
      }
    }
  }

  lemma RenderedAuthority(lib: Library, o: Origin)
    requires ValidOrigin(lib, o)
    ensures SplitAuthority(HostPart(lib, o) + PortPart(o)) ==
      Some(Authority(
        o.host.Literal6?, HostName(lib, o.host), if PortPart(o) == "" then None else Some(PortPart(o)[1..])))
  {
    HostNameFacts(lib, o.host);
    PortPartParses(o);
    if o.host.Literal6? {
      SplitBracketed(HostName(lib, o.host), PortPart(o));
      assert HostPart(lib, o) + PortPart(o) == "[" + HostName(lib, o.host) + "]" + PortPart(o);
    } else {
      SplitPlain(HostName(lib, o.host), PortPart(o));
    }
  }

  // ---------- Main results

  /** A canonical origin is its own canonical form, in the same environment. */
  lemma CanonicalizeIdempotent(lib: Library, value: string, environment: string, allowLegacyDefault: bool)
    requires SoundLibrary(lib)
    ensures var c := Canonicalize(lib, value, environment, allowLegacyDefault);
      c.Some? ==> Canonicalize(lib, c.value, environment, allowLegacyDefault) == c
  {
    if Canonicalize(lib, value, environment, allowLegacyDefault).Some? {
      var o := ParseOrigin(lib, value).value;
      ParsedIsValid(lib, value);
      RenderParses(lib, o);
      RenderFromKey(lib, o, ParseOrigin(lib, Render(lib, o)).value);
    }
  }

  /** Two accepted addresses, in whatever environments, have the same canonical form exactly when
      they agree on scheme, host and effective port. */
  lemma CanonicalFormIsCompleteKey(
      lib: Library, a: string, environmentA: string, allowA: bool, b: string, environmentB: string, allowB: bool)
    requires SoundLibrary(lib)
    ensures var c, d := Canonicalize(lib, a, environmentA, allowA), Canonicalize(lib, b, environmentB, allowB);
      c.Some? && d.Some? ==>
        (c == d <==> KeyOf(lib, ParseOrigin(lib, a).value) == KeyOf(lib, ParseOrigin(lib, b).value))
  {
    if Canonicalize(lib, a, environmentA, allowA).Some? && Canonicalize(lib, b, environmentB, allowB).Some? {
      var o, p := ParseOrigin(lib, a).value, ParseOrigin(lib, b).value;
      ParsedIsValid(lib, a);
      ParsedIsValid(lib, b);
      RenderParses(lib, o);
      RenderParses(lib, p);
      if KeyOf(lib, o) == KeyOf(lib, p) {
        RenderFromKey(lib, o, p);
      }
    }
  }

  /** Outside the loopback environments http is accepted for one form only, the legacy default,
      and then only with the flag. */
  lemma HttpOutsideLoopback(lib: Library, value: string, environment: string, allowLegacyDefault: bool)
    ensures var c := Canonicalize(lib, value, environment, allowLegacyDefault);
      c.Some? && Lower(Strip(environment)) !in LOOPBACK_ENVIRONMENTS ==>
        "https://" <= c.value || (allowLegacyDefault && c.value == DEFAULT_PUBLIC_BASE_URL)
  {
    if Canonicalize(lib, value, environment, allowLegacyDefault).Some? {
      var o := ParseOrigin(lib, value).value;
      ParsedScheme(lib, value);
      if o.scheme == "https" {
        RenderStarts(lib, o);
      }
    }
  }

  lemma ParsedScheme(lib: Library, value: string)
    requires ParseOrigin(lib, value).Some?
    ensures ParseOrigin(lib, value).value.scheme in {"http", "https"}
  {
    SplitScheme(Strip(value));
  }

  lemma SplitScheme(raw: string)
    requires SplitUrl(raw).Some?
    ensures SplitUrl(raw).value.0 in {"http", "https"}
  {
  }

  lemma RenderStarts(lib: Library, o: Origin)
    ensures o.scheme + "://" <= Render(lib, o)
  {
    assert Render(lib, o) == (o.scheme + "://") + (HostPart(lib, o) + PortPart(o));
  }
}

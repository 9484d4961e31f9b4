/**
 Which texts canonicalize_origin accepts, and as what: a declarative grammar of the accepted texts,
 proved equivalent to the parser, and the exact rule for http.
 */
module OriginGrammar {
  import opened Wrappers
  import opened Whitespace
  import opened Digits
  import opened CanonicalOrigin

  // ---------- The rule for http

  /** localhost, a dotted address whose first octet is 127, or a loopback IPv6 address. */
  predicate Loopback(lib: Library, host: Host) {
    || host == Named("localhost")
    || (host.Literal4? && "127." <= host.text)
    || (host.Literal6? && lib.loopback6(host.v))
  }

  lemma FirstPart(s: string)
    requires |Split(s, '.')| > 1
    ensures Split(s, '.')[0] == "127" <==> "127." <= s
  {
    var i := Index(s, '.');
    if "127." <= s {
      IndexOfFirst("127", '.', s[4..]);
      assert s == "127" + ['.'] + s[4..];
    }
  }

  /** What an http origin needs, and https does not. */
  predicate HttpAllowed(lib: Library, o: Origin, environment: string, allowLegacyDefault: bool) {
    && Loopback(lib, o.host)
    && (|| Lower(Strip(environment)) in {"development", "development-local", "logic-test", "test", "testing"}
        || (allowLegacyDefault && Render(lib, o) == "http://localhost:8000"))
  }

  lemma LoopbackExactly(lib: Library, host: Host)
    requires host.Literal4? ==> IsIPv4(host.text)
    ensures IsLoopback(lib, host) <==> Loopback(lib, host)
  {
    if host.Literal4? {
      FirstPart(host.text);
    }
  }

  lemma PermittedExactly(lib: Library, o: Origin, environment: string, allowLegacyDefault: bool)
    requires o.host.Literal4? ==> IsIPv4(o.host.text)
    ensures Permitted(lib, o, environment, allowLegacyDefault) <==>
      (o.scheme == "http" ==> HttpAllowed(lib, o, environment, allowLegacyDefault))
  {
    LoopbackExactly(lib, o.host);
  }

  /** An https origin is always accepted. An http origin is accepted exactly when its host is loopback
      and either the environment is one of the five or the flag is set for the legacy default. What is
      accepted is returned in its canonical form; what does not parse is never accepted. */
  lemma AcceptedExactly(lib: Library, value: string, environment: string, allowLegacyDefault: bool)
    ensures var parsed := ParseOrigin(lib, value);
      Canonicalize(lib, value, environment, allowLegacyDefault) ==
      if && parsed.Some?
         && (parsed.value.scheme == "http" ==> HttpAllowed(lib, parsed.value, environment, allowLegacyDefault))
      then Some(Render(lib, parsed.value)) else None
    ensures ParseOrigin(lib, value).Some? ==> ParseOrigin(lib, value).value.scheme in {"http", "https"}
  {
    if ParseOrigin(lib, value).Some? {
      ParsedScheme(lib, value);
      ParsedLiteral(lib, value);
      PermittedExactly(lib, ParseOrigin(lib, value).value, environment, allowLegacyDefault);
    }
  }

  lemma ParsedLiteral(lib: Library, value: string)
    requires ParseOrigin(lib, value).Some?
    ensures ParseOrigin(lib, value).value.host.Literal4? ==> IsIPv4(ParseOrigin(lib, value).value.host.text)
  {
    var (_, authority) := SplitUrl(Strip(value)).value;
    var a := SplitAuthority(authority).value;
    HostLiteral(lib, a.bracketed, a.host);
  }

  lemma HostLiteral(lib: Library, bracketed: bool, text: string)
    requires ParseHost(lib, bracketed, text).Some?
    ensures ParseHost(lib, bracketed, text).value.Literal4? ==> IsIPv4(ParseHost(lib, bracketed, text).value.text)
  {
  }

  /** The host as it is shown, with brackets around an IPv6 address. */
  function ShownHost(lib: Library, host: Host): string {
    match host
    case Named(name) => name
    case Literal4(text) => text
    case Literal6(v) => ['['] + Lower(lib.print6(v)) + [']']
  }

  /** The port, unless it is 80 for http or 443 for https. */
  function ShownPort(scheme: string, port: Option<nat>): string {
    match port
    case None => ""
    case Some(n) => if (scheme == "http" && n == 80) || (scheme == "https" && n == 443) then "" else [':'] + Decimal(n)
  }

  lemma ShownExactly(lib: Library, o: Origin)
    requires ValidHost(lib, o.host) && o.scheme in {"http", "https"}
    ensures HostPart(lib, o) == ShownHost(lib, o.host) && PortPart(o) == ShownPort(o.scheme, o.port)
  {
    HostNameFacts(lib, o.host);
  }

  /** The canonical text of an accepted address: scheme, host and port, and never a slash. */
  lemma CanonicalText(lib: Library, value: string)
    requires SoundLibrary(lib)
    ensures ParseOrigin(lib, value).Some? ==>
      var o := ParseOrigin(lib, value).value;
      Render(lib, o) == o.scheme + "://" + (ShownHost(lib, o.host) + ShownPort(o.scheme, o.port))
  {
    if ParseOrigin(lib, value).Some? {
      ParsedIsValid(lib, value);
      ShownExactly(lib, ParseOrigin(lib, value).value);
    }
  }

  /** Its host is in lower case. */
  lemma ParsedLowers(lib: Library, value: string)
    requires ParseOrigin(lib, value).Some?
    ensures match ParseOrigin(lib, value).value.host
            case Named(name) => Lower(name) == name
            case Literal4(text) => Lower(text) == text
            case Literal6(v) => true
  {
    var (_, authority) := SplitUrl(Strip(value)).value;
    var a := SplitAuthority(authority).value;
    HostLowers(lib, a.bracketed, a.host);
  }

  lemma HostLowers(lib: Library, bracketed: bool, text: string)
    requires ParseHost(lib, bracketed, text).Some?
    ensures match ParseHost(lib, bracketed, text).value
            case Named(name) => Lower(name) == name
            case Literal4(address) => Lower(address) == address
            case Literal6(v) => true
  {
    var host := RStripDots(text);
    if !bracketed && IsIPv4(host) {
      PlainHostFacts(host);
      AddressCharacters(host);
    } else if !bracketed {
      LowerIdempotent(if IsAscii(host) then host else lib.idna(host).value);
    }
  }

  lemma AddressCharacters(s: string)
    requires IsIPv4(s)
    ensures Lower(s) == s
  {
    forall i | 0 <= i < |s| ensures LowerChar(s[i]) == s[i] {
      assert s[i] in s;
      if s[i] != '.' {
        SplitCovers(s, '.', s[i]);
      }
    }
  }

  // ---------- Ports

  function Zeros(k: nat): string {
    if k == 0 then "" else Zeros(k - 1) + ['0']
  }

  predicate AllDigits(s: string) {
    forall i | 0 <= i < |s| :: '0' <= s[i] <= '9'
  }

  lemma ValueSnoc(front: string, c: char)
    ensures Value(front + [c], 10) ==
      if Value(front, 10).None? || DigitValue(c, 10).None? then None
      else Some(Value(front, 10).value * 10 + DigitValue(c, 10).value)
    ensures AllDigits(front + [c]) <==> AllDigits(front) && '0' <= c <= '9'
  {
    var s := front + [c];
    assert s[..|s| - 1] == front && s[|s| - 1] == c;
    assert forall i | 0 <= i < |front| :: s[i] == front[i];
  }

  lemma {:induction false} ZerosAre(k: nat)
    ensures AllDigits(Zeros(k)) && Value(Zeros(k), 10) == Some(0)
  {
    if k > 0 {
      ZerosAre(k - 1);
      ValueSnoc(Zeros(k - 1), '0');
    }
  }

  lemma DecimalLast(n: nat)
    ensures Decimal(n) == (if n < 10 then "" else Decimal(n / 10)) + [DigitChar(n % 10)]
  {
  }

  lemma Regroup(a: string, b: string, c: char)
    ensures a + (b + [c]) == (a + b) + [c]
  {
  }

  lemma {:induction false} ZerosThenDecimal(k: nat, n: nat)
    ensures AllDigits(Zeros(k) + Decimal(n)) && Value(Zeros(k) + Decimal(n), 10) == Some(n)
  {
    var last := DigitChar(n % 10);
    DecimalLast(n);
    DigitRoundTrip(n % 10, 10);
    if n >= 10 {
      ZerosThenDecimal(k, n / 10);
      Regroup(Zeros(k), Decimal(n / 10), last);
      ValueSnoc(Zeros(k) + Decimal(n / 10), last);
    } else {
      ZerosAre(k);
      Regroup(Zeros(k), "", last);
      assert Zeros(k) + "" == Zeros(k);
      ValueSnoc(Zeros(k), last);
    }
  }

  lemma LastDigit(c: char)
    requires '0' <= c <= '9'
    ensures DigitValue(c, 10).Some? && DigitValue(c, 10).value < 10 && DigitChar(DigitValue(c, 10).value) == c
  {
  }

  /** Some zeros, behind them the number without leading zeros; zeros alone stand for 0. */
  function Padded(k: nat, n: nat): string {
    if n == 0 then Zeros(k) else Zeros(k) + Decimal(n)
  }

  lemma PaddedSnoc(k: nat, m: nat, d: nat)
    requires d < 10
    ensures Padded(k, m) + [DigitChar(d)] == if m == 0 && d == 0 then Padded(k + 1, 0) else Padded(k, 10 * m + d)
  {
    if m > 0 {
      var n := 10 * m + d;
      assert n / 10 == m && n % 10 == d;
      DecimalLast(n);
      assert Decimal(n) == Decimal(m) + [DigitChar(d)];
      Regroup(Zeros(k), Decimal(m), DigitChar(d));
    } else if d > 0 {
      assert Decimal(d) == [DigitChar(d)];
    }
  }

  /** Digit text is a number without leading zeros behind some zeros. */
  lemma {:induction false} DigitsAreNumber(s: string) returns (k: nat)
    requires AllDigits(s)
    ensures Value(s, 10).Some? && s == Padded(k, Value(s, 10).value)
  {
    k := 0;
    if s != [] {
      var front, last := s[..|s| - 1], s[|s| - 1];
      k := DigitsAreNumber(front);
      LastDigit(last);
      assert s == front + [last];
      ValueSnoc(front, last);
      PaddedSnoc(k, Value(front, 10).value, DigitValue(last, 10).value);
      k := if Value(s, 10).value == 0 then k + 1 else k;
    }
  }

  /** No port, or leading zeros and a port between 1 and 65535, at most 4300 digits in all. */
  ghost predicate PortReads(text: Option<string>, port: Option<nat>) {
    match port
    case None => text == None
    case Some(n) =>
      1 <= n <= 65535 && text.Some? && |text.value| <= 4300 && exists k: nat :: text.value == Zeros(k) + Decimal(n)
  }

  lemma DigitChars(s: string)
    ensures (exists c | c in s :: !('0' <= c <= '9')) <==> !AllDigits(s)
  {
    if i :| 0 <= i < |s| && !('0' <= s[i] <= '9') {
      assert s[i] in s;
    }
  }

  lemma PortsExactly(text: Option<string>, port: Option<nat>)
    ensures ParsePort(text) == Some(port) <==> PortReads(text, port)
  {
    if text.Some? {
      DigitChars(text.value);
      if AllDigits(text.value) {
        var k := DigitsAreNumber(text.value);
      }
      if port.Some? {
        forall j: nat | text.value == Zeros(j) + Decimal(port.value)
          ensures AllDigits(text.value) && Value(text.value, 10) == Some(port.value)
        {
          ZerosThenDecimal(j, port.value);
        }
      }
    }
  }

  // ---------- Dotted texts

  function Join(parts: seq<string>): string
    requires parts != []
  {
    if |parts| == 1 then parts[0] else parts[0] + ['.'] + Join(parts[1..])
  }

  lemma JoinCons(x: string, parts: seq<string>)
    requires parts != []
    ensures Join([x] + parts) == x + ['.'] + Join(parts)
  {
    assert ([x] + parts)[1..] == parts;
  }

  lemma SplitAt(s: string, i: nat)
    requires i < |s| && s[i] == '.' && '.' !in s[..i]
    ensures Split(s, '.') == [s[..i]] + Split(s[i + 1..], '.')
  {
    assert s == s[..i] + ['.'] + s[i + 1..];
    IndexOfFirst(s[..i], '.', s[i + 1..]);
  }

  lemma {:induction false} JoinOfSplit(s: string)
    ensures Join(Split(s, '.')) == s
    decreases |s|
  {
    var i := Index(s, '.');
    if i < |s| {
      JoinOfSplit(s[i + 1..]);
      SplitAt(s, i);
      JoinCons(s[..i], Split(s[i + 1..], '.'));
      assert s == s[..i] + ['.'] + s[i + 1..];
    }
  }

  lemma SplitCons(x: string, rest: string)
    requires '.' !in x
    ensures Split(x + ['.'] + rest, '.') == [x] + Split(rest, '.')
  {
    var s := x + ['.'] + rest;
    assert s[..|x|] == x && s[|x| + 1..] == rest;
    SplitAt(s, |x|);
  }

  ghost predicate NoDots(parts: seq<string>) {
    forall i | 0 <= i < |parts| :: '.' !in parts[i]
  }

  lemma {:induction false} SplitOfJoin(parts: seq<string>)
    requires parts != [] && NoDots(parts)
    ensures Split(Join(parts), '.') == parts
  {
    if |parts| > 1 {
      var rest := parts[1..];
      assert parts == [parts[0]] + rest;
      SplitOfJoin(rest);
      JoinCons(parts[0], rest);
      SplitCons(parts[0], Join(rest));
    }
  }

  // ---------- Addresses of four octets

  lemma {:induction false} NoLeadingZero(n: nat)
    requires n > 0
    ensures Decimal(n)[0] != '0'
  {
    DecimalLast(n);
    if n >= 10 {
      NoLeadingZero(n / 10);
    }
  }

  lemma ZerosStart(k: nat)
    requires k > 0
    ensures |Zeros(k)| == k && Zeros(k)[0] == '0'
    decreases k
  {
    if k > 1 {
      ZerosStart(k - 1);
    }
  }

  ghost predicate Octet(s: string) {
    exists n: nat :: n <= 255 && s == Decimal(n)
  }

  lemma OctetsExactly(s: string)
    ensures ValidOctet(s) <==> Octet(s)
  {
    if ValidOctet(s) {
      ValidIsOctet(s);
    }
    if Octet(s) {
      var n: nat :| n <= 255 && s == Decimal(n);
      DecimalOctet(n);
    }
  }

  lemma ValidIsOctet(s: string)
    requires ValidOctet(s)
    ensures Octet(s)
  {
    forall i | 0 <= i < |s| ensures '0' <= s[i] <= '9' {
      assert s[i] in s;
    }
    var k := DigitsAreNumber(s);
    var n := Value(s, 10).value;
    if k > 0 {
      ZerosStart(k);
    }
    if n > 0 {
      assert s == Decimal(n);
    } else {
      assert s == "0" == Decimal(0);
    }
  }

  lemma DecimalOctet(n: nat)
    requires n <= 255
    ensures ValidOctet(Decimal(n)) && '.' !in Decimal(n)
  {
    assert Pow10(3) == 10 * Pow10(2) && Pow10(2) == 10 * Pow10(1) && Pow10(1) == 10;
    DecimalWidth(n, 3);
    DecimalRoundTrip(n);
    if n > 0 {
      NoLeadingZero(n);
    }
  }

  /** Four decimal numbers up to 255 without leading zeros, separated by dots. */
  ghost predicate Dotted4(s: string) {
    exists parts: seq<string> :: |parts| == 4 && Octets(parts) && s == Join(parts)
  }

  ghost predicate Octets(parts: seq<string>) {
    forall i | 0 <= i < |parts| :: Octet(parts[i])
  }

  lemma OctetsHaveNoDots(parts: seq<string>)
    requires Octets(parts)
    ensures NoDots(parts) && forall part | part in parts :: ValidOctet(part)
  {
    forall i | 0 <= i < |parts| ensures '.' !in parts[i] && ValidOctet(parts[i]) {
      var n: nat :| n <= 255 && parts[i] == Decimal(n);
      DecimalOctet(n);
    }
  }

  lemma AddressesExactly(s: string)
    ensures IsIPv4(s) <==> Dotted4(s)
  {
    var parts := Split(s, '.');
    JoinOfSplit(s);
    if IsIPv4(s) {
      forall i | 0 <= i < |parts| ensures Octet(parts[i]) {
        assert parts[i] in parts;
        OctetsExactly(parts[i]);
      }
      assert Octets(parts);
    }
    if Dotted4(s) {
      var octets: seq<string> :| |octets| == 4 && Octets(octets) && s == Join(octets);
      OctetsHaveNoDots(octets);
      SplitOfJoin(octets);
    }
  }

  // ---------- Names

  /** Up to 63 letters and digits, with hyphens only between others. */
  predicate Label(s: string) {
    && 1 <= |s| <= 63
    && forall i | 0 <= i < |s| ::
         || 'a' <= s[i] <= 'z' || 'A' <= s[i] <= 'Z' || '0' <= s[i] <= '9'
         || (s[i] == '-' && 0 < i < |s| - 1)
  }

  lemma LabelsExactly(s: string)
    ensures ValidLabel(s) <==> Label(s)
  {
    if ValidLabel(s) {
      forall i | 0 <= i < |s|
        ensures LetterOrDigit(s[i]) || (s[i] == '-' && 0 < i < |s| - 1)
      {
        assert s[i] in s;
      }
    }
    if Label(s) {
      assert LetterOrDigit(s[0]) && LetterOrDigit(s[|s| - 1]);
    }
  }

  ghost predicate Labels(parts: seq<string>) {
    forall i | 0 <= i < |parts| :: Label(parts[i])
  }

  /** Labels separated by dots, at most 253 characters in all. */
  ghost predicate Name(s: string) {
    |s| <= 253 && exists labels: seq<string> :: labels != [] && Labels(labels) && s == Join(labels)
  }

  lemma LabelsHaveNoDots(parts: seq<string>)
    requires Labels(parts)
    ensures NoDots(parts) && forall part | part in parts :: ValidLabel(part)
  {
    forall i | 0 <= i < |parts| ensures '.' !in parts[i] && ValidLabel(parts[i]) {
      assert Label(parts[i]);
      LabelsExactly(parts[i]);
    }
  }

  lemma NamesExactly(s: string)
    ensures ValidName(s) <==> Name(s)
  {
    var parts := Split(s, '.');
    JoinOfSplit(s);
    if ValidName(s) {
      forall i | 0 <= i < |parts| ensures Label(parts[i]) {
        assert parts[i] in parts;
        LabelsExactly(parts[i]);
      }
      assert Labels(parts);
    }
    if Name(s) {
      var labels: seq<string> :| labels != [] && Labels(labels) && s == Join(labels);
      LabelsHaveNoDots(labels);
      SplitOfJoin(labels);
    }
  }

  // ---------- Hosts

  predicate AllDots(s: string) {
    forall i | 0 <= i < |s| :: s[i] == '.'
  }

  /** The text in front of the dots at the end. */
  predicate Bare(text: string, bare: string) {
    bare <= text && AllDots(text[|bare|..]) && (bare != "" ==> bare[|bare| - 1] != '.')
  }

  lemma {:induction false} DotsExactly(s: string, bare: string)
    ensures RStripDots(s) == bare <==> Bare(s, bare)
  {
    if s != "" && s[|s| - 1] == '.' {
      var front := s[..|s| - 1];
      DotsExactly(front, bare);
      if bare <= s && |bare| < |s| {
        assert bare <= front && s[|bare|..] == front[|bare|..] + ['.'];
        assert s[|bare|..][..|front| - |bare|] == front[|bare|..];
      }
      if bare <= front && AllDots(front[|bare|..]) {
        assert s[|bare|..] == front[|bare|..] + ['.'];
      }
    } else if s != "" && bare <= s && |bare| < |s| {
      assert s[|bare|..][|s| - |bare| - 1] == s[|s| - 1];
    }
  }

  /** Four octets, or else a name, in IDNA form when it is not ASCII. */
  ghost predicate BareReads(lib: Library, bare: string, host: Host) {
    if Dotted4(bare) then host == Literal4(bare)
    else
      && (IsAscii(bare) || lib.idna(bare).Some?)
      && host == Named(Lower(if IsAscii(bare) then bare else lib.idna(bare).value)) && Name(host.name)
  }

  /** The host as written in brackets, or bare in front of any number of dots. */
  ghost predicate HostReads(lib: Library, bracketed: bool, text: string, host: Host) {
    if bracketed then '%' !in text && lib.parse6(text).Some? && host == Literal6(lib.parse6(text).value)
    else exists bare: string :: bare != "" && Bare(text, bare) && BareReads(lib, bare, host)
  }

  lemma BareExactly(lib: Library, bare: string, host: Host)
    requires bare != "" && Bare(bare, bare)
    ensures ParseHost(lib, false, bare) == Some(host) <==> BareReads(lib, bare, host)
  {
    DotsExactly(bare, bare);
    AddressesExactly(bare);
    if IsAscii(bare) {
      NamesExactly(Lower(bare));
    } else if lib.idna(bare).Some? {
      NamesExactly(Lower(lib.idna(bare).value));
    }
  }

  lemma DotsIgnored(lib: Library, text: string, bare: string)
    requires Bare(text, bare)
    ensures Bare(bare, bare) && ParseHost(lib, false, text) == ParseHost(lib, false, bare)
  {
    DotsExactly(text, bare);
    DotsExactly(bare, bare);
  }

  lemma HostsExactly(lib: Library, bracketed: bool, text: string, host: Host)
    ensures ParseHost(lib, bracketed, text) == Some(host) <==> HostReads(lib, bracketed, text, host)
  {
    if !bracketed {
      var stripped := RStripDots(text);
      DotsExactly(text, stripped);
      DotsIgnored(lib, text, stripped);
      if stripped != "" {
        BareExactly(lib, stripped, host);
      }
      forall bare: string | Bare(text, bare) ensures bare == stripped {
        DotsExactly(text, bare);
      }
    }
  }

  // ---------- Authorities

  function PortSuffix(port: Option<string>): string {
    if port.None? then "" else [':'] + port.value
  }

  function HostText(bracketed: bool, text: string): string {
    if bracketed then ['['] + text + [']'] else text
  }

  /** Host and port as written: an IPv6 text in brackets or anything without brackets and colons, and
      a port behind a colon. */
  predicate AuthorityReads(a: string, written: Authority) {
    && a == HostText(written.bracketed, written.host) + PortSuffix(written.port)
    && a != "" && '@' !in a && (forall i | 0 <= i < |a| :: !IsSpace(a[i]))
    && '[' !in written.host && ']' !in written.host
    && (written.port.Some? ==> '[' !in written.port.value && ']' !in written.port.value)
    && if written.bracketed then written.host != ""
       else ':' !in written.host && (written.port.Some? ==> ':' !in written.port.value)
  }

  lemma Spaces(a: string)
    ensures (exists c | c in a :: IsSpace(c)) <==> !(forall i | 0 <= i < |a| :: !IsSpace(a[i]))
  {
    if i :| 0 <= i < |a| && IsSpace(a[i]) {
      assert a[i] in a;
    }
  }

  lemma BracketPieces(text: string, suffix: string)
    requires ']' !in text
    ensures var a := ['['] + text + [']'] + suffix;
      && a[0] == '[' && Index(a, ']') == |text| + 1
      && a[1..] == text + [']'] + suffix && a[1..|text| + 1] == text && a[|text| + 2..] == suffix
  {
    IndexOfFirst(['['] + text, ']', suffix);
  }

  lemma BracketsFound(a: string, written: Authority)
    requires AuthorityReads(a, written) && written.bracketed
    ensures SplitAuthority(a) == Some(written)
  {
    var text, suffix := written.host, PortSuffix(written.port);
    Spaces(a);
    BracketPieces(text, suffix);
    if written.port.Some? {
      assert suffix[1..] == written.port.value;
    }
  }

  lemma NoBracketsFound(a: string, written: Authority)
    requires AuthorityReads(a, written) && !written.bracketed
    ensures SplitAuthority(a) == Some(written)
  {
    Spaces(a);
    assert '[' !in a && ']' !in a;
    if written.port.Some? {
      assert a == written.host + [':'] + written.port.value;
      IndexOfFirst(written.host, ':', written.port.value);
      assert a[..|written.host|] == written.host && a[|written.host| + 1..] == written.port.value;
    } else {
      assert a == written.host;
    }
  }

  lemma BracketsAreWritten(a: string)
    requires SplitAuthority(a).Some? && a[0] == '['
    ensures AuthorityReads(a, SplitAuthority(a).value)
  {
    var closing := Index(a, ']');
    var text, suffix := a[1..closing], a[closing + 1..];
    Spaces(a);
    assert a == ['['] + text + [']'] + suffix;
    assert a[1..] == text + [']'] + suffix;
    assert a[..closing] == ['['] + text;
    assert suffix != [] ==> suffix == [':'] + suffix[1..];
  }

  lemma NoBracketsAreWritten(a: string)
    requires SplitAuthority(a).Some? && a[0] != '['
    ensures AuthorityReads(a, SplitAuthority(a).value)
  {
    var colon := Index(a, ':');
    Spaces(a);
    assert colon < |a| ==> a == a[..colon] + [':'] + a[colon + 1..];
  }

  lemma AuthoritiesExactly(a: string, written: Authority)
    ensures SplitAuthority(a) == Some(written) <==> AuthorityReads(a, written)
  {
    if AuthorityReads(a, written) {
      if written.bracketed {
        BracketsFound(a, written);
      } else {
        NoBracketsFound(a, written);
      }
    }
    if SplitAuthority(a) == Some(written) {
      if a[0] == '[' {
        BracketsAreWritten(a);
      } else {
        NoBracketsAreWritten(a);
      }
    }
  }

  // ---------- URLs

  /** Scheme in any case, authority, and at most one slash. */
  predicate UrlReads(raw: string, scheme: string, netloc: string, slash: string) {
    && raw == scheme + "://" + netloc + slash
    && Lower(scheme) in {"http", "https"} && netloc != "" && '/' !in netloc && slash in {"", "/"}
  }

  lemma SchemeHasNoColon(scheme: string)
    requires Lower(scheme) in {"http", "https"}
    ensures ':' !in scheme
  {
    assert ':' !in Lower(scheme);
    forall i | 0 <= i < |scheme| ensures scheme[i] != ':' {
      assert Lower(scheme)[i] in Lower(scheme);
    }
  }

  lemma AuthorityFound(netloc: string, slash: string)
    requires netloc != "" && '/' !in netloc && slash in {"", "/"}
    ensures AuthorityOf("//" + netloc + slash) == Some(netloc)
  {
    var rest := "//" + netloc + slash;
    assert rest[2..] == netloc + slash;
    if slash == "/" {
      assert netloc + slash == netloc + ['/'] + "";
      IndexOfFirst(netloc, '/', "");
    } else {
      assert netloc + slash == netloc;
    }
    assert (netloc + slash)[..|netloc|] == netloc && (netloc + slash)[|netloc|..] == slash;
  }

  lemma UrlFound(raw: string, scheme: string, netloc: string, slash: string)
    requires UrlReads(raw, scheme, netloc, slash)
    ensures SplitUrl(raw) == Some((Lower(scheme), netloc))
  {
    SchemeHasNoColon(scheme);
    assert raw == scheme + [':'] + ("//" + netloc + slash);
    IndexOfFirst(scheme, ':', "//" + netloc + slash);
    assert raw[..|scheme|] == scheme && raw[|scheme| + 1..] == "//" + netloc + slash;
    AuthorityFound(netloc, slash);
  }

  lemma AuthorityIsWritten(rest: string) returns (slash: string)
    requires AuthorityOf(rest).Some?
    ensures rest == "//" + AuthorityOf(rest).value + slash && slash in {"", "/"}
    ensures AuthorityOf(rest).value != "" && '/' !in AuthorityOf(rest).value
  {
    var behind := rest[2..];
    var cut := Index(behind, '/');
    slash := behind[cut..];
    assert behind == behind[..cut] + slash;
    assert rest == "//" + behind;
  }

  lemma UrlJoined(raw: string, colon: nat, netloc: string, slash: string)
    requires colon < |raw| && raw[colon] == ':' && raw[colon + 1..] == "//" + netloc + slash
    ensures raw == raw[..colon] + "://" + netloc + slash
  {
    assert raw == raw[..colon] + ([':'] + raw[colon + 1..]);
    assert [':'] + ("//" + netloc + slash) == "://" + netloc + slash;
  }

  lemma SplitIsUrl(raw: string) returns (scheme: string, slash: string)
    requires SplitUrl(raw).Some?
    ensures UrlReads(raw, scheme, SplitUrl(raw).value.1, slash) && Lower(scheme) == SplitUrl(raw).value.0
  {
    var colon := Index(raw, ':');
    var rest := raw[colon + 1..];
    scheme := raw[..colon];
    slash := AuthorityIsWritten(rest);
    UrlJoined(raw, colon, AuthorityOf(rest).value, slash);
  }

  // ---------- Surrounding white space

  predicate AllSpaces(s: string) {
    forall i | 0 <= i < |s| :: IsSpace(s[i])
  }

  /** The text without surrounding white space. */
  ghost predicate Stripped(value: string, raw: string) {
    && (raw != "" ==> !IsSpace(raw[0]) && !IsSpace(raw[|raw| - 1]))
    && exists a: string, b: string :: AllSpaces(a) && AllSpaces(b) && value == a + raw + b
  }

  lemma {:induction false} LStripCut(s: string) returns (a: string)
    ensures AllSpaces(a) && s == a + LStrip(s) && (LStrip(s) != "" ==> !IsSpace(LStrip(s)[0]))
  {
    if s != "" && IsSpace(s[0]) {
      assert s == [s[0]] + s[1..];
      var more := LStripCut(s[1..]);
      a := [s[0]] + more;
      assert AllSpaces(a);
    } else {
      a := "";
    }
  }

  lemma {:induction false} RStripCut(s: string) returns (b: string)
    ensures AllSpaces(b) && s == RStrip(s) + b && (RStrip(s) != "" ==> !IsSpace(RStrip(s)[|RStrip(s)| - 1]))
  {
    if s != "" && IsSpace(s[|s| - 1]) {
      var more := RStripCut(s[..|s| - 1]);
      b := more + [s[|s| - 1]];
      assert s == s[..|s| - 1] + [s[|s| - 1]];
    } else {
      b := "";
      assert s == s + b;
    }
  }

  lemma StripIsStripped(value: string)
    ensures Stripped(value, Strip(value))
  {
    var left := LStrip(value);
    var a := LStripCut(value);
    var b := RStripCut(left);
    assert value == a + Strip(value) + b;
    if Strip(value) != "" {
      assert left[0] == Strip(value)[0];
    }
  }

  lemma {:induction false} LStripSpaces(a: string, rest: string)
    requires AllSpaces(a)
    ensures LStrip(a + rest) == LStrip(rest)
  {
    if a == "" {
      assert a + rest == rest;
    } else {
      assert (a + rest)[1..] == a[1..] + rest;
      LStripSpaces(a[1..], rest);
    }
  }

  lemma {:induction false} RStripSpaces(rest: string, b: string)
    requires AllSpaces(b)
    ensures RStrip(rest + b) == RStrip(rest)
  {
    if b == "" {
      assert rest + b == rest;
    } else {
      var n := |b| - 1;
      assert (rest + b)[..|rest| + n] == rest + b[..n];
      RStripSpaces(rest, b[..n]);
    }
  }

  lemma StrippedIsStrip(value: string, raw: string)
    requires Stripped(value, raw) && raw != ""
    ensures Strip(value) == raw
  {
    var a: string, b: string :| AllSpaces(a) && AllSpaces(b) && value == a + raw + b;
    assert value == a + (raw + b);
    LStripSpaces(a, raw + b);
    assert LStrip(raw + b) == raw + b;
    RStripSpaces(raw, b);
  }

  // ---------- The grammar

  /** The pieces of an accepted text. */
  datatype Written = Written(scheme: string, authority: Authority, slash: string) {
    function Netloc(): string {
      HostText(authority.bracketed, authority.host) + PortSuffix(authority.port)
    }

    function Text(): string {
      scheme + "://" + Netloc() + slash
    }
  }

  /** No query, fragment or backslash, and no control character: nothing below U+0020, and no U+007F. */
  predicate Plain(raw: string) {
    && '?' !in raw && '#' !in raw && '\\' !in raw
    && forall i | 0 <= i < |raw| :: raw[i] as int >= 0x20 && raw[i] as int != 0x7f
  }

  lemma Controls(raw: string)
    ensures (exists c | c in raw :: IsControl(c)) <==>
      !(forall i | 0 <= i < |raw| :: raw[i] as int >= 0x20 && raw[i] as int != 0x7f)
  {
    if i :| 0 <= i < |raw| && IsControl(raw[i]) {
      assert raw[i] in raw;
    }
    if c :| c in raw && IsControl(c) {
      var i :| 0 <= i < |raw| && raw[i] == c;
    }
  }

  /** The pieces are well formed and stand for the origin. */
  ghost predicate StandsFor(lib: Library, w: Written, o: Origin) {
    && Plain(w.Text()) && UrlReads(w.Text(), w.scheme, w.Netloc(), w.slash) && Lower(w.scheme) == o.scheme
    && AuthorityReads(w.Netloc(), w.authority)
    && HostReads(lib, w.authority.bracketed, w.authority.host, o.host)
    && PortReads(w.authority.port, o.port)
  }

  ghost predicate Reads(lib: Library, value: string, o: Origin) {
    exists w: Written :: Stripped(value, w.Text()) && StandsFor(lib, w, o)
  }

  lemma ReadIsParsed(lib: Library, value: string, w: Written, o: Origin)
    requires Stripped(value, w.Text()) && StandsFor(lib, w, o)
    ensures ParseOrigin(lib, value) == Some(o)
  {
    StrippedIsStrip(value, w.Text());
    Controls(w.Text());
    UrlFound(w.Text(), w.scheme, w.Netloc(), w.slash);
    AuthoritiesExactly(w.Netloc(), w.authority);
    HostsExactly(lib, w.authority.bracketed, w.authority.host, o.host);
    PortsExactly(w.authority.port, o.port);
  }

  lemma ParsedIsRead(lib: Library, value: string) returns (w: Written)
    requires ParseOrigin(lib, value).Some?
    ensures Stripped(value, w.Text()) && StandsFor(lib, w, ParseOrigin(lib, value).value)
  {
    var raw, o := Strip(value), ParseOrigin(lib, value).value;
    StripIsStripped(value);
    Controls(raw);
    var scheme, slash := SplitIsUrl(raw);
    var netloc := SplitUrl(raw).value.1;
    var authority := SplitAuthority(netloc).value;
    AuthoritiesExactly(netloc, authority);
    HostsExactly(lib, authority.bracketed, authority.host, o.host);
    PortsExactly(authority.port, o.port);
    w := Written(scheme, authority, slash);
    assert w.Netloc() == netloc && w.Text() == raw;
  }

  /** The parser accepts exactly the texts of the grammar, as exactly the origins they stand for. */
  lemma ParsesExactly(lib: Library, value: string, o: Origin)
    ensures ParseOrigin(lib, value) == Some(o) <==> Reads(lib, value, o)
  {
    if Reads(lib, value, o) {
      var w: Written :| Stripped(value, w.Text()) && StandsFor(lib, w, o);
      ReadIsParsed(lib, value, w, o);
    }
    if ParseOrigin(lib, value) == Some(o) {
      var w := ParsedIsRead(lib, value);
    }
  }
}

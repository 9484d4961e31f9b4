/**
 Identities used by the device relay: UUID text, the full session binding, the
 generic relay binding derived from it, ticket claims with their stored form, and
 the store key strings.
 */
module RelayIdentity {
  import opened Wrappers
  import opened Whitespace
  import opened Digits

  type Uuid = n: nat | n < 0x1_0000_0000_0000_0000_0000_0000_0000_0000

  datatype Role = Device | Proxy {
    function Peer(): Role {
      if Device? then Proxy else Device
    }

    function Text(): string {
      if Device? then "device" else "proxy"
    }
  }

  datatype BindingKind = DeviceControl | EgoBrowser

  datatype RelayBinding = RelayBinding(kind: BindingKind, bindingId: Uuid, generation: int)

  datatype DeviceRelayBinding = DeviceRelayBinding(
    userId: Uuid, deviceId: Uuid, toolSessionId: Uuid, deviceSessionId: Uuid, nodeId: Uuid, generation: int) {

    /** The relay identity: only the device session and its generation. */
    function Relay(): RelayBinding {
      RelayBinding(DeviceControl, deviceSessionId, generation)
    }
  }

  datatype Claims = Claims(binding: DeviceRelayBinding, role: Role, credentialId: Option<Uuid>)

  // ---------- UUID text (section 4 of RFC 9562)

  /** The text cut into groups of the given widths and the rest, joined by hyphens. */
  function Grouped(h: string, widths: seq<nat>): (s: string)
    requires Total(widths) <= |h|
    ensures |s| == |h| + |widths|
    decreases |widths|
  {
    if widths == [] then h else h[..widths[0]] + ("-" + Grouped(h[widths[0]..], widths[1..]))
  }

  function Total(widths: seq<nat>): nat {
    if widths == [] then 0 else widths[0] + Total(widths[1..])
  }

  const UUID_GROUPS: seq<nat> := [8, 4, 4, 4]

  function UuidText(u: Uuid): (s: string)
    ensures |s| == 36
  {
    assert Total(UUID_GROUPS) == 20 by {
      assert Total(UUID_GROUPS[1..][1..][1..]) == 4;
    }
    Grouped(Hex(u, 32), UUID_GROUPS)
  }

  function WithoutDashes(s: string): string {
    if s == [] then []
    else if s[0] == '-' then WithoutDashes(s[1..])
    else [s[0]] + WithoutDashes(s[1..])
  }

  /** text.replace(part, ""): occurrences are found from the left and do not overlap. */
  function RemoveAll(s: string, part: string): string
    requires part != []
    decreases |s|
  {
    if |s| < |part| then s
    else if s[..|part|] == part then RemoveAll(s[|part|..], part)
    else [s[0]] + RemoveAll(s[1..], part)
  }

  predicate IsBrace(c: char) {
    c == '{' || c == '}'
  }

  function LStripBraces(s: string): string {
    if s != [] && IsBrace(s[0]) then LStripBraces(s[1..]) else s
  }

  function RStripBraces(s: string): string {
    if s != [] && IsBrace(s[|s| - 1]) then RStripBraces(s[..|s| - 1]) else s
  }

  /** What stands behind a prefix 0x and one underscore, or the text itself. */
  function BehindPrefix(s: string): string {
    if |s| < 2 || s[0] != '0' || (s[1] != 'x' && s[1] != 'X') then s
    else if |s| > 2 && s[2] == '_' then s[3..]
    else s[2..]
  }

  /** int(text, 16) of a text without minus signs. */
  function ParseHex(s: string): Option<nat> {
    var t := Strip(s);
    var digits := BehindPrefix(if t != [] && t[0] == '+' then t[1..] else t);
    if digits == [] || !WellGrouped(digits) then None else Value(WithoutUnderscores(digits), 16)
  }

  /** UUID(text): urn: and uuid: anywhere, braces at the ends and all hyphens are removed; what is left
      has to be 32 characters that int(text, 16) accepts. */
  function ParseUuid(s: string): Option<Uuid> {
    var h := WithoutDashes(RStripBraces(LStripBraces(RemoveAll(RemoveAll(s, "urn:"), "uuid:"))));
    if |h| != 32 then None
    else
      match ParseHex(h)
      case None => None
      case Some(n) => if n < 0x1_0000_0000_0000_0000_0000_0000_0000_0000 then Some(n as Uuid) else None
  }

  lemma Pow16Of32()
    ensures Pow16(32) == 0x1_0000_0000_0000_0000_0000_0000_0000_0000
  {
    assert Pow16(1) == 16 && Pow16(2) == 256;
    Pow16Sum(2, 2);
    Pow16Sum(4, 4);
    Pow16Sum(8, 8);
    Pow16Sum(16, 16);
  }

  lemma {:induction false} NoDashes(s: string)
    requires '-' !in s
    ensures WithoutDashes(s) == s
  {
    if s != [] {
      NoDashes(s[1..]);
    }
  }

  lemma WithoutDashesHead(c: char, s: string)
    ensures WithoutDashes([c] + s) == (if c == '-' then [] else [c]) + WithoutDashes(s)
  {
    assert ([c] + s)[1..] == s;
  }

  lemma {:induction false} WithoutDashesConcat(a: string, b: string)
    ensures WithoutDashes(a + b) == WithoutDashes(a) + WithoutDashes(b)
  {
    if a == [] {
      assert a + b == b;
    } else {
      assert a + b == [a[0]] + (a[1..] + b);
      WithoutDashesConcat(a[1..], b);
      WithoutDashesHead(a[0], a[1..] + b);
      WithoutDashesHead(a[0], a[1..]);
      assert a == [a[0]] + a[1..];
    }
  }

  lemma {:induction false} HyphenAfter(a: string, rest: string)
    requires '-' !in a
    ensures WithoutDashes(a + ("-" + rest)) == a + WithoutDashes(rest)
  {
    WithoutDashesConcat(a, "-" + rest);
    NoDashes(a);
    assert ("-" + rest)[1..] == rest;
  }

  lemma {:induction false} HyphensVanish(h: string, widths: seq<nat>)
    requires Total(widths) <= |h| && '-' !in h
    ensures WithoutDashes(Grouped(h, widths)) == h
    decreases |widths|
  {
    if widths != [] {
      var first, others := h[..widths[0]], h[widths[0]..];
      assert h == first + others;
      HyphensVanish(others, widths[1..]);
      HyphenAfter(first, Grouped(others, widths[1..]));
    } else {
      NoDashes(h);
    }
  }

  predicate HexChar(c: char) {
    '0' <= c <= '9' || 'a' <= c <= 'f'
  }

  lemma {:induction false} HexChars(n: nat, width: nat)
    ensures forall c | c in Hex(n, width) :: HexChar(c)
  {
    if width > 0 {
      HexChars(n / 16, width - 1);
    }
  }

  lemma {:induction false} GroupedChars(h: string, widths: seq<nat>)
    requires Total(widths) <= |h| && forall c | c in h :: HexChar(c)
    ensures forall c | c in Grouped(h, widths) :: HexChar(c) || c == '-'
    decreases |widths|
  {
    if widths != [] {
      GroupedChars(h[widths[0]..], widths[1..]);
    }
  }

  lemma {:induction false} NothingToRemove(s: string, part: string)
    requires part != [] && part[0] !in s
    ensures RemoveAll(s, part) == s
  {
    if |s| >= |part| {
      assert s[..|part|][0] == s[0] && s[0] in s;
      NothingToRemove(s[1..], part);
    }
  }

  lemma NoPrefix(h: string)
    requires forall c | c in h :: HexChar(c)
    ensures BehindPrefix(h) == h
  {
    if |h| > 1 {
      assert h[1] in h;
    }
  }

  lemma HexParses(h: string)
    requires h != [] && forall c | c in h :: HexChar(c)
    ensures ParseHex(h) == Value(h, 16)
  {
    assert h[0] in h && h[|h| - 1] in h;
    StripNothing(h);
    NoUnderscores(h);
    NoPrefix(h);
  }

  lemma NoWords(t: string)
    requires 'u' !in t
    ensures RemoveAll(RemoveAll(t, "urn:"), "uuid:") == t
  {
    NothingToRemove(t, "urn:");
    NothingToRemove(t, "uuid:");
  }

  lemma NoBraces(t: string)
    requires t != [] && !IsBrace(t[0]) && !IsBrace(t[|t| - 1])
    ensures RStripBraces(LStripBraces(t)) == t
  {
  }

  lemma TextStripped(t: string)
    requires t != [] && forall c | c in t :: HexChar(c) || c == '-'
    ensures RStripBraces(LStripBraces(RemoveAll(RemoveAll(t, "urn:"), "uuid:"))) == t
  {
    assert t[0] in t && t[|t| - 1] in t;
    NoWords(t);
    NoBraces(t);
  }

  lemma UuidTextChars(u: Uuid)
    ensures forall c | c in UuidText(u) :: HexChar(c) || c == '-'
  {
    HexChars(u, 32);
    GroupedChars(Hex(u, 32), UUID_GROUPS);
  }

  /** Nothing but the hyphens is removed from a printed UUID. */
  lemma UuidTextStripped(u: Uuid)
    ensures RStripBraces(LStripBraces(RemoveAll(RemoveAll(UuidText(u), "urn:"), "uuid:"))) == UuidText(u)
  {
    UuidTextChars(u);
    TextStripped(UuidText(u));
  }

  /** Printing a UUID and parsing the text gives the UUID back. */
  lemma UuidRoundTrip(u: Uuid)
    ensures ParseUuid(UuidText(u)) == Some(u)
  {
    Pow16Of32();
    HexRoundTrip(u, 32);
    UuidTextStripped(u);
    HyphensVanish(Hex(u, 32), UUID_GROUPS);
    HexChars(u, 32);
    HexParses(Hex(u, 32));
  }

  lemma RemoveNext(s: string, part: string)
    requires part != [] && s != [] && !(part <= s)
    ensures RemoveAll(s, part) == [s[0]] + RemoveAll(s[1..], part)
  {
  }

  lemma RemoveFirst(part: string, s: string)
    requires part != []
    ensures RemoveAll(part + s, part) == RemoveAll(s, part)
  {
    assert (part + s)[|part|..] == s;
  }

  lemma TwoRemoved(t: string)
    requires 'u' !in t
    ensures RemoveAll(RemoveAll("urn:uuid:" + t, "urn:"), "uuid:") == t
  {
    assert "urn:uuid:" + t == "urn:" + ("uuid:" + t);
    RemoveFirst("urn:", "uuid:" + t);
    UuidWordKept(t);
    RemoveFirst("uuid:", t);
    NothingToRemove(t, "uuid:");
  }

  lemma UuidWordKept(t: string)
    requires 'u' !in t
    ensures RemoveAll("uuid:" + t, "urn:") == "uuid:" + t
  {
    var s := "uuid:" + t;
    assert s[1..] == "uid:" + t && s[2..] == "id:" + t;
    assert s[1] == 'u' && s[1..][1] == 'i' && "urn:"[1] == 'r';
    RemoveNext(s, "urn:");
    assert s[1..][1..] == s[2..];
    RemoveNext(s[1..], "urn:");
    NothingToRemove(s[2..], "urn:");
    assert s == [s[0]] + ([s[1]] + s[2..]);
  }

  lemma BracesRemoved(t: string)
    requires t != [] && !IsBrace(t[0]) && !IsBrace(t[|t| - 1])
    ensures RStripBraces(LStripBraces("{" + t + "}")) == t
  {
    var s := "{" + t + "}";
    assert s[1..] == t + "}";
    assert LStripBraces(s[1..]) == s[1..];
    assert s[1..][..|t|] == t;
  }

  lemma WrittenParses(s: string, u: Uuid)
    requires RStripBraces(LStripBraces(RemoveAll(RemoveAll(s, "urn:"), "uuid:"))) == UuidText(u)
    ensures ParseUuid(s) == Some(u)
  {
    UuidTextStripped(u);
    UuidRoundTrip(u);
  }

  /** The other written forms of a UUID parse to it as well: as a URN, in braces, and without hyphens. */
  lemma OtherForms(u: Uuid)
    ensures ParseUuid("urn:uuid:" + UuidText(u)) == Some(u)
    ensures ParseUuid("{" + UuidText(u) + "}") == Some(u)
    ensures ParseUuid(Hex(u, 32)) == Some(u)
  {
    var t := UuidText(u);
    UuidTextChars(u);
    assert t[0] in t && t[|t| - 1] in t;
    TwoRemoved(t);
    NoBraces(t);
    WrittenParses("urn:uuid:" + t, u);
    NothingToRemove("{" + t + "}", "urn:");
    NothingToRemove("{" + t + "}", "uuid:");
    BracesRemoved(t);
    WrittenParses("{" + t + "}", u);
    PlainHexParses(u);
  }

  lemma PlainHexParses(u: Uuid)
    ensures ParseUuid(Hex(u, 32)) == Some(u)
  {
    Pow16Of32();
    HexRoundTrip(u, 32);
    HexChars(u, 32);
    TextStripped(Hex(u, 32));
    NoDashes(Hex(u, 32));
    HexParses(Hex(u, 32));
  }

  // ---------- The stored form of ticket claims

  /** The nested binding object that issue_ticket writes; None stands for a missing member. */
  datatype BindingFields = BindingFields(
    userId: Option<string>, deviceId: Option<string>, toolSessionId: Option<string>,
    deviceSessionId: Option<string>, nodeId: Option<string>, generation: Option<string>)

  /** The JSON object of a ticket, with JSON's own syntax abstracted away. */
  datatype Payload = Payload(binding: BindingFields, role: string, credentialId: Option<string>)

  function EncodeBinding(b: DeviceRelayBinding): BindingFields {
    BindingFields(
      Some(UuidText(b.userId)), Some(UuidText(b.deviceId)), Some(UuidText(b.toolSessionId)),
      Some(UuidText(b.deviceSessionId)), Some(UuidText(b.nodeId)), Some(Integer(b.generation)))
  }

  function EncodeClaims(c: Claims): Payload {
    Payload(
      EncodeBinding(c.binding),
      c.role.Text(),
      CredentialText(c.credentialId))
  }

  function UuidField(text: Option<string>): Option<Uuid> {
    if text.None? then None else ParseUuid(text.value)
  }

  function DecodeBinding(fields: BindingFields): Option<DeviceRelayBinding> {
    var user := UuidField(fields.userId);
    var device := UuidField(fields.deviceId);
    var tool := UuidField(fields.toolSessionId);
    var session := UuidField(fields.deviceSessionId);
    var node := UuidField(fields.nodeId);
    var generation := if fields.generation.None? then None else ParseInteger(fields.generation.value);
    if user.None? || device.None? || tool.None? || session.None? || node.None? || generation.None? then None
    else Some(DeviceRelayBinding(user.value, device.value, tool.value, session.value, node.value, generation.value))
  }

  function ParseRole(text: string): Option<Role> {
    if text == "device" then Some(Device) else if text == "proxy" then Some(Proxy) else None
  }

  function CredentialText(credentialId: Option<Uuid>): Option<string> {
    if credentialId.None? then None else Some(UuidText(credentialId.value))
  }

  /** A missing or empty member means no credential; other text has to be a UUID. */
  function ParseCredential(text: Option<string>): Option<Option<Uuid>> {
    if text.None? || text.value == "" then Some(None)
    else
      var u := ParseUuid(text.value);
      if u.None? then None else Some(u)
  }

  /** None stands for the exception that a malformed stored payload raises. */
  function DecodeClaims(p: Payload): Option<Claims> {
    var binding := DecodeBinding(p.binding);
    var role := ParseRole(p.role);
    var credential := ParseCredential(p.credentialId);
    if binding.None? || role.None? || credential.None? then None
    else Some(Claims(binding.value, role.value, credential.value))
  }

  lemma BindingRoundTrip(b: DeviceRelayBinding)
    ensures DecodeBinding(EncodeBinding(b)) == Some(b)
  {
    UuidRoundTrip(b.userId);
    UuidRoundTrip(b.deviceId);
    UuidRoundTrip(b.toolSessionId);
    UuidRoundTrip(b.deviceSessionId);
    UuidRoundTrip(b.nodeId);
    IntegerRoundTrip(b.generation);
  }

  lemma RoleRoundTrip(r: Role)
    ensures ParseRole(r.Text()) == Some(r)
  {
    assert Proxy.Text()[0] == 'p';
  }

  lemma CredentialRoundTrip(credentialId: Option<Uuid>)
    ensures ParseCredential(CredentialText(credentialId)) == Some(credentialId)
  {
    if credentialId.Some? {
      UuidRoundTrip(credentialId.value);
      assert |UuidText(credentialId.value)| == 36;
    }
  }

  /** consume_ticket decodes exactly the claims that issue_ticket encoded. */
  lemma ClaimsRoundTrip(c: Claims)
    ensures DecodeClaims(EncodeClaims(c)) == Some(c)
  {
    BindingRoundTrip(c.binding);
    RoleRoundTrip(c.role);
    CredentialRoundTrip(c.credentialId);
  }

  // ---------- Store keys

  const EXCHANGE_PREFIX := "agent-remote:device-relay-exchange:"
  const TICKET_PREFIX := "agent-remote:device-relay-ticket:"

  function ExchangeKey(b: DeviceRelayBinding): string {
    EXCHANGE_PREFIX + UuidText(b.deviceSessionId) + ":" + Integer(b.generation)
  }

  function TicketKey(tokenHash: string): string {
    TICKET_PREFIX + tokenHash
  }

  /** Two bindings share an exchange record exactly when they share a relay identity. */
  lemma ExchangeKeyIdentifiesRelay(a: DeviceRelayBinding, b: DeviceRelayBinding)
    ensures ExchangeKey(a) == ExchangeKey(b) <==> a.Relay() == b.Relay()
  {
    if ExchangeKey(a) == ExchangeKey(b) {
      var n := |EXCHANGE_PREFIX|;
      assert ExchangeKey(a)[n..n + 36] == UuidText(a.deviceSessionId);
      assert ExchangeKey(b)[n..n + 36] == UuidText(b.deviceSessionId);
      assert ExchangeKey(a)[n + 37..] == Integer(a.generation);
      assert ExchangeKey(b)[n + 37..] == Integer(b.generation);
      UuidRoundTrip(a.deviceSessionId);
      UuidRoundTrip(b.deviceSessionId);
      IntegerRoundTrip(a.generation);
      IntegerRoundTrip(b.generation);
    }
  }

  lemma TicketKeyInjective(g: string, h: string)
    ensures TicketKey(g) == TicketKey(h) <==> g == h
  {
    assert TicketKey(g)[|TICKET_PREFIX|..] == g;
    assert TicketKey(h)[|TICKET_PREFIX|..] == h;
  }

  /** Exchange records and tickets never share a key. */
  lemma KeysNeverCollide(b: DeviceRelayBinding, tokenHash: string)
    ensures ExchangeKey(b) != TicketKey(tokenHash)
  {
    assert ExchangeKey(b)[26] == EXCHANGE_PREFIX[26] == 'e';
    assert TicketKey(tokenHash)[26] == TICKET_PREFIX[26] == 't';
  }
}

/**
 The two stores that implement the exchange, each proved against the common step
 function, and the simulation between them.
 */
module RelayStores {
  import opened Wrappers
  import opened RelayIdentity
  import opened RelayExchange

  // ---------- The in-memory store

  datatype MemoryRecord = MemoryRecord(pins: map<Role, string>, secret: string, issued: set<Role>, expiresAt: int)

  class InMemoryDeviceRelayStore {
    var exchanges: map<RelayBinding, MemoryRecord>

    constructor ()
      ensures View() == map[]
    {
      exchanges := map[];
    }

    /** The store as the common specification sees it. */
    ghost function View(): Store
      reads this
    {
      map k | k in exchanges ::
        Entry(Record(exchanges[k].pins, exchanges[k].issued, Some(exchanges[k].secret)), exchanges[k].expiresAt)
    }

    method Exchange(c: Call) returns (reply: Reply)
      modifies this
      ensures (View(), reply) == StoreStep(FirstRegistrant, old(View()), c)
    {
      var key := c.Key();
      var pins, secret, issued, expiresAt := map[], c.candidate, {}, c.Deadline();
      if key in exchanges {
        var kept := exchanges[key];
        pins, secret, issued, expiresAt := kept.pins, kept.secret, kept.issued, kept.expiresAt;
      }
      if expiresAt <= c.now {
        pins, secret, issued, expiresAt := map[], c.candidate, {}, c.Deadline();
      }
      if c.role in pins && pins[c.role] != c.spki {
        return Mismatch;
      }
      pins := pins[c.role := c.spki];
      exchanges := exchanges[key := MemoryRecord(pins, secret, issued, expiresAt)];
      assert View() == old(View())[key := Entry(Record(pins, issued, Some(secret)), expiresAt)];
      if c.role.Peer() !in pins {
        return Waiting;
      }
      if c.role in issued {
        return AlreadyIssued;
      }
      exchanges := exchanges[key := MemoryRecord(pins, secret, issued + {c.role}, expiresAt)];
      assert View() == old(View())[key := Entry(Record(pins, issued + {c.role}, Some(secret)), expiresAt)];
      return Ready(pins[c.role.Peer()], secret);
    }
  }

  // ---------- The Redis script

  type Hash = map<string, string>

  function PinField(r: Role): string { r.Text() + "_spki" }

  function IssuedField(r: Role): string { r.Text() + "_issued" }

  const CONTEXT_FIELD := "exporter_context"

  /** The five hash fields of an exchange record have five different names. */
  lemma FieldsDistinct(r: Role)
    ensures PinField(r) != PinField(r.Peer()) && IssuedField(r) != IssuedField(r.Peer())
    ensures PinField(r) != IssuedField(r) && PinField(r) != IssuedField(r.Peer())
    ensures CONTEXT_FIELD !in {PinField(r), IssuedField(r)}
  {
    assert PinField(Device)[0] == IssuedField(Device)[0] == 'd';
    assert PinField(Proxy)[0] == IssuedField(Proxy)[0] == 'p';
    assert CONTEXT_FIELD[0] == 'e';
    assert PinField(Device)[7] == 's' && IssuedField(Device)[7] == 'i';
    assert PinField(Proxy)[6] == 's' && IssuedField(Proxy)[6] == 'i';
  }

  function Pins(h: Hash): map<Role, string> {
    map r | r in {Device, Proxy} && PinField(r) in h :: h[PinField(r)]
  }

  function Issued(h: Hash): set<Role> {
    set r | r in {Device, Proxy} && IssuedField(r) in h
  }

  function ToRecord(h: Hash): Record {
    Record(Pins(h), Issued(h), if CONTEXT_FIELD in h then Some(h[CONTEXT_FIELD]) else None)
  }

  datatype RedisHash = RedisHash(fields: Hash, deadline: int)

  /** The exchange on entries that stand under key strings. */
  function KeyedStep(entries: map<string, Entry>, key: string, c: Call): (map<string, Entry>, Reply) {
    KeyedWrite(entries, key, RelayExchange.Exchange(FirstCompleter, RecordAt(entries, key, c.now), c), c.Deadline())
  }

  function RecordAt(entries: map<string, Entry>, key: string, now: int): Record {
    if key in entries && now < entries[key].deadline then entries[key].record else EMPTY
  }

  /** Every result but a mismatch is written and renews the lifetime. */
  function KeyedWrite(entries: map<string, Entry>, key: string, result: (Record, Reply), deadline: int)
    : (map<string, Entry>, Reply)
  {
    (if result.1.Mismatch? then entries else entries[key := Entry(result.0, deadline)], result.1)
  }

  function Entries(hashes: map<string, RedisHash>): map<string, Entry> {
    map k | k in hashes :: Entry(ToRecord(hashes[k].fields), hashes[k].deadline)
  }

  /** What HGET and HEXISTS see at a key: nothing once it has expired. */
  function Visible(hashes: map<string, RedisHash>, key: string, now: int): Hash {
    if key in hashes && now < hashes[key].deadline then hashes[key].fields else map[]
  }

  lemma VisibleRecord(hashes: map<string, RedisHash>, key: string, now: int)
    ensures ToRecord(Visible(hashes, key, now)) == RecordAt(Entries(hashes), key, now)
  {
    assert ToRecord(map[]) == EMPTY;
  }

  lemma EntriesWrite(hashes: map<string, RedisHash>, key: string, h: Hash, deadline: int)
    ensures Entries(hashes[key := RedisHash(h, deadline)]) == Entries(hashes)[key := Entry(ToRecord(h), deadline)]
  {
  }

  function Written(hashes: map<string, RedisHash>, key: string, h: Hash, reply: Reply, deadline: int)
    : map<string, RedisHash>
  {
    if reply.Mismatch? then hashes else hashes[key := RedisHash(h, deadline)]
  }

  lemma ScriptAtKey(hashes: map<string, RedisHash>, key: string, c: Call, h: Hash, reply: Reply)
    requires (ToRecord(h), reply) ==
      RelayExchange.Exchange(FirstCompleter, ToRecord(Visible(hashes, key, c.now)), c)
    ensures KeyedStep(Entries(hashes), key, c) ==
      (Entries(Written(hashes, key, h, reply, c.Deadline())), reply)
  {
    VisibleRecord(hashes, key, c.now);
    EntriesWrite(hashes, key, h, c.Deadline());
    assert KeyedStep(Entries(hashes), key, c) == KeyedWrite(Entries(hashes), key, (ToRecord(h), reply), c.Deadline());
  }

  class RedisDeviceRelayStore {
    var hashes: map<string, RedisHash>

    constructor ()
      ensures Entries(hashes) == map[]
    {
      hashes := map[];
    }

    method Exchange(c: Call) returns (reply: Reply)
      modifies this
      ensures (Entries(hashes), reply) == KeyedStep(old(Entries(hashes)), ExchangeKey(c.binding), c)
    {
      var key := ExchangeKey(c.binding);
      var h: Hash;
      h, reply := RunExchangeScript(Visible(hashes, key, c.now), c);
      ScriptAtKey(hashes, key, c, h, reply);
      ghost var written := Written(hashes, key, h, reply, c.Deadline());
      if reply != Mismatch {
        hashes := hashes[key := RedisHash(h, c.Deadline())];
      }
      assert hashes == written;
    }
  }

  /** The keyed entries are exactly those of a specification store, under their key strings. */
  ghost predicate Mirrors(entries: map<string, Entry>, store: Store) {
    forall b: DeviceRelayBinding :: Mirrored(entries, store, b)
  }

  ghost predicate Mirrored(entries: map<string, Entry>, store: Store, b: DeviceRelayBinding) {
    && (b.Relay() in store <==> ExchangeKey(b) in entries)
    && (b.Relay() in store ==> store[b.Relay()] == entries[ExchangeKey(b)])
  }

  lemma WriteMirrors(entries: map<string, Entry>, store: Store, a: DeviceRelayBinding, entry: Entry)
    requires Mirrors(entries, store)
    ensures Mirrors(entries[ExchangeKey(a) := entry], store[a.Relay() := entry])
  {
    var entries', store' := entries[ExchangeKey(a) := entry], store[a.Relay() := entry];
    forall b: DeviceRelayBinding ensures Mirrored(entries', store', b) {
      ExchangeKeyIdentifiesRelay(b, a);
      assert Mirrored(entries, store, b);
    }
  }

  /** Redis behind its key strings refines the specification store: same replies, and the keyed
      entries keep mirroring it. */
  lemma KeyedStepMirrors(entries: map<string, Entry>, store: Store, c: Call)
    requires Mirrors(entries, store)
    ensures KeyedStep(entries, ExchangeKey(c.binding), c).1 == StoreStep(FirstCompleter, store, c).1
    ensures Mirrors(KeyedStep(entries, ExchangeKey(c.binding), c).0, StoreStep(FirstCompleter, store, c).0)
  {
    assert Mirrored(entries, store, c.binding);
    var rec := RecordAt(entries, ExchangeKey(c.binding), c.now);
    var (rec', _) := RelayExchange.Exchange(FirstCompleter, rec, c);
    WriteMirrors(entries, store, c.binding, Entry(rec', c.Deadline()));
  }

  lemma PinsFramed(h: Hash, field: string, v: string)
    requires field != PinField(Device) && field != PinField(Proxy)
    ensures Pins(h[field := v]) == Pins(h)
  {
  }

  lemma IssuedFramed(h: Hash, field: string, v: string)
    requires field != IssuedField(Device) && field != IssuedField(Proxy)
    ensures Issued(h[field := v]) == Issued(h)
  {
  }

  lemma PinAdded(h: Hash, r: Role, spki: string)
    requires PinField(r) != PinField(r.Peer())
    ensures Pins(h[PinField(r) := spki]) == Pins(h)[r := spki]
  {
    assert Pins(h[PinField(r) := spki]).Keys == Pins(h).Keys + {r};
  }

  lemma IssueAdded(h: Hash, r: Role)
    requires IssuedField(r) != IssuedField(r.Peer())
    ensures Issued(h[IssuedField(r) := "1"]) == Issued(h) + {r}
  {
  }

  lemma PinWritten(h: Hash, r: Role, spki: string)
    ensures ToRecord(h[PinField(r) := spki]) == ToRecord(h).(pins := ToRecord(h).pins[r := spki])
  {
    FieldsDistinct(r);
    FieldsDistinct(r.Peer());
    PinAdded(h, r, spki);
    IssuedFramed(h, PinField(r), spki);
  }

  lemma IssuedWritten(h: Hash, r: Role)
    ensures ToRecord(h[IssuedField(r) := "1"]) == ToRecord(h).(issued := ToRecord(h).issued + {r})
  {
    FieldsDistinct(r);
    FieldsDistinct(r.Peer());
    IssueAdded(h, r);
    PinsFramed(h, IssuedField(r), "1");
  }

  lemma ContextWritten(h: Hash, secret: string)
    ensures ToRecord(h[CONTEXT_FIELD := secret]) == ToRecord(h).(secret := Some(secret))
  {
    FieldsDistinct(Device);
    FieldsDistinct(Proxy);
    PinsFramed(h, CONTEXT_FIELD, secret);
    IssuedFramed(h, CONTEXT_FIELD, secret);
  }

  /** The Lua script on one hash: HGET, HSET and HEXISTS in the order the script runs them. */
  method RunExchangeScript(before: Hash, c: Call) returns (h: Hash, reply: Reply)
    ensures (ToRecord(h), reply) == Exchange(FirstCompleter, ToRecord(before), c)
  {
    h := before;
    var rolePin, peerPin, issued := PinField(c.role), PinField(c.role.Peer()), IssuedField(c.role);
    if rolePin in h && h[rolePin] != c.spki {
      return h, Mismatch;
    }
    PinWritten(h, c.role, c.spki);
    h := h[rolePin := c.spki];
    if peerPin !in h {
      return h, Waiting;
    }
    var peer := h[peerPin];
    if issued in h {
      return h, AlreadyIssued;
    }
    var secret: string;
    if CONTEXT_FIELD in h {
      secret := h[CONTEXT_FIELD];
    } else {
      secret := c.candidate;
      ContextWritten(h, secret);
      h := h[CONTEXT_FIELD := secret];
    }
    IssuedWritten(h, c.role);
    h := h[issued := "1"];
    return h, Ready(peer, secret);
  }

  // ---------- Simulation

  ghost predicate SameButContext(a: Reply, b: Reply) {
    a == b || (a.Ready? && b.Ready? && a.peerSpki == b.peerSpki)
  }

  /** Same keys and same issued roles; whoever has been issued has a peer. */
  ghost predicate SameRecord(a: Record, b: Record) {
    && a.pins == b.pins && a.issued == b.issued
    && (a.issued != {} ==> Device in a.pins && Proxy in a.pins)
  }

  ghost predicate SameStores(m: Store, r: Store) {
    m.Keys == r.Keys && forall k | k in m :: SameRecord(m[k].record, r[k].record)
  }

  /** The record lets the caller register, and its peer has not registered. */
  predicate Waits(rec: Record, c: Call) {
    (c.role in rec.pins ==> rec.pins[c.role] == c.spki) && c.role.Peer() !in rec.pins
  }

  /** The call finds the record alive in both stores or in neither, or one that makes it wait. */
  predicate Harmless(m: Store, r: Store, c: Call) {
    Live(m, c) == Live(r, c) || (c.Key() in m && Waits(m[c.Key()].record, c))
  }

  lemma WaitsExactly(policy: Policy, rec: Record, c: Call)
    ensures Exchange(policy, rec, c).1 == Waiting <==> Waits(rec, c)
  {
  }

  /** A call that waits leaves the record as if it had been the first one. */
  lemma WaitingStartsOver(policy: Policy, policy': Policy, rec: Record, c: Call)
    requires SameRecord(rec, rec) && Waits(rec, c)
    ensures SameRecord(Exchange(policy, rec, c).0, Exchange(policy', EMPTY, c).0)
    ensures SameRecord(Exchange(policy', EMPTY, c).0, Exchange(policy, rec, c).0)
  {
    assert rec.issued == {};
    assert forall r: Role | r in rec.pins :: r == c.role;
    assert rec.pins[c.role := c.spki] == map[c.role := c.spki];
  }

  lemma ExchangeAlike(a: Record, b: Record, c: Call)
    requires SameRecord(a, b)
    ensures SameButContext(Exchange(FirstRegistrant, a, c).1, Exchange(FirstCompleter, b, c).1)
    ensures SameRecord(Exchange(FirstRegistrant, a, c).0, Exchange(FirstCompleter, b, c).0)
  {
  }

  function Found(st: Store, c: Call): Record {
    if Live(st, c) then st[c.Key()].record else EMPTY
  }

  lemma FoundAlike(m: Store, r: Store, c: Call)
    requires SameStores(m, r)
    ensures var a, b := Exchange(FirstRegistrant, Found(m, c), c), Exchange(FirstCompleter, Found(r, c), c);
      && (SameButContext(a.1, b.1) <==> Harmless(m, r, c))
      && (Harmless(m, r, c) ==> SameRecord(a.0, b.0))
  {
    if Live(m, c) == Live(r, c) {
      ExchangeAlike(Found(m, c), Found(r, c), c);
    } else {
      WaitsExactly(FirstRegistrant, Found(m, c), c);
      WaitsExactly(FirstCompleter, Found(r, c), c);
      if Harmless(m, r, c) {
        WaitingAlike(m, r, c);
      }
    }
  }

  lemma WaitingAlike(m: Store, r: Store, c: Call)
    requires SameStores(m, r) && Live(m, c) != Live(r, c) && Waits(m[c.Key()].record, c)
    ensures SameRecord(Exchange(FirstRegistrant, Found(m, c), c).0, Exchange(FirstCompleter, Found(r, c), c).0)
  {
    assert SameRecord(m[c.Key()].record, r[c.Key()].record);
    if Live(m, c) {
      WaitingStartsOver(FirstRegistrant, FirstCompleter, m[c.Key()].record, c);
    } else {
      WaitingStartsOver(FirstCompleter, FirstRegistrant, r[c.Key()].record, c);
    }
  }

  /** One call on stores that hold the same keys and issued roles. */
  lemma CallAlike(m: Store, r: Store, c: Call)
    requires SameStores(m, r)
    ensures SameButContext(StoreStep(FirstRegistrant, m, c).1, StoreStep(FirstCompleter, r, c).1) <==> Harmless(m, r, c)
    ensures Harmless(m, r, c) ==> SameStores(StoreStep(FirstRegistrant, m, c).0, StoreStep(FirstCompleter, r, c).0)
  {
    FoundAlike(m, r, c);
    assert Found(m, c) == if Live(m, c) then m[c.Key()].record else EMPTY;
    assert Found(r, c) == if Live(r, c) then r[c.Key()].record else EMPTY;
  }

  ghost predicate AgreeAt(calls: seq<Call>, i: nat)
    requires i < |calls|
  {
    SameButContext(ReplyAt(FirstRegistrant, calls, i), ReplyAt(FirstCompleter, calls, i))
  }

  predicate HarmlessAt(calls: seq<Call>, i: nat)
    requires i < |calls|
  {
    Harmless(After(FirstRegistrant, calls[..i]), After(FirstCompleter, calls[..i]), calls[i])
  }

  ghost predicate AgreeUpTo(calls: seq<Call>, n: nat)
    requires n <= |calls|
  {
    forall i | 0 <= i < n :: AgreeAt(calls, i)
  }

  ghost predicate HarmlessUpTo(calls: seq<Call>, n: nat)
    requires n <= |calls|
  {
    forall i | 0 <= i < n :: HarmlessAt(calls, i)
  }

  lemma {:induction false} HarmlessKeepsStores(calls: seq<Call>, n: nat)
    requires n <= |calls| && HarmlessUpTo(calls, n)
    ensures SameStores(After(FirstRegistrant, calls[..n]), After(FirstCompleter, calls[..n]))
  {
    if n > 0 {
      HarmlessKeepsStores(calls, n - 1);
      assert HarmlessAt(calls, n - 1);
      assert calls[..n][..n - 1] == calls[..n - 1];
      CallAlike(After(FirstRegistrant, calls[..n - 1]), After(FirstCompleter, calls[..n - 1]), calls[n - 1]);
    }
  }

  /** As long as all calls so far were harmless, a call is answered alike exactly when it is. */
  lemma SimulationStep(calls: seq<Call>, i: nat)
    requires i < |calls| && HarmlessUpTo(calls, i)
    ensures AgreeAt(calls, i) <==> HarmlessAt(calls, i)
  {
    HarmlessKeepsStores(calls, i);
    CallAlike(After(FirstRegistrant, calls[..i]), After(FirstCompleter, calls[..i]), calls[i]);
  }

  /** The stores answer a whole run alike, apart from the chosen context, exactly when every call
      finds its record alive in both stores or in neither, or one that makes it wait anyway. */
  lemma {:induction false} StoresAgreeExactly(calls: seq<Call>, n: nat)
    requires n <= |calls|
    ensures AgreeUpTo(calls, n) <==> HarmlessUpTo(calls, n)
  {
    if n > 0 {
      StoresAgreeExactly(calls, n - 1);
      UpToNext(calls, n - 1);
      if HarmlessUpTo(calls, n - 1) {
        SimulationStep(calls, n - 1);
      }
    }
  }

  lemma UpToNext(calls: seq<Call>, n: nat)
    requires n < |calls|
    ensures AgreeUpTo(calls, n + 1) <==> AgreeUpTo(calls, n) && AgreeAt(calls, n)
    ensures HarmlessUpTo(calls, n + 1) <==> HarmlessUpTo(calls, n) && HarmlessAt(calls, n)
  {
  }

  /** At every call the two stores agree on whether the key's record is still there. */
  ghost predicate InSync(calls: seq<Call>) {
    forall i | 0 <= i < |calls| :: LiveAt(FirstRegistrant, calls, i) == LiveAt(FirstCompleter, calls, i)
  }

  /** Simulation over whole runs: as long as the stores agree on liveness, every call on every
      key gets the same status, the same mismatch error and the same peer key from both. */
  lemma Simulation(calls: seq<Call>, i: nat)
    requires i < |calls| && InSync(calls)
    ensures AgreeAt(calls, i)
  {
    forall k | 0 <= k < |calls| ensures HarmlessAt(calls, k) {
      assert LiveAt(FirstRegistrant, calls, k) == LiveAt(FirstCompleter, calls, k);
    }
    StoresAgreeExactly(calls, |calls|);
    assert AgreeUpTo(calls, |calls|);
  }

  /** No call finds a record whose first-registration lifetime has elapsed, and none would set
      an earlier deadline than that lifetime's end. */
  ghost predicate TtlsHold(calls: seq<Call>) {
    forall i | 0 <= i < |calls| && calls[i].Key() in After(FirstRegistrant, calls[..i]) ::
      && LiveAt(FirstRegistrant, calls, i)
      && After(FirstRegistrant, calls[..i])[calls[i].Key()].deadline <= calls[i].Deadline()
  }

  lemma {:induction false} RedisOutlivesMemory(calls: seq<Call>, n: nat)
    requires n <= |calls| && TtlsHold(calls)
    ensures var m, r := After(FirstRegistrant, calls[..n]), After(FirstCompleter, calls[..n]);
      m.Keys == r.Keys && forall k | k in m :: m[k].deadline <= r[k].deadline
    ensures n < |calls| ==> LiveAt(FirstRegistrant, calls, n) == LiveAt(FirstCompleter, calls, n)
  {
    if n > 0 {
      RedisOutlivesMemory(calls, n - 1);
      assert calls[..n][..n - 1] == calls[..n - 1];
      ghost var c := calls[n - 1];
      if c.Key() !in After(FirstRegistrant, calls[..n - 1]) {
        assert Exchange(FirstRegistrant, EMPTY, c).1 == Exchange(FirstCompleter, EMPTY, c).1 == Waiting;
      }
    }
  }

  /** Unexpired first registrations with non-shrinking deadlines are enough for simulation. */
  lemma TtlsKeepStoresInSync(calls: seq<Call>)
    requires TtlsHold(calls)
    ensures InSync(calls)
  {
    forall i | 0 <= i < |calls|
      ensures LiveAt(FirstRegistrant, calls, i) == LiveAt(FirstCompleter, calls, i)
    {
      RedisOutlivesMemory(calls, i);
    }
  }

  lemma AfterOne(policy: Policy, c: Call)
    ensures var secret := if policy.FirstRegistrant? then Some(c.candidate) else None;
      After(policy, [c]) == map[c.Key() := Entry(Record(map[c.role := c.spki], {}, secret), c.Deadline())]
  {
    assert [c][..0] == [];
    assert After(policy, []) == map[];
  }

  /** A renewal with a shorter lifetime expires the Redis record first, and the stores part:
      the second role is served from memory and kept waiting by Redis. */
  lemma ShorterRenewalDiverges(b: DeviceRelayBinding)
    ensures var calls := [
        Call(b, Device, "d", "x", 10, 0), Call(b, Device, "d", "y", 1, 1), Call(b, Proxy, "p", "z", 10, 5)];
      && ReplyAt(FirstRegistrant, calls, 2) == Ready("d", "x")
      && ReplyAt(FirstCompleter, calls, 2) == Waiting
  {
    var calls := [
      Call(b, Device, "d", "x", 10, 0), Call(b, Device, "d", "y", 1, 1), Call(b, Proxy, "p", "z", 10, 5)];
    assert calls[..2][..1] == calls[..1] == [calls[0]];
    assert calls[..2][1] == calls[1];
    AfterOne(FirstRegistrant, calls[0]);
    AfterOne(FirstCompleter, calls[0]);
  }

  /** The stores may hand out different candidates even while they agree on everything else. */
  lemma ContextsDiffer(b: DeviceRelayBinding)
    ensures var calls := [Call(b, Device, "d", "x", 10, 0), Call(b, Proxy, "p", "y", 10, 1)];
      && ReplyAt(FirstRegistrant, calls, 1) == Ready("d", "x")
      && ReplyAt(FirstCompleter, calls, 1) == Ready("d", "y")
  {
    var calls := [Call(b, Device, "d", "x", 10, 0), Call(b, Proxy, "p", "y", 10, 1)];
    assert calls[..1] == [calls[0]];
    AfterOne(FirstRegistrant, calls[0]);
    AfterOne(FirstCompleter, calls[0]);
  }
}

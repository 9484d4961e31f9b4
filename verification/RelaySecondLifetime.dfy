/**
 What happens once an exchange record has expired: both roles register again, and the second
 ticket of a role that has left crashes its connect while the old partner is still there. From any
 such world, and as one run from the empty system.
 */
module RelaySecondLifetime {
  import opened Wrappers
  import opened RelayIdentity
  import Exchange = RelayExchange
  import Hub = RelayHub
  import opened RelayGateway

  // ---------- Event sequences

  /** The first role registers and waits, the second one is ready. */
  function BothRegister(binding: DeviceRelayBinding, second: Role, credentialId: Option<Uuid>): seq<Event> {
    [Event.Exchange(Exchange.Call(binding, second.Peer(), "a", "x", 1, 0), None),
     Event.Exchange(Exchange.Call(binding, second, "b", "y", 1, 0), credentialId)]
  }

  /** A ready reply's ticket is issued, consumed under the right path and taken to the hub. */
  function TicketToHub(g: nat, hash: string, path: Uuid, db: Snapshot, now: int): seq<Event> {
    [IssueTicket(g, hash), Consume(hash, path), Enter(g, db, now)]
  }

  /** Both roles register in a fresh record, and the second one, with grant g, enters the hub. */
  function SecondLifetime(
      binding: DeviceRelayBinding, role: Role, credentialId: Option<Uuid>, g: nat, hash: string, db: Snapshot, now: int)
    : seq<Event>
  {
    BothRegister(binding, role, credentialId) + TicketToHub(g, hash, binding.deviceSessionId, db, now)
  }

  // ---------- What the sequences do

  lemma SecondRegistrantIsReady(policy: Exchange.Policy, c: Exchange.Call, d: Exchange.Call)
    requires d.role == c.role.Peer()
    ensures var (rec, reply) := Exchange.Exchange(policy, Exchange.EMPTY, c);
      reply.Waiting? && Exchange.Exchange(policy, rec, d).1.Ready?
  {
  }

  lemma RegistrationGrants(
      policy: Exchange.Policy, w: World, binding: DeviceRelayBinding, role: Role, credentialId: Option<Uuid>)
    requires Hub.WellFormed(w.hub) && binding.Relay() !in w.records
    ensures var w' := RunFrom(policy, w, BothRegister(binding, role, credentialId));
      && w'.hub == w.hub && w'.tickets == w.tickets && w'.origin == w.origin && w'.expiries == w.expiries
      && w'.grants == w.grants + [Grant(Claims(binding, role, credentialId), Expiries(w, binding.Relay()), Owed)]
  {
    var first := Exchange.Call(binding, role.Peer(), "a", "x", 1, 0);
    var second := Exchange.Call(binding, role, "b", "y", 1, 0);
    SecondRegistrantIsReady(policy, first, second);
    RunTwo(policy, w, Event.Exchange(first, None), Event.Exchange(second, credentialId));
  }

  lemma RunTwo(policy: Exchange.Policy, w: World, a: Event, b: Event)
    requires Hub.WellFormed(w.hub)
    ensures Hub.WellFormed(Apply(policy, w, a).hub)
    ensures RunFrom(policy, w, [a, b]) == Apply(policy, Apply(policy, w, a), b)
  {
    RunFirst(policy, w, a, [b]);
    assert [a] + [b] == [a, b];
    RunOne(policy, Apply(policy, w, a), b);
  }

  lemma TicketEnters(policy: Exchange.Policy, w: World, g: nat, hash: string, db: Snapshot, now: int)
    requires Hub.WellFormed(w.hub) && g < |w.grants| && w.grants[g].stage == Owed && hash !in w.tickets
    requires ClaimsAreCurrent(db, w.grants[g].claims, now)
    ensures var path := w.grants[g].claims.binding.deviceSessionId;
      RunFrom(policy, w, TicketToHub(g, hash, path, db, now)) == w.(
        grants := w.grants[g := w.grants[g].(stage := InHub(|w.origin|, path))],
        hub := Hub.Apply(w.hub, Hub.Connect(w.grants[g].Key(), w.grants[g].Party())),
        origin := w.origin + [g])
  {
    var path := w.grants[g].claims.binding.deviceSessionId;
    var issued, admitted := DoIssue(w, g, hash), Moved(w, g, Admitted(path));
    RunFirst(policy, w, IssueTicket(g, hash), [Consume(hash, path), Enter(g, db, now)]);
    assert [IssueTicket(g, hash)] + [Consume(hash, path), Enter(g, db, now)] == TicketToHub(g, hash, path, db, now);
    RunTwo(policy, issued, Consume(hash, path), Enter(g, db, now));
    assert issued.tickets - {hash} == w.tickets;
    assert issued.grants[g := issued.grants[g].(stage := Admitted(path))] == admitted.grants;
    assert DoConsume(issued, hash, path) == admitted;
    assert admitted.grants[g := admitted.grants[g].(stage := InHub(|w.origin|, path))] ==
      w.grants[g := w.grants[g].(stage := InHub(|w.origin|, path))];
  }

  lemma HubTwo(policy: Exchange.Policy, w: World, a: Hub.Step, b: Hub.Step)
    requires Hub.WellFormed(w.hub) && !a.Connect? && !b.Connect?
    ensures Hub.WellFormed(Hub.Apply(w.hub, a))
    ensures RunFrom(policy, w, [HubStep(a), HubStep(b)]) == w.(hub := Hub.Apply(Hub.Apply(w.hub, a), b))
  {
    RunTwo(policy, w, HubStep(a), HubStep(b));
  }

  // ---------- From any world

  /** In any world whose record for a binding is gone, where connect of a role would find a partner
      that has outlived an earlier connect, both roles can register again, and the five events end
      in a connect that crashes and stays stored. */
  lemma SecondLifetimeCrashes(
      policy: Exchange.Policy, w: World, binding: DeviceRelayBinding, role: Role, credentialId: Option<Uuid>,
      hash: string, db: Snapshot, now: int)
    requires WorldInv(w) && binding.Relay() !in w.records && hash !in w.tickets
    requires ClaimsAreCurrent(db, Claims(binding, role, credentialId), now)
    requires Hub.NoneStored(w.hub, binding.Relay(), role)
    requires exists i, p :: Hub.Taken(w.hub, binding.Relay(), role, i, p)
    ensures var w' := RunFrom(policy, w, SecondLifetime(binding, role, credentialId, |w.grants|, hash, db, now));
      var n := |w.hub.phase|;
      && w'.hub == Hub.Apply(w.hub, Hub.Connect(binding.Relay(), role))
      && |w'.hub.phase| == n + 1 && w'.hub.phase[n] == Hub.Crashed && Hub.Stored(w'.hub.hub, n)
  {
    SecondLifetimeConnects(policy, w, binding, role, credentialId, hash, db, now);
    Hub.CrashExactly(w.hub, binding.Relay(), role);
  }

  /** The five events amount to one more connect of the role. */
  lemma SecondLifetimeConnects(
      policy: Exchange.Policy, w: World, binding: DeviceRelayBinding, role: Role, credentialId: Option<Uuid>,
      hash: string, db: Snapshot, now: int)
    requires Hub.WellFormed(w.hub) && binding.Relay() !in w.records && hash !in w.tickets
    requires ClaimsAreCurrent(db, Claims(binding, role, credentialId), now)
    ensures RunFrom(policy, w, SecondLifetime(binding, role, credentialId, |w.grants|, hash, db, now)).hub ==
      Hub.Apply(w.hub, Hub.Connect(binding.Relay(), role))
  {
    var g := |w.grants|;
    RunConcat(policy, w, BothRegister(binding, role, credentialId),
              TicketToHub(g, hash, binding.deviceSessionId, db, now));
    RegistrationGrants(policy, w, binding, role, credentialId);
    var registered := RunFrom(policy, w, BothRegister(binding, role, credentialId));
    TicketEnters(policy, registered, g, hash, db, now);
  }

  // ---------- One run from the empty system

  /** Rows under which both roles' claims on the binding are current. */
  function CurrentRows(b: DeviceRelayBinding, credentialId: Uuid, now: int): Snapshot {
    Snapshot(
      map[b.deviceSessionId :=
        DeviceSession(b.userId, b.deviceId, b.toolSessionId, b.nodeId, b.generation, Active, now + 1)],
      map[b.deviceId := true], map[b.nodeId := Healthy], map[b.toolSessionId := ToolActive],
      map[credentialId := Credential(true, true, Some(b.deviceId), now + 1)])
  }

  lemma RowsAreCurrent(b: DeviceRelayBinding, credentialId: Uuid, now: int)
    ensures ClaimsAreCurrent(CurrentRows(b, credentialId, now), Claims(b, Device, Some(credentialId)), now)
    ensures ClaimsAreCurrent(CurrentRows(b, credentialId, now), Claims(b, Proxy, None), now)
  {
  }

  /** The proxy and, after one more call, the device become ready: grants 0 and 1. */
  function FirstRegistration(b: DeviceRelayBinding, credentialId: Uuid): seq<Event> {
    BothRegister(b, Proxy, None) + [Event.Exchange(Exchange.Call(b, Device, "a", "x", 1, 0), Some(credentialId))]
  }

  function FirstPairing(b: DeviceRelayBinding, credentialId: Uuid, now: int): seq<Event> {
    var db, path := CurrentRows(b, credentialId, now), b.deviceSessionId;
    TicketToHub(1, "d", path, db, now) + TicketToHub(0, "p", path, db, now)
  }

  const PROXY_LEAVES: seq<Event> :=
    [HubStep(Hub.Wake(0)), HubStep(Hub.Wake(1))] + [HubStep(Hub.EndForwarding(1)), HubStep(Hub.RemoveSelf(1))]

  const DEVICE_LEAVES: seq<Event> := [HubStep(Hub.EndForwarding(0)), HubStep(Hub.RemoveSelf(0))]

  /** Both register, pair and forward; the proxy leaves; the record expires; both register again and
      the proxy comes back; the device leaves. */
  function ExpiredRun(b: DeviceRelayBinding, credentialId: Uuid, now: int): seq<Event> {
    FirstLifetime(b, credentialId, now)
    + SecondLifetime(b, Proxy, None, 2, "q", CurrentRows(b, credentialId, now), now) + DEVICE_LEAVES
  }

  function FirstLifetime(b: DeviceRelayBinding, credentialId: Uuid, now: int): seq<Event> {
    FirstRegistration(b, credentialId) + FirstPairing(b, credentialId, now) + PROXY_LEAVES
    + [ExpireRecord(b.Relay())]
  }

  lemma FirstGrants(policy: Exchange.Policy, b: DeviceRelayBinding, credentialId: Uuid)
    ensures var w := RunFrom(policy, START, FirstRegistration(b, credentialId));
      && w.hub == Hub.INITIAL && w.tickets == map[] && w.origin == []
      && w.grants == [Grant(Claims(b, Proxy, None), 0, Owed), Grant(Claims(b, Device, Some(credentialId)), 0, Owed)]
  {
    var first := Exchange.Call(b, Device, "a", "x", 1, 0);
    var second := Exchange.Call(b, Proxy, "b", "y", 1, 0);
    var e := Event.Exchange(first, Some(credentialId));
    RunTwo(policy, START, Event.Exchange(first, None), Event.Exchange(second, None));
    RegistrationGrants(policy, START, b, Proxy, None);
    RunConcat(policy, START, BothRegister(b, Proxy, None), [e]);
    RunOne(policy, RunFrom(policy, START, BothRegister(b, Proxy, None)), e);
    ThirdCallIsReady(policy, first, second);
  }

  lemma ThirdCallIsReady(policy: Exchange.Policy, c: Exchange.Call, d: Exchange.Call)
    requires d.role == c.role.Peer()
    ensures var rec := Exchange.Exchange(policy, Exchange.Exchange(policy, Exchange.EMPTY, c).0, d).0;
      Exchange.Exchange(policy, rec, c).1.Ready?
  {
  }

  lemma Paired(policy: Exchange.Policy, w: World, b: DeviceRelayBinding, credentialId: Uuid, now: int)
    requires w.hub == Hub.INITIAL && w.tickets == map[] && w.origin == []
    requires w.grants == [Grant(Claims(b, Proxy, None), 0, Owed), Grant(Claims(b, Device, Some(credentialId)), 0, Owed)]
    ensures var w' := RunFrom(policy, w, FirstPairing(b, credentialId, now));
      && w'.hub == Hub.System(Hub.Met(b.Relay()), [Hub.Waiting, Hub.Waiting])
      && w'.tickets == map[] && |w'.grants| == 2
  {
    var db, path, key := CurrentRows(b, credentialId, now), b.deviceSessionId, b.Relay();
    RowsAreCurrent(b, credentialId, now);
    RunConcat(policy, w, TicketToHub(1, "d", path, db, now), TicketToHub(0, "p", path, db, now));
    TicketEnters(policy, w, 1, "d", db, now);
    var w1 := RunFrom(policy, w, TicketToHub(1, "d", path, db, now));
    assert w1.grants[0] == w.grants[0];
    TicketEnters(policy, w1, 0, "p", db, now);
    var connects := [Hub.Connect(key, Device), Hub.Connect(key, Proxy)];
    Hub.AfterTwo([], Hub.Connect(key, Device), Hub.Connect(key, Proxy));
    assert [] + connects == connects;
    Hub.SecondConnect(key);
  }

  lemma ProxyGone(policy: Exchange.Policy, w: World, key: RelayBinding)
    requires w.hub == Hub.System(Hub.Met(key), [Hub.Waiting, Hub.Waiting])
    ensures RunFrom(policy, w, PROXY_LEAVES) == w.(
      hub := Hub.System(Hub.Met(key).(pairs := map[key := map[Device := 0]]), [Hub.Forwarding, Hub.Returned]))
  {
    RunConcat(policy, w, [HubStep(Hub.Wake(0)), HubStep(Hub.Wake(1))],
              [HubStep(Hub.EndForwarding(1)), HubStep(Hub.RemoveSelf(1))]);
    HubTwo(policy, w, Hub.Wake(0), Hub.Wake(1));
    Hub.BothWake(key);
    HubTwo(policy, w.(hub := Hub.System(Hub.Met(key), [Hub.Forwarding, Hub.Forwarding])),
           Hub.EndForwarding(1), Hub.RemoveSelf(1));
    Hub.ProxyLeaves(key);
  }

  lemma DeviceGone(policy: Exchange.Policy, w: World, key: RelayBinding)
    requires w.hub == Hub.System(
      Hub.Hub(Hub.Wreck(key).hub.endpoints, map[key := map[Device := 0, Proxy := 2]]),
      [Hub.Forwarding, Hub.Returned, Hub.Crashed])
    ensures RunFrom(policy, w, DEVICE_LEAVES).hub == Hub.Wreck(key)
  {
    HubTwo(policy, w, Hub.EndForwarding(0), Hub.RemoveSelf(0));
    Hub.DeviceLeavesLast(key, w.hub);
  }

  lemma UntilExpiry(policy: Exchange.Policy, b: DeviceRelayBinding, credentialId: Uuid, now: int)
    ensures var w, key := RunFrom(policy, START, FirstLifetime(b, credentialId, now)), b.Relay();
      && w.hub == Hub.System(Hub.Met(key).(pairs := map[key := map[Device := 0]]), [Hub.Forwarding, Hub.Returned])
      && w.tickets == map[] && |w.grants| == 2 && key !in w.records
  {
    var a, c := FirstRegistration(b, credentialId), FirstPairing(b, credentialId, now);
    var e := ExpireRecord(b.Relay());
    FirstGrants(policy, b, credentialId);
    RunConcat(policy, START, a, c);
    Paired(policy, RunFrom(policy, START, a), b, credentialId, now);
    RunConcat(policy, START, a + c, PROXY_LEAVES);
    ProxyGone(policy, RunFrom(policy, START, a + c), b.Relay());
    RunConcat(policy, START, a + c + PROXY_LEAVES, [e]);
    RunOne(policy, RunFrom(policy, START, a + c + PROXY_LEAVES), e);
  }

  lemma ProxyReturns(policy: Exchange.Policy, w: World, b: DeviceRelayBinding, credentialId: Uuid, now: int)
    requires w.tickets == map[] && |w.grants| == 2 && b.Relay() !in w.records
    requires w.hub == Hub.System(
      Hub.Met(b.Relay()).(pairs := map[b.Relay() := map[Device := 0]]), [Hub.Forwarding, Hub.Returned])
    ensures var key := b.Relay();
      RunFrom(policy, w, SecondLifetime(b, Proxy, None, 2, "q", CurrentRows(b, credentialId, now), now)).hub ==
      Hub.System(
        Hub.Hub(Hub.Wreck(key).hub.endpoints, map[key := map[Device := 0, Proxy := 2]]),
        [Hub.Forwarding, Hub.Returned, Hub.Crashed])
  {
    RowsAreCurrent(b, credentialId, now);
    SecondLifetimeConnects(policy, w, b, Proxy, None, "q", CurrentRows(b, credentialId, now), now);
    Hub.SecondProxyCrashes(b.Relay());
  }

  lemma ExpiredRunEndsInWreck(policy: Exchange.Policy, b: DeviceRelayBinding, credentialId: Uuid, now: int)
    ensures RunFrom(policy, START, ExpiredRun(b, credentialId, now)).hub == Hub.Wreck(b.Relay())
  {
    var first := FirstLifetime(b, credentialId, now);
    var second := SecondLifetime(b, Proxy, None, 2, "q", CurrentRows(b, credentialId, now), now);
    var met := RunFrom(policy, START, first);
    UntilExpiry(policy, b, credentialId, now);
    RunConcat(policy, START, first, second);
    ProxyReturns(policy, met, b, credentialId, now);
    RunConcat(policy, START, first + second, DEVICE_LEAVES);
    DeviceGone(policy, RunFrom(policy, met, second), b.Relay());
  }

  /** Store and gateway do not exclude the crash once a record has expired: this run from the empty
      system ends with everybody gone and the second proxy's endpoint still in the table. */
  lemma ExpiredRunLeaks(policy: Exchange.Policy, b: DeviceRelayBinding, credentialId: Uuid, now: int)
    ensures After(policy, ExpiredRun(b, credentialId, now)).hub == Hub.Wreck(b.Relay())
    ensures Hub.Wreck(b.Relay()).phase == [Hub.Returned, Hub.Returned, Hub.Crashed]
    ensures Hub.Stored(Hub.Wreck(b.Relay()).hub, 2)
  {
    AfterIsRun(policy, ExpiredRun(b, credentialId, now));
    ExpiredRunEndsInWreck(policy, b, credentialId, now);
  }
}

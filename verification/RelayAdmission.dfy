/**
 Who gets past the gateway: the rows that refuse a claim, one by one, and the proof that an admitted
 claim connects to the hub exactly when none of them does.
 */
module RelayAdmission {
  import opened Wrappers
  import opened RelayIdentity
  import Exchange = RelayExchange
  import Tickets = RelayTickets
  import Hub = RelayHub
  import opened RelayGateway
  import Clocked = RelayClockedRuns

  // ---------- Reasons for a refusal

  /** There is no such session, it is another one in some field, it is over, or it has expired. */
  predicate SessionRefuses(db: Snapshot, b: DeviceRelayBinding, now: int) {
    b.deviceSessionId !in db.sessions ||
    var s := db.sessions[b.deviceSessionId];
    || s.userId != b.userId
    || s.deviceId != b.deviceId
    || s.toolSessionId != b.toolSessionId
    || s.nodeId != b.nodeId
    || s.generation != b.generation
    || s.status == Stopping || s.status == Stopped || s.status == Denied || s.status == Expired || s.status == Failed
    || s.expiresAt <= now
  }

  predicate DeviceRefuses(db: Snapshot, b: DeviceRelayBinding) {
    b.deviceId !in db.devices || !db.devices[b.deviceId]
  }

  predicate NodeRefuses(db: Snapshot, b: DeviceRelayBinding) {
    b.nodeId !in db.nodes || db.nodes[b.nodeId] == UnfitNode
  }

  predicate ToolRefuses(db: Snapshot, b: DeviceRelayBinding) {
    b.toolSessionId !in db.tools || db.tools[b.toolSessionId] == ToolOther
  }

  /** A proxy has no credential; a device has an active, unexpired device credential of its own. */
  predicate CredentialRefuses(db: Snapshot, claims: Claims, now: int) {
    if claims.role == Proxy then claims.credentialId != None
    else if claims.credentialId == None || claims.credentialId.value !in db.credentials then true
    else
      var c := db.credentials[claims.credentialId.value];
      || !c.active
      || !c.deviceToken
      || c.userDeviceId == None || c.userDeviceId.value != claims.binding.deviceId
      || c.expiresAt <= now
  }

  predicate Refused(db: Snapshot, claims: Claims, now: int) {
    || SessionRefuses(db, claims.binding, now)
    || DeviceRefuses(db, claims.binding)
    || NodeRefuses(db, claims.binding)
    || ToolRefuses(db, claims.binding)
    || CredentialRefuses(db, claims, now)
  }

  lemma CurrentExactly(db: Snapshot, claims: Claims, now: int)
    ensures ClaimsAreCurrent(db, claims, now) <==> !Refused(db, claims, now)
  {
  }

  // ---------- Entries

  /** From w to w' the grant has connected under its own binding and role, if no row refuses it, and is
      lost without a change of the hub otherwise. */
  ghost predicate EnteredExactly(w: World, w': World, g: nat, db: Snapshot, now: int)
    requires Hub.WellFormed(w.hub) && g < |w.grants|
  {
    var claims := w.grants[g].claims;
    && |w'.grants| == |w.grants|
    && if Refused(db, claims, now) then w'.hub == w.hub && w'.grants[g].stage == Gone
       else
         && w'.hub == Hub.Apply(w.hub, Hub.Connect(claims.binding.Relay(), claims.role))
         && w'.grants[g].stage == InHub(|w.origin|, claims.binding.deviceSessionId)
  }

  lemma EventEnters(policy: Exchange.Policy, w: World, w': World, g: nat, db: Snapshot, now: int)
    requires Hub.WellFormed(w.hub) && TicketsBooked(w) && g < |w.grants| && w.grants[g].stage.Admitted?
    requires w' == Apply(policy, w, Event.Enter(g, db, now))
    ensures EnteredExactly(w, w', g, db, now)
  {
    CurrentExactly(db, w.grants[g].claims, now);
  }

  lemma AfterSnoc(policy: Exchange.Policy, events: seq<Event>, e: Event)
    ensures After(policy, events + [e]) == Apply(policy, After(policy, events), e)
  {
    assert (events + [e])[..|events|] == events;
  }

  /** In every run, an admitted ticket whose turn at the gateway has come connects to the hub exactly
      when no row refuses it. */
  lemma AdmittedEntersExactly(policy: Exchange.Policy, events: seq<Event>, g: nat, db: Snapshot, now: int)
    requires g < |After(policy, events).grants| && After(policy, events).grants[g].stage.Admitted?
    ensures EnteredExactly(
      After(policy, events), After(policy, events + [Event.Enter(g, db, now)]), g, db, now)
  {
    AfterSnoc(policy, events, Event.Enter(g, db, now));
    EventEnters(policy, After(policy, events), After(policy, events + [Event.Enter(g, db, now)]), g, db, now);
  }

  lemma ClockedSnoc(policy: Exchange.Policy, medium: Tickets.Medium, steps: seq<Clocked.Step>, step: Clocked.Step)
    ensures Clocked.ClockedAfter(policy, medium, steps + [step]) ==
      Clocked.ClockedStep(policy, medium, Clocked.ClockedAfter(policy, medium, steps), step)
  {
    assert (steps + [step])[..|steps|] == steps;
  }

  /** The same with the clocked stores. */
  lemma ClockedEntersExactly(
      policy: Exchange.Policy, medium: Tickets.Medium, steps: seq<Clocked.Step>, claims: Claims, db: Snapshot, now: int)
    requires claims in Clocked.ClockedAfter(policy, medium, steps).admitted
    ensures var s := Clocked.ClockedAfter(policy, medium, steps);
      var s' := Clocked.ClockedAfter(policy, medium, steps + [Clocked.Enter(claims, db, now)]);
      && s'.admitted == s.admitted - multiset{claims}
      && s'.hub == if Refused(db, claims, now) then s.hub
                   else Hub.Apply(s.hub, Hub.Connect(claims.binding.Relay(), claims.role))
  {
    ClockedSnoc(policy, medium, steps, Clocked.Enter(claims, db, now));
    CurrentExactly(db, claims, now);
  }

  /** The step lets a claim of the binding and role in, against rows that do not refuse it. */
  predicate LetsIn(step: Clocked.Step, key: RelayBinding, role: Role) {
    && step.Enter? && step.claims.binding.Relay() == key && step.claims.role == role
    && !Refused(step.db, step.claims, step.now)
  }

  ghost predicate LetInBy(steps: seq<Clocked.Step>, key: RelayBinding, role: Role) {
    exists step :: step in steps && LetsIn(step, key, role)
  }

  lemma StepLetsIn(policy: Exchange.Policy, medium: Tickets.Medium, s: Clocked.Clocked, step: Clocked.Step, i: nat)
    requires Hub.WellFormed(s.hub)
    requires i < |Clocked.ClockedStep(policy, medium, s, step).hub.hub.endpoints|
    ensures var e := Clocked.ClockedStep(policy, medium, s, step).hub.hub.endpoints[i];
      if i < |s.hub.hub.endpoints| then e.key == s.hub.hub.endpoints[i].key && e.role == s.hub.hub.endpoints[i].role
      else LetsIn(step, e.key, e.role)
  {
    if step.Enter? {
      CurrentExactly(step.db, step.claims, step.now);
      Hub.EndpointsGrow(s.hub, Hub.Connect(step.claims.binding.Relay(), step.claims.role));
    }
    if step.HubMoves? {
      Hub.EndpointsGrow(s.hub, step.step);
    }
  }

  /** In every run with the clocked stores, each endpoint of the hub was let in by an entry of its own
      binding and role that no row refused at that instant. */
  lemma {:induction false} EveryEndpointWasLetIn(
      policy: Exchange.Policy, medium: Tickets.Medium, steps: seq<Clocked.Step>, i: nat)
    requires i < |Clocked.ClockedAfter(policy, medium, steps).hub.hub.endpoints|
    ensures var e := Clocked.ClockedAfter(policy, medium, steps).hub.hub.endpoints[i];
      LetInBy(steps, e.key, e.role)
  {
    if steps != [] {
      var front, step := steps[..|steps| - 1], steps[|steps| - 1];
      var before := Clocked.ClockedAfter(policy, medium, front);
      StepLetsIn(policy, medium, before, step, i);
      if i < |before.hub.hub.endpoints| {
        EveryEndpointWasLetIn(policy, medium, front, i);
        var e := before.hub.hub.endpoints[i];
        var earlier :| earlier in front && LetsIn(earlier, e.key, e.role);
        assert earlier in steps;
      }
    }
  }
}

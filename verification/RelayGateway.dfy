/**
 Store, ticket service, gateway and hub together: a ready reply earns one ticket, a consumed
 ticket lets one websocket through the gateway, and the gateway connects it to the hub.
 */
module RelayGateway {
  import opened Wrappers
  import opened RelayIdentity
  import RelayExchange
  import opened RelayHub

  // ---------- The gateway's last check

  datatype SessionStatus =
    PendingDevice | PendingUserApproval | Active | Stopping | Stopped | Denied | Expired | Failed

  datatype DeviceSession = DeviceSession(
    userId: Uuid, deviceId: Uuid, toolSessionId: Uuid, nodeId: Uuid, generation: int,
    status: SessionStatus, expiresAt: int)

  datatype NodeStatus = Healthy | Degraded | UnfitNode

  datatype ToolStatus = ToolRunning | ToolActive | ToolDetached | ToolOther

  datatype Credential = Credential(active: bool, deviceToken: bool, userDeviceId: Option<Uuid>, expiresAt: int)

  /** The rows that the gateway reads; a device maps to whether it is active. */
  datatype Snapshot = Snapshot(
    sessions: map<Uuid, DeviceSession>, devices: map<Uuid, bool>, nodes: map<Uuid, NodeStatus>,
    tools: map<Uuid, ToolStatus>, credentials: map<Uuid, Credential>)

  predicate ClaimsAreCurrent(db: Snapshot, claims: Claims, now: int) {
    var b := claims.binding;
    && b.deviceSessionId in db.sessions
    && (var s := db.sessions[b.deviceSessionId];
        && s.userId == b.userId && s.deviceId == b.deviceId && s.toolSessionId == b.toolSessionId
        && s.nodeId == b.nodeId && s.generation == b.generation
        && s.status in {PendingDevice, PendingUserApproval, Active}
        && now < s.expiresAt)
    && b.deviceId in db.devices && db.devices[b.deviceId]
    && b.nodeId in db.nodes && db.nodes[b.nodeId] in {Healthy, Degraded}
    && b.toolSessionId in db.tools && db.tools[b.toolSessionId] in {ToolRunning, ToolActive, ToolDetached}
    && match claims.role
       case Proxy => claims.credentialId.None?
       case Device =>
         && claims.credentialId.Some? && claims.credentialId.value in db.credentials
         && var c := db.credentials[claims.credentialId.value];
            c.active && c.deviceToken && c.userDeviceId == Some(b.deviceId) && now < c.expiresAt
  }

  /** The hub pairs by session and generation only, but claims of one session that are current
      against the same rows agree on the whole binding. */
  lemma CurrentClaimsShareBinding(db: Snapshot, a: Claims, b: Claims, nowA: int, nowB: int)
    requires ClaimsAreCurrent(db, a, nowA) && ClaimsAreCurrent(db, b, nowB)
    ensures a.binding.Relay() == b.binding.Relay() <==> a.binding == b.binding
    ensures a.binding.deviceSessionId == b.binding.deviceSessionId ==> a.binding == b.binding
  {
  }

  // ---------- The composed system

  /** Where the material of a ready reply is: owed a ticket, in a ticket, past the gateway's
      ticket check, connected as hub endpoint i, or lost. */
  datatype Stage = Owed | InTicket(hash: string) | Admitted(path: Uuid) | InHub(i: nat, path: Uuid) | Gone

  /** A ready reply: whose it is, and in which lifetime of the binding's exchange record. */
  datatype Grant = Grant(claims: Claims, lifetime: nat, stage: Stage) {
    function Key(): RelayBinding { claims.binding.Relay() }
    function Party(): Role { claims.role }
  }

  datatype World = World(
    records: map<RelayBinding, RelayExchange.Record>,
    expiries: map<RelayBinding, nat>,
    grants: seq<Grant>,
    tickets: map<string, nat>,
    hub: System,
    origin: seq<nat>)

  const START := World(map[], map[], [], map[], INITIAL, [])

  datatype Event =
    | Exchange(call: RelayExchange.Call, credentialId: Option<Uuid>)
    | IssueTicket(g: nat, hash: string)
    | ExpireRecord(key: RelayBinding)
    | ExpireTicket(hash: string)
    | Consume(hash: string, path: Uuid)
    | Enter(g: nat, db: Snapshot, now: int)
    | HubStep(step: Step)

  function Expiries(w: World, key: RelayBinding): nat {
    if key in w.expiries then w.expiries[key] else 0
  }

  function RecordOf(w: World, key: RelayBinding): RelayExchange.Record {
    if key in w.records then w.records[key] else RelayExchange.EMPTY
  }

  function Moved(w: World, g: nat, stage: Stage): World
    requires g < |w.grants|
  {
    w.(grants := w.grants[g := w.grants[g].(stage := stage)])
  }

  /** The exchange under either store's policy; a ready reply is owed one ticket. */
  function DoExchange(
      policy: RelayExchange.Policy, w: World, call: RelayExchange.Call, credentialId: Option<Uuid>): World
  {
    var key := call.Key();
    var (rec, reply) := RelayExchange.Exchange(policy, RecordOf(w, key), call);
    var grants := if reply.Ready?
                  then w.grants + [Grant(Claims(call.binding, call.role, credentialId), Expiries(w, key), Owed)]
                  else w.grants;
    w.(records := w.records[key := rec], grants := grants)
  }

  /** A colliding hash raises, and the material is lost. */
  function DoIssue(w: World, g: nat, hash: string): World {
    if g >= |w.grants| || w.grants[g].stage != Owed then w
    else if hash in w.tickets then Moved(w, g, Gone)
    else Moved(w, g, InTicket(hash)).(tickets := w.tickets[hash := g])
  }

  function DropTicket(w: World, hash: string, stage: Stage): World
    requires hash in w.tickets && w.tickets[hash] < |w.grants|
  {
    Moved(w, w.tickets[hash], stage).(tickets := w.tickets - {hash})
  }

  /** The gateway consumes the ticket before it compares the path. */
  function DoConsume(w: World, hash: string, path: Uuid): World {
    if hash !in w.tickets || w.tickets[hash] >= |w.grants| then w
    else
      var binding := w.grants[w.tickets[hash]].claims.binding;
      DropTicket(w, hash, if binding.deviceSessionId == path then Admitted(path) else Gone)
  }

  /** Last check against the database rows, then the lock section of connect. */
  function DoEnter(w: World, g: nat, db: Snapshot, now: int): World
    requires WellFormed(w.hub)
  {
    if g >= |w.grants| || !w.grants[g].stage.Admitted? then w
    else if !ClaimsAreCurrent(db, w.grants[g].claims, now) then Moved(w, g, Gone)
    else
      Moved(w, g, InHub(|w.origin|, w.grants[g].stage.path)).(
        hub := RelayHub.Apply(w.hub, Connect(w.grants[g].Key(), w.grants[g].Party())),
        origin := w.origin + [g])
  }

  /** Each event is one atomic step. */
  function Apply(policy: RelayExchange.Policy, w: World, e: Event): World
    requires WellFormed(w.hub)
  {
    match e
    case Exchange(call, credentialId) => DoExchange(policy, w, call, credentialId)
    case IssueTicket(g, hash) => DoIssue(w, g, hash)
    case ExpireRecord(key) =>
      w.(records := w.records - {key}, expiries := w.expiries[key := Expiries(w, key) + 1])
    case ExpireTicket(hash) =>
      if hash in w.tickets && w.tickets[hash] < |w.grants| then DropTicket(w, hash, Gone) else w
    case Consume(hash, path) => DoConsume(w, hash, path)
    case Enter(g, db, now) => DoEnter(w, g, db, now)
    case HubStep(step) => if step.Connect? then w else w.(hub := RelayHub.Apply(w.hub, step))
  }

  // ---------- What every event keeps

  /** A ticket's grant knows the ticket, so no two tickets share a grant. */
  ghost predicate TicketsBooked(w: World) {
    && (forall h | h in w.tickets :: w.tickets[h] < |w.grants| && w.grants[w.tickets[h]].stage == InTicket(h))
    && (forall g | 0 <= g < |w.grants| && w.grants[g].stage.Admitted? ::
          w.grants[g].stage.path == w.grants[g].Key().bindingId)
  }

  /** A hub endpoint's grant knows the endpoint, so no two endpoints share a grant. */
  ghost predicate EndpointBooked(w: World, i: nat) {
    && i < |w.origin| && w.origin[i] < |w.grants| && i < |w.hub.hub.endpoints|
    && var g := w.grants[w.origin[i]];
       && g.stage == InHub(i, g.Key().bindingId)
       && g.Key() == w.hub.hub.endpoints[i].key && g.Party() == w.hub.hub.endpoints[i].role
  }

  ghost predicate EndpointsBooked(w: World) {
    |w.origin| == |w.hub.hub.endpoints| && forall i | 0 <= i < |w.origin| :: EndpointBooked(w, i)
  }

  /** Within one lifetime of a record each role was granted at most once. */
  ghost predicate GrantedOnce(w: World) {
    && (forall i | 0 <= i < |w.grants| :: w.grants[i].lifetime <= Expiries(w, w.grants[i].Key()))
    && (forall i | 0 <= i < |w.grants| && w.grants[i].lifetime == Expiries(w, w.grants[i].Key()) ::
          w.grants[i].Party() in RecordOf(w, w.grants[i].Key()).issued)
    && (forall i, j | 0 <= i < j < |w.grants|
          && w.grants[i].Key() == w.grants[j].Key() && w.grants[i].Party() == w.grants[j].Party() ::
          w.grants[i].lifetime < w.grants[j].lifetime)
  }

  ghost predicate WorldInv(w: World) {
    Inv(w.hub) && TicketsBooked(w) && EndpointsBooked(w) && GrantedOnce(w)
  }

  /** Moving a grant that is not in the hub, keeping hub and endpoints. */
  lemma MoveKeepsEndpoints(w: World, w': World, g: nat, stage: Stage)
    requires EndpointsBooked(w) && g < |w.grants| && !w.grants[g].stage.InHub?
    requires w'.grants == w.grants[g := w.grants[g].(stage := stage)] && w'.hub == w.hub && w'.origin == w.origin
    ensures EndpointsBooked(w')
  {
    forall i | 0 <= i < |w'.origin| ensures EndpointBooked(w', i) {
      assert EndpointBooked(w, i);
    }
  }

  lemma MoveKeepsGrants(w: World, w': World, g: nat, stage: Stage)
    requires GrantedOnce(w) && g < |w.grants|
    requires w'.grants == w.grants[g := w.grants[g].(stage := stage)]
    requires w'.records == w.records && w'.expiries == w.expiries
    ensures GrantedOnce(w')
  {
  }

  lemma ExchangeKeeps(policy: RelayExchange.Policy, w: World, call: RelayExchange.Call, credentialId: Option<Uuid>)
    requires TicketsBooked(w) && EndpointsBooked(w) && GrantedOnce(w)
    ensures var w' := DoExchange(policy, w, call, credentialId);
      TicketsBooked(w') && EndpointsBooked(w') && GrantedOnce(w')
  {
    var w' := DoExchange(policy, w, call, credentialId);
    forall i | 0 <= i < |w'.origin| ensures EndpointBooked(w', i) {
      assert EndpointBooked(w, i);
    }
    ExchangeGrantsOnce(policy, w, call, credentialId);
  }

  lemma ExchangeGrantsOnce(policy: RelayExchange.Policy, w: World, call: RelayExchange.Call, credentialId: Option<Uuid>)
    requires GrantedOnce(w)
    ensures GrantedOnce(DoExchange(policy, w, call, credentialId))
  {
    var w', key := DoExchange(policy, w, call, credentialId), call.Key();
    var (rec, reply) := RelayExchange.Exchange(policy, RecordOf(w, key), call);
    assert RecordOf(w, key).issued <= rec.issued;
    assert forall k | k != key :: RecordOf(w', k) == RecordOf(w, k);
    assert RecordOf(w', key) == rec;
    assert forall i | 0 <= i < |w.grants| :: w'.grants[i] == w.grants[i];
    if reply.Ready? {
      assert call.role in rec.issued && call.role !in RecordOf(w, key).issued;
    }
  }

  lemma DropTicketKeeps(w: World, hash: string, stage: Stage)
    requires TicketsBooked(w) && EndpointsBooked(w) && GrantedOnce(w) && hash in w.tickets
    requires stage == Gone || stage == Admitted(w.grants[w.tickets[hash]].Key().bindingId)
    ensures var w' := DropTicket(w, hash, stage);
      TicketsBooked(w') && EndpointsBooked(w') && GrantedOnce(w')
  {
    var w' := DropTicket(w, hash, stage);
    MoveKeepsEndpoints(w, w', w.tickets[hash], stage);
    MoveKeepsGrants(w, w', w.tickets[hash], stage);
  }

  lemma IssueKeeps(w: World, g: nat, hash: string)
    requires TicketsBooked(w) && EndpointsBooked(w) && GrantedOnce(w)
    ensures var w' := DoIssue(w, g, hash);
      TicketsBooked(w') && EndpointsBooked(w') && GrantedOnce(w')
  {
    if g < |w.grants| && w.grants[g].stage == Owed {
      var w', stage := DoIssue(w, g, hash), if hash in w.tickets then Gone else InTicket(hash);
      MoveKeepsEndpoints(w, w', g, stage);
      MoveKeepsGrants(w, w', g, stage);
      IssueBooks(w, g, hash);
    }
  }

  lemma IssueBooks(w: World, g: nat, hash: string)
    requires TicketsBooked(w) && g < |w.grants| && w.grants[g].stage == Owed
    ensures TicketsBooked(DoIssue(w, g, hash))
  {
  }

  lemma EnterKeeps(w: World, g: nat, db: Snapshot, now: int)
    requires Inv(w.hub) && TicketsBooked(w) && EndpointsBooked(w) && GrantedOnce(w)
    ensures var w' := DoEnter(w, g, db, now);
      Inv(w'.hub) && TicketsBooked(w') && EndpointsBooked(w') && GrantedOnce(w')
  {
    if g < |w.grants| && w.grants[g].stage.Admitted? {
      var w' := DoEnter(w, g, db, now);
      MoveKeepsGrants(w, w', g, w'.grants[g].stage);
      if ClaimsAreCurrent(db, w.grants[g].claims, now) {
        StepKeepsInv(w.hub, Connect(w.grants[g].Key(), w.grants[g].Party()));
        EnterBooks(w, g, db, now);
      } else {
        MoveKeepsEndpoints(w, w', g, Gone);
      }
    }
  }

  lemma EnterBooks(w: World, g: nat, db: Snapshot, now: int)
    requires WellFormed(w.hub) && TicketsBooked(w) && EndpointsBooked(w)
    requires g < |w.grants| && w.grants[g].stage.Admitted? && ClaimsAreCurrent(db, w.grants[g].claims, now)
    ensures TicketsBooked(DoEnter(w, g, db, now)) && EndpointsBooked(DoEnter(w, g, db, now))
  {
    var w' := DoEnter(w, g, db, now);
    EndpointsGrow(w.hub, Connect(w.grants[g].Key(), w.grants[g].Party()));
    forall i | 0 <= i < |w'.origin| ensures EndpointBooked(w', i) {
      if i < |w.origin| {
        assert EndpointBooked(w, i);
      }
    }
  }

  lemma HubStepKeeps(w: World, step: Step)
    requires Inv(w.hub) && EndpointsBooked(w) && !step.Connect?
    ensures Inv(RelayHub.Apply(w.hub, step)) && EndpointsBooked(w.(hub := RelayHub.Apply(w.hub, step)))
  {
    StepKeepsInv(w.hub, step);
    EndpointsGrow(w.hub, step);
    var w' := w.(hub := RelayHub.Apply(w.hub, step));
    forall i | 0 <= i < |w'.origin| ensures EndpointBooked(w', i) {
      assert EndpointBooked(w, i);
    }
  }

  lemma ExpiryKeeps(w: World, key: RelayBinding)
    requires EndpointsBooked(w) && GrantedOnce(w)
    ensures var w' := w.(records := w.records - {key}, expiries := w.expiries[key := Expiries(w, key) + 1]);
      EndpointsBooked(w') && GrantedOnce(w')
  {
    var w' := w.(records := w.records - {key}, expiries := w.expiries[key := Expiries(w, key) + 1]);
    forall i | 0 <= i < |w'.origin| ensures EndpointBooked(w', i) {
      assert EndpointBooked(w, i);
    }
  }

  lemma ConsumeKeeps(w: World, hash: string, path: Uuid)
    requires TicketsBooked(w) && EndpointsBooked(w) && GrantedOnce(w)
    ensures var w' := DoConsume(w, hash, path);
      w'.hub == w.hub && TicketsBooked(w') && EndpointsBooked(w') && GrantedOnce(w')
  {
    if hash in w.tickets {
      var binding := w.grants[w.tickets[hash]].claims.binding;
      DropTicketKeeps(w, hash, if binding.deviceSessionId == path then Admitted(path) else Gone);
    }
  }

  lemma HubUntouched(w: World, w': World)
    requires WorldInv(w) && w'.hub == w.hub
    requires TicketsBooked(w') && EndpointsBooked(w') && GrantedOnce(w')
    ensures WorldInv(w')
  {
  }

  lemma TicketEventKeepsInv(policy: RelayExchange.Policy, w: World, e: Event)
    requires WorldInv(w) && (e.IssueTicket? || e.ExpireTicket? || e.Consume?)
    ensures WorldInv(Apply(policy, w, e))
  {
    match e
    case IssueTicket(g, hash) => IssueKeeps(w, g, hash);
    case ExpireTicket(hash) =>
      if hash in w.tickets {
        DropTicketKeeps(w, hash, Gone);
      }
    case Consume(hash, path) => ConsumeKeeps(w, hash, path);
    HubUntouched(w, Apply(policy, w, e));
  }

  lemma RecordEventKeepsInv(policy: RelayExchange.Policy, w: World, e: Event)
    requires WorldInv(w) && (e.Exchange? || e.ExpireRecord?)
    ensures WorldInv(Apply(policy, w, e))
  {
    match e
    case Exchange(call, credentialId) => ExchangeKeeps(policy, w, call, credentialId);
    case ExpireRecord(key) => ExpiryKeeps(w, key);
    HubUntouched(w, Apply(policy, w, e));
  }

  lemma HubEventKeepsInv(policy: RelayExchange.Policy, w: World, e: Event)
    requires WorldInv(w) && (e.Enter? || e.HubStep?)
    ensures WorldInv(Apply(policy, w, e))
  {
    if e.Enter? {
      EnterKeeps(w, e.g, e.db, e.now);
    } else if !e.step.Connect? {
      HubStepKeeps(w, e.step);
      GrantsUntouched(w, Apply(policy, w, e));
    }
  }

  lemma GrantsUntouched(w: World, w': World)
    requires TicketsBooked(w) && GrantedOnce(w) && w'.grants == w.grants && w'.tickets == w.tickets
    requires w'.records == w.records && w'.expiries == w.expiries
    ensures TicketsBooked(w') && GrantedOnce(w')
  {
  }

  lemma EventKeepsInv(policy: RelayExchange.Policy, w: World, e: Event)
    requires WorldInv(w)
    ensures WorldInv(Apply(policy, w, e))
  {
    if e.Exchange? || e.ExpireRecord? {
      RecordEventKeepsInv(policy, w, e);
    } else if e.Enter? || e.HubStep? {
      HubEventKeepsInv(policy, w, e);
    } else {
      TicketEventKeepsInv(policy, w, e);
    }
  }

  ghost function After(policy: RelayExchange.Policy, events: seq<Event>): (w: World)
    ensures WorldInv(w)
  {
    if events == [] then START
    else
      var before := After(policy, events[..|events| - 1]);
      EventKeepsInv(policy, before, events[|events| - 1]);
      Apply(policy, before, events[|events| - 1])
  }

  // ---------- Main results

  /** In every run each endpoint of the hub was earned by its own ready reply for its binding and
      role, came in under that binding's path, and within one lifetime of the binding's exchange
      record each role enters the hub at most once. */
  lemma EntriesAreEarned(policy: RelayExchange.Policy, events: seq<Event>, i: nat, j: nat)
    requires i < j < |After(policy, events).hub.hub.endpoints|
    ensures var w := After(policy, events);
      && j < |w.origin| && w.origin[i] < |w.grants| && w.origin[j] < |w.grants| && w.origin[i] != w.origin[j]
      && var a, b, g, h := w.hub.hub.endpoints[i], w.hub.hub.endpoints[j], w.grants[w.origin[i]], w.grants[w.origin[j]];
         && g.Key() == a.key && g.Party() == a.role && h.Key() == b.key && h.Party() == b.role
         && g.stage == InHub(i, a.key.bindingId) && h.stage == InHub(j, b.key.bindingId)
         && (a.key == b.key && a.role == b.role ==> g.lifetime != h.lifetime)
  {
    var w := After(policy, events);
    assert EndpointBooked(w, i) && EndpointBooked(w, j);
  }

  lemma OnceWithoutExpiry(w: World, key: RelayBinding)
    requires WorldInv(w) && Expiries(w, key) == 0
    ensures OncePerRole(w.hub.hub, key)
  {
    var endpoints := w.hub.hub.endpoints;
    forall i, j | 0 <= i < j < |endpoints| && endpoints[i].key == endpoints[j].key == key
      ensures endpoints[i].role != endpoints[j].role
    {
      assert EndpointBooked(w, i) && EndpointBooked(w, j);
      var g, h := w.grants[w.origin[i]], w.grants[w.origin[j]];
      assert g.lifetime <= Expiries(w, g.Key()) && h.lifetime <= Expiries(w, h.Key());
    }
  }

  lemma EventKeepsNoCrash(policy: RelayExchange.Policy, w: World, e: Event, key: RelayBinding)
    requires WorldInv(w) && NoCrash(w.hub, key) && Expiries(Apply(policy, w, e), key) == 0
    ensures WellFormed(Apply(policy, w, e).hub) && NoCrash(Apply(policy, w, e).hub, key)
  {
    EventKeepsInv(policy, w, e);
    OnceWithoutExpiry(Apply(policy, w, e), key);
    if e.HubStep? && !e.step.Connect? {
      StepKeepsNoCrash(w.hub, e.step, key);
    }
    if e.Enter? && e.g < |w.grants| && w.grants[e.g].stage.Admitted?
       && ClaimsAreCurrent(e.db, w.grants[e.g].claims, e.now) {
      StepKeepsNoCrash(w.hub, Connect(w.grants[e.g].Key(), w.grants[e.g].Party()), key);
    }
  }

  lemma ExpiriesGrow(policy: RelayExchange.Policy, w: World, e: Event, key: RelayBinding)
    requires WellFormed(w.hub)
    ensures Expiries(w, key) <= Expiries(Apply(policy, w, e), key)
  {
  }

  /** As long as a binding's exchange record never expires, no connect on that binding dies in
      set_result, whatever the other bindings do: the store and the gateway discharge the
      hypothesis of the hub. */
  lemma {:induction false} NoCrashWithoutExpiry(policy: RelayExchange.Policy, events: seq<Event>, key: RelayBinding)
    requires Expiries(After(policy, events), key) == 0
    ensures NoCrash(After(policy, events).hub, key)
  {
    if events != [] {
      var before := After(policy, events[..|events| - 1]);
      ExpiriesGrow(policy, before, events[|events| - 1], key);
      NoCrashWithoutExpiry(policy, events[..|events| - 1], key);
      EventKeepsNoCrash(policy, before, events[|events| - 1], key);
    }
  }

  // ---------- When a connect crashes

  /** Hub endpoint i was earned in another lifetime of the exchange record than grant g. */
  ghost predicate OtherLifetime(w: World, i: nat, g: nat) {
    && g < |w.grants| && i < |w.origin| && w.origin[i] < |w.grants|
    && w.grants[w.origin[i]].lifetime != w.grants[g].lifetime
  }

  lemma SameRoleOtherLifetime(w: World, g: nat, i: nat)
    requires WorldInv(w) && g < |w.grants| && w.grants[g].stage.Admitted?
    requires i < |w.hub.phase|
    requires w.hub.hub.endpoints[i].key == w.grants[g].Key() && w.hub.hub.endpoints[i].role == w.grants[g].Party()
    ensures OtherLifetime(w, i, g)
  {
    assert EndpointBooked(w, i);
  }

  /** When exactly the entry of an admitted, current ticket crashes: no connect of its role is
      stored, and a stored peer already holds an endpoint that its role earned in another lifetime
      of the exchange record. On a binding without earlier crashes that endpoint has left and its
      partner has outlived it. */
  lemma EntryCrashesExactly(w: World, g: nat, db: Snapshot, now: int)
    requires WorldInv(w) && g < |w.grants| && w.grants[g].stage.Admitted?
    requires ClaimsAreCurrent(db, w.grants[g].claims, now)
    ensures var key, role := w.grants[g].Key(), w.grants[g].Party();
      var after := DoEnter(w, g, db, now).hub;
      && |after.phase| == |w.hub.phase| + 1
      && (after.phase[|w.hub.phase|] == Crashed <==>
            NoneStored(w.hub, key, role) && exists i, p :: Taken(w.hub, key, role, i, p) && OtherLifetime(w, i, g))
      && (NoCrash(w.hub, key) ==>
            (after.phase[|w.hub.phase|] == Crashed <==>
               exists i, p :: Outlived(w.hub, key, role, i, p) && OtherLifetime(w, i, g)))
  {
    var key, role := w.grants[g].Key(), w.grants[g].Party();
    forall i, p | Taken(w.hub, key, role, i, p) ensures OtherLifetime(w, i, g) {
      SameRoleOtherLifetime(w, g, i);
    }
    forall i, p | Outlived(w.hub, key, role, i, p) ensures OtherLifetime(w, i, g) {
      SameRoleOtherLifetime(w, g, i);
    }
    CrashExactly(w.hub, key, role);
    if NoCrash(w.hub, key) {
      FirstCrashExactly(w.hub, key, role);
    }
  }

  // ---------- Runs from any world

  lemma EventKeepsWellFormed(policy: RelayExchange.Policy, w: World, e: Event)
    requires WellFormed(w.hub)
    ensures WellFormed(Apply(policy, w, e).hub)
  {
    if e.HubStep? {
      StepKeepsWellFormed(w.hub, e.step);
    }
    if e.Enter? && e.g < |w.grants| {
      StepKeepsWellFormed(w.hub, Connect(w.grants[e.g].Key(), w.grants[e.g].Party()));
    }
  }

  ghost function RunFrom(policy: RelayExchange.Policy, w: World, events: seq<Event>): (w': World)
    requires WellFormed(w.hub)
    ensures WellFormed(w'.hub)
    decreases |events|
  {
    if events == [] then w
    else
      EventKeepsWellFormed(policy, w, events[0]);
      RunFrom(policy, Apply(policy, w, events[0]), events[1..])
  }

  lemma RunFirst(policy: RelayExchange.Policy, w: World, e: Event, others: seq<Event>)
    requires WellFormed(w.hub)
    ensures WellFormed(Apply(policy, w, e).hub)
    ensures RunFrom(policy, w, [e] + others) == RunFrom(policy, Apply(policy, w, e), others)
  {
    EventKeepsWellFormed(policy, w, e);
    assert ([e] + others)[1..] == others;
  }

  lemma {:induction false} RunConcat(policy: RelayExchange.Policy, w: World, a: seq<Event>, b: seq<Event>)
    requires WellFormed(w.hub)
    ensures RunFrom(policy, w, a + b) == RunFrom(policy, RunFrom(policy, w, a), b)
    decreases |a|
  {
    if a == [] {
      assert a + b == b;
    } else {
      assert a + b == [a[0]] + (a[1..] + b);
      RunFirst(policy, w, a[0], a[1..] + b);
      RunConcat(policy, Apply(policy, w, a[0]), a[1..], b);
    }
  }

  lemma RunOne(policy: RelayExchange.Policy, w: World, e: Event)
    requires WellFormed(w.hub)
    ensures WellFormed(Apply(policy, w, e).hub) && RunFrom(policy, w, [e]) == Apply(policy, w, e)
  {
    RunFirst(policy, w, e, []);
    assert [e] + [] == [e];
  }

  lemma {:induction false} AfterIsRun(policy: RelayExchange.Policy, events: seq<Event>)
    ensures After(policy, events) == RunFrom(policy, START, events)
  {
    if events != [] {
      var front, e := events[..|events| - 1], events[|events| - 1];
      AfterIsRun(policy, front);
      assert events == front + [e];
      RunConcat(policy, START, front, [e]);
      RunOne(policy, After(policy, front), e);
    }
  }
}

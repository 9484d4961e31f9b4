/**
 The relay with its clocked stores, as one system: exchange calls, ticket calls, entries and hub
 steps interleave, and records and tickets lapse by the clock alone. Each of its runs is matched by a
 run of the event system, so what holds there holds here.
 */
module RelayClockedRuns {
  import opened Wrappers
  import opened RelayIdentity
  import Exchange = RelayExchange
  import Tickets = RelayTickets
  import Hub = RelayHub
  import opened RelayGateway
  import opened RelayTimedStores
  import opened RelayLedgers

  /** Stores, the ready replies that are owed a ticket, the claims between ticket check and database
      check, and the hub. */
  datatype Clocked = Clocked(
    store: Exchange.Store, tickets: Tickets.Tickets,
    owed: multiset<Claims>, admitted: multiset<Claims>, hub: Hub.System)

  const FRESH := Clocked(map[], map[], multiset{}, multiset{}, Hub.INITIAL)

  datatype Step =
    | Register(call: Exchange.Call, credentialId: Option<Uuid>)
    | Issue(claims: Claims, hash: string, ttl: int, now: int)
    | Consume(hash: string, now: int, path: Uuid)
    | Enter(claims: Claims, db: Snapshot, now: int)
    | HubMoves(step: Hub.Step)

  function Arrived(reply: Tickets.Reply, path: Uuid): multiset<Claims> {
    if reply.Consumed? && reply.claims.binding.deviceSessionId == path then multiset{reply.claims} else multiset{}
  }

  /** A colliding ticket hash raises, and the material is lost. */
  function ClockedStep(policy: Exchange.Policy, medium: Tickets.Medium, s: Clocked, step: Step): Clocked
    requires Hub.WellFormed(s.hub)
  {
    match step
    case Register(c, credentialId) =>
      var (store', reply) := Exchange.StoreStep(policy, s.store, c);
      var earned := if reply.Ready? then multiset{Claims(c.binding, c.role, credentialId)} else multiset{};
      s.(store := store', owed := s.owed + earned)
    case Issue(claims, hash, ttl, now) =>
      if claims !in s.owed then s
      else
        s.(tickets := Tickets.TicketStep(medium, s.tickets, Tickets.Issue(hash, claims, ttl, now)).0,
           owed := s.owed - multiset{claims})
    case Consume(hash, now, path) =>
      var (tickets', reply) := Tickets.TicketStep(medium, s.tickets, Tickets.Consume(hash, now));
      s.(tickets := tickets', admitted := s.admitted + Arrived(reply, path))
    case Enter(claims, db, now) =>
      if claims !in s.admitted then s
      else
        var hub' := if ClaimsAreCurrent(db, claims, now)
                    then Hub.Apply(s.hub, Hub.Connect(claims.binding.Relay(), claims.role)) else s.hub;
        s.(admitted := s.admitted - multiset{claims}, hub := hub')
    case HubMoves(step) => if step.Connect? then s else s.(hub := Hub.Apply(s.hub, step))
  }

  lemma ClockedStepWellFormed(policy: Exchange.Policy, medium: Tickets.Medium, s: Clocked, step: Step)
    requires Hub.WellFormed(s.hub)
    ensures Hub.WellFormed(ClockedStep(policy, medium, s, step).hub)
  {
    if step.HubMoves? {
      Hub.StepKeepsWellFormed(s.hub, step.step);
    }
    if step.Enter? {
      Hub.StepKeepsWellFormed(s.hub, Hub.Connect(step.claims.binding.Relay(), step.claims.role));
    }
  }

  ghost function ClockedAfter(policy: Exchange.Policy, medium: Tickets.Medium, steps: seq<Step>): (s: Clocked)
    ensures Hub.WellFormed(s.hub)
  {
    if steps == [] then FRESH
    else
      var before := ClockedAfter(policy, medium, steps[..|steps| - 1]);
      ClockedStepWellFormed(policy, medium, before, steps[|steps| - 1]);
      ClockedStep(policy, medium, before, steps[|steps| - 1])
  }

  /** The step is an exchange call on the key that finds the key's record lapsed. */
  predicate MeetsLapsed(s: Clocked, step: Step, key: RelayBinding) {
    step.Register? && step.call.Key() == key && key in s.store && !Exchange.Live(s.store, step.call)
  }

  /** No exchange call of the run on the key finds a lapsed record. */
  ghost predicate NeverLapsed(policy: Exchange.Policy, medium: Tickets.Medium, steps: seq<Step>, key: RelayBinding) {
    forall i | 0 <= i < |steps| :: !MeetsLapsed(ClockedAfter(policy, medium, steps[..i]), steps[i], key)
  }

  // ---------- Simulation

  ghost predicate Matches(w: World, s: Clocked) {
    && Refines(w, s.store, s.tickets) && w.hub == s.hub
    && SameLedgers(w, s.owed, s.admitted)
  }

  lemma GrantedLedgers(w: World, w': World, c: Exchange.Call, credentialId: Option<Uuid>, reply: Exchange.Reply)
    requires Granted(w, w', c, credentialId, reply)
    ensures SameLedgers(w', Ledger(w.grants, AwaitsTicket) +
                              if reply.Ready? then multiset{Claims(c.binding, c.role, credentialId)} else multiset{},
                        Ledger(w.grants, AtGateway))
  {
    if reply.Ready? {
      var earned := Grant(Claims(c.binding, c.role, credentialId), Expiries(w', c.Key()), Owed);
      LedgerSnoc(w.grants, earned, AwaitsTicket);
      LedgerSnoc(w.grants, earned, AtGateway);
    } else {
      assert w'.grants == w.grants;
    }
  }

  lemma RegisterSimulated(
      policy: Exchange.Policy, medium: Tickets.Medium, w: World, s: Clocked, step: Step, key: RelayBinding)
      returns (events: seq<Event>)
    requires Matches(w, s) && Hub.WellFormed(s.hub) && step.Register?
    ensures Matches(RunFrom(policy, w, events), ClockedStep(policy, medium, s, step))
    ensures !MeetsLapsed(s, step, key) ==> Expiries(RunFrom(policy, w, events), key) == Expiries(w, key)
  {
    var c, credentialId := step.call, step.credentialId;
    events := ForExchange(s.store, c, credentialId);
    var w', reply := RunFrom(policy, w, events), Exchange.StoreStep(policy, s.store, c).1;
    ExchangeRefines(policy, w, s.store, s.tickets, c, credentialId);
    if !MeetsLapsed(s, step, key) {
      ExchangeExpires(policy, w, s.store, c, credentialId, key);
    }
    GrantedLedgers(w, w', c, credentialId, reply);
  }

  lemma ExchangeExpires(
      policy: Exchange.Policy, w: World, store: Exchange.Store, c: Exchange.Call, credentialId: Option<Uuid>,
      key: RelayBinding)
    requires Hub.WellFormed(w.hub)
    requires !(key == c.Key() && key in store && !Exchange.Live(store, c))
    ensures Expiries(RunFrom(policy, w, ForExchange(store, c, credentialId)), key) == Expiries(w, key)
  {
    var e := Event.Exchange(c, credentialId);
    RunUpToTwo(policy, w, ExpireRecord(c.Key()), e);
    RunUpToTwo(policy, w, e, e);
  }

  lemma IssueLedgers(w: World, g: nat, hash: string)
    requires g < |w.grants| && w.grants[g].stage == Owed
    ensures var w', claims := DoIssue(w, g, hash), w.grants[g].claims;
      SameLedgers(w', Ledger(w.grants, AwaitsTicket) - multiset{claims}, Ledger(w.grants, AtGateway))
  {
    var w', claims := DoIssue(w, g, hash), w.grants[g].claims;
    MovedLedgers(w, g, if hash in w.tickets then Gone else InTicket(hash), w');
    TakenOut(Ledger(w'.grants, AwaitsTicket), Ledger(w.grants, AwaitsTicket), claims);
    NothingMoved(Ledger(w'.grants, AtGateway), Ledger(w.grants, AtGateway));
  }

  lemma DropLedgers(w: World, hash: string, stage: Stage)
    requires hash in w.tickets && w.tickets[hash] < |w.grants| && w.grants[w.tickets[hash]].stage.InTicket?
    requires stage == Gone || stage.Admitted?
    ensures var w', claims := DropTicket(w, hash, stage), w.grants[w.tickets[hash]].claims;
      SameLedgers(w', Ledger(w.grants, AwaitsTicket),
                  Ledger(w.grants, AtGateway) + if stage.Admitted? then multiset{claims} else multiset{})
  {
    var w' := DropTicket(w, hash, stage);
    MovedLedgers(w, w.tickets[hash], stage, w');
    NothingMoved(Ledger(w'.grants, AwaitsTicket), Ledger(w.grants, AwaitsTicket));
    assert Ledger(w'.grants, AtGateway) + multiset{} == Ledger(w'.grants, AtGateway);
  }

  /** An owed grant is not the one in a ticket. */
  lemma OwedKept(w: World, hash: string, g: nat)
    requires TicketsBooked(w) && hash in w.tickets && g < |w.grants| && w.grants[g].stage == Owed
    ensures DropTicket(w, hash, Gone).grants[g] == w.grants[g]
  {
  }

  lemma LeftoverLedgers(w: World, g: nat, hash: string)
    requires TicketsBooked(w) && hash in w.tickets && g < |w.grants| && w.grants[g].stage == Owed
    ensures var w', claims := DoIssue(DropTicket(w, hash, Gone), g, hash), w.grants[g].claims;
      SameLedgers(w', Ledger(w.grants, AwaitsTicket) - multiset{claims}, Ledger(w.grants, AtGateway))
  {
    DropLedgers(w, hash, Gone);
    OwedKept(w, hash, g);
    IssueLedgers(DropTicket(w, hash, Gone), g, hash);
    assert Ledger(w.grants, AtGateway) + multiset{} == Ledger(w.grants, AtGateway);
  }

  lemma IssueCallLedgers(
      policy: Exchange.Policy, medium: Tickets.Medium, w: World, st: Tickets.Tickets, e: Tickets.Event, g: nat)
    requires Hub.WellFormed(w.hub) && TicketsBooked(w) && Booked(w, st) && e.Issue?
    requires g < |w.grants| && w.grants[g].stage == Owed
    ensures var w' := RunFrom(policy, w, ForTicket(medium, st, e, g, 0));
      SameLedgers(w', Ledger(w.grants, AwaitsTicket) - multiset{w.grants[g].claims}, Ledger(w.grants, AtGateway))
  {
    IssueCallRuns(policy, medium, w, st, e, g, 0);
    if medium.InRedis? && Tickets.ExpiredLeftover(st, e) {
      LeftoverLedgers(w, g, e.hash);
    } else {
      IssueLedgers(w, g, e.hash);
    }
  }

  lemma TicketHeld(w: World, st: Tickets.Tickets, hash: string)
    requires TicketsBooked(w) && Booked(w, st) && hash in st
    ensures hash in w.tickets && w.tickets[hash] < |w.grants| && w.grants[w.tickets[hash]].stage.InTicket?
    ensures w.grants[w.tickets[hash]].claims == st[hash].claims
  {
  }

  lemma LiveTicketLedgers(w: World, st: Tickets.Tickets, hash: string, path: Uuid)
    requires TicketsBooked(w) && Booked(w, st) && hash in st
    ensures SameLedgers(DoConsume(w, hash, path), Ledger(w.grants, AwaitsTicket),
                        Ledger(w.grants, AtGateway) + Arrived(Tickets.Consumed(st[hash].claims), path))
  {
    TicketHeld(w, st, hash);
    DropLedgers(w, hash, if st[hash].claims.binding.deviceSessionId == path then Admitted(path) else Gone);
  }

  lemma DeadTicketLedgers(w: World, st: Tickets.Tickets, hash: string)
    requires TicketsBooked(w) && Booked(w, st) && hash in st
    ensures SameLedgers(DropTicket(w, hash, Gone), Ledger(w.grants, AwaitsTicket),
                        Ledger(w.grants, AtGateway) + multiset{})
  {
    TicketHeld(w, st, hash);
    DropLedgers(w, hash, Gone);
  }

  lemma NoTicketLedgers(w: World, st: Tickets.Tickets, hash: string, path: Uuid)
    requires Booked(w, st) && hash !in st
    ensures DoConsume(w, hash, path) == w
  {
    assert hash !in w.tickets.Keys;
  }

  lemma ConsumeLedgers(medium: Tickets.Medium, w: World, st: Tickets.Tickets, e: Tickets.Event, path: Uuid)
    requires TicketsBooked(w) && Booked(w, st) && e.Consume?
    ensures SameLedgers(ConsumedWorld(w, st, e, path), Ledger(w.grants, AwaitsTicket),
                        Ledger(w.grants, AtGateway) + Arrived(Tickets.TicketStep(medium, st, e).1, path))
  {
    ConsumeReply(medium, st, e);
    if e.hash !in st {
      NoTicketLedgers(w, st, e.hash, path);
      assert Ledger(w.grants, AtGateway) + multiset{} == Ledger(w.grants, AtGateway);
    } else if st[e.hash].deadline <= e.now {
      DeadTicketLedgers(w, st, e.hash);
    } else {
      LiveTicketLedgers(w, st, e.hash, path);
    }
  }

  lemma ConsumeCallLedgers(
      policy: Exchange.Policy, medium: Tickets.Medium, w: World, st: Tickets.Tickets, e: Tickets.Event, path: Uuid)
    requires Hub.WellFormed(w.hub) && TicketsBooked(w) && Booked(w, st) && e.Consume?
    ensures var w', reply := RunFrom(policy, w, ForTicket(medium, st, e, 0, path)), Tickets.TicketStep(medium, st, e).1;
      SameLedgers(w', Ledger(w.grants, AwaitsTicket), Ledger(w.grants, AtGateway) + Arrived(reply, path))
  {
    ConsumeCallRuns(policy, medium, w, st, e, 0, path);
    ConsumeLedgers(medium, w, st, e, path);
  }

  lemma TicketSimulated(policy: Exchange.Policy, medium: Tickets.Medium, w: World, s: Clocked, step: Step)
      returns (events: seq<Event>)
    requires Matches(w, s) && Hub.WellFormed(s.hub) && (step.Issue? || step.Consume?)
    ensures Matches(RunFrom(policy, w, events), ClockedStep(policy, medium, s, step))
    ensures RunFrom(policy, w, events).expiries == w.expiries
  {
    match step
    case Issue(claims, hash, ttl, now) =>
      events := [];
      if claims in s.owed {
        var g := LedgerFinds(w.grants, AwaitsTicket, claims);
        var e := Tickets.Issue(hash, claims, ttl, now);
        events := ForTicket(medium, s.tickets, e, g, 0);
        TicketRefines(policy, medium, w, s.store, s.tickets, e, g, 0);
        IssueCallLedgers(policy, medium, w, s.tickets, e, g);
      }
    case Consume(hash, now, path) =>
      var e := Tickets.Consume(hash, now);
      events := ForTicket(medium, s.tickets, e, 0, path);
      TicketRefines(policy, medium, w, s.store, s.tickets, e, 0, path);
      ConsumeCallLedgers(policy, medium, w, s.tickets, e, path);
  }

  lemma StoresUntouched(w: World, w': World, store: Exchange.Store, st: Tickets.Tickets)
    requires Recorded(w, store) && Booked(w, st) && w'.records == w.records && w'.tickets == w.tickets
    requires |w'.grants| == |w.grants| && forall g | 0 <= g < |w.grants| :: w'.grants[g].claims == w.grants[g].claims
    ensures Recorded(w', store) && Booked(w', st)
  {
    forall k ensures RecordOf(w', k) == if k in store then store[k].record else Exchange.EMPTY {
      assert RecordOf(w, k) == RecordOf(w', k);
    }
  }

  /** Hub events leave records, tickets and everybody's claims alone. */
  lemma HubEventFrame(policy: Exchange.Policy, w: World, e: Event)
    requires Hub.WellFormed(w.hub) && (e.Enter? || e.HubStep?)
    ensures var w' := Apply(policy, w, e);
      && w'.records == w.records && w'.tickets == w.tickets && w'.expiries == w.expiries
      && |w'.grants| == |w.grants| && forall g | 0 <= g < |w.grants| :: w'.grants[g].claims == w.grants[g].claims
  {
    if e.Enter? {
      EnterFrame(w, e.g, e.db, e.now);
    }
  }

  lemma EnterFrame(w: World, g: nat, db: Snapshot, now: int)
    requires Hub.WellFormed(w.hub)
    ensures var w' := DoEnter(w, g, db, now);
      && w'.records == w.records && w'.tickets == w.tickets && w'.expiries == w.expiries
      && |w'.grants| == |w.grants| && forall i | 0 <= i < |w.grants| :: w'.grants[i].claims == w.grants[i].claims
  {
  }

  lemma HubEventRefines(policy: Exchange.Policy, w: World, store: Exchange.Store, st: Tickets.Tickets, e: Event)
    requires Refines(w, store, st) && (e.Enter? || e.HubStep?)
    ensures Refines(Apply(policy, w, e), store, st) && Apply(policy, w, e).expiries == w.expiries
  {
    EventKeepsInv(policy, w, e);
    HubEventFrame(policy, w, e);
    StoresUntouched(w, Apply(policy, w, e), store, st);
  }

  lemma Entered(w: World, g: nat, db: Snapshot, now: int)
    requires Hub.WellFormed(w.hub) && g < |w.grants| && w.grants[g].stage.Admitted?
    ensures var w', claims := DoEnter(w, g, db, now), w.grants[g].claims;
      && SameLedgers(w', Ledger(w.grants, AwaitsTicket), Ledger(w.grants, AtGateway) - multiset{claims})
      && w'.hub == if ClaimsAreCurrent(db, claims, now)
                   then Hub.Apply(w.hub, Hub.Connect(claims.binding.Relay(), claims.role)) else w.hub
  {
    var w' := DoEnter(w, g, db, now);
    MovedLedgers(w, g, w'.grants[g].stage, w');
    NothingMoved(Ledger(w'.grants, AwaitsTicket), Ledger(w.grants, AwaitsTicket));
    TakenOut(Ledger(w'.grants, AtGateway), Ledger(w.grants, AtGateway), w.grants[g].claims);
  }

  lemma EnterRefines(
      policy: Exchange.Policy, w: World, store: Exchange.Store, st: Tickets.Tickets, g: nat, db: Snapshot, now: int)
    requires Refines(w, store, st)
    ensures Refines(DoEnter(w, g, db, now), store, st) && DoEnter(w, g, db, now).expiries == w.expiries
  {
    HubEventRefines(policy, w, store, st, Event.Enter(g, db, now));
  }

  lemma EnteredMatches(policy: Exchange.Policy, w: World, s: Clocked, g: nat, db: Snapshot, now: int)
    requires Matches(w, s) && Hub.WellFormed(s.hub) && g < |w.grants| && w.grants[g].stage.Admitted?
    ensures var w' := DoEnter(w, g, db, now);
      && Matches(w', s.(admitted := s.admitted - multiset{w.grants[g].claims}, hub := w'.hub))
      && w'.expiries == w.expiries
  {
    EnterRefines(policy, w, s.store, s.tickets, g, db, now);
    Entered(w, g, db, now);
  }

  lemma EnteredClocked(
      policy: Exchange.Policy, medium: Tickets.Medium, w: World, s: Clocked, g: nat, db: Snapshot, now: int)
    requires Hub.WellFormed(s.hub) && w.hub == s.hub && g < |w.grants| && w.grants[g].stage.Admitted?
    requires w.grants[g].claims in s.admitted
    ensures ClockedStep(policy, medium, s, Step.Enter(w.grants[g].claims, db, now)) ==
      s.(admitted := s.admitted - multiset{w.grants[g].claims}, hub := DoEnter(w, g, db, now).hub)
  {
  }

  lemma EnterRuns(policy: Exchange.Policy, w: World, g: nat, db: Snapshot, now: int)
    requires Hub.WellFormed(w.hub)
    ensures RunFrom(policy, w, [Event.Enter(g, db, now)]) == DoEnter(w, g, db, now)
  {
    RunOne(policy, w, Event.Enter(g, db, now));
  }

  lemma EnterSimulated(
      policy: Exchange.Policy, medium: Tickets.Medium, w: World, s: Clocked, claims: Claims, db: Snapshot, now: int)
      returns (events: seq<Event>)
    requires Matches(w, s) && Hub.WellFormed(s.hub) && claims in s.admitted
    ensures Matches(RunFrom(policy, w, events), ClockedStep(policy, medium, s, Step.Enter(claims, db, now)))
    ensures RunFrom(policy, w, events).expiries == w.expiries
  {
    var g := LedgerFinds(w.grants, AtGateway, claims);
    events := [Event.Enter(g, db, now)];
    EnterRuns(policy, w, g, db, now);
    EnteredMatches(policy, w, s, g, db, now);
    EnteredClocked(policy, medium, w, s, g, db, now);
  }

  lemma HubMoveSimulated(policy: Exchange.Policy, medium: Tickets.Medium, w: World, s: Clocked, step: Hub.Step)
      returns (events: seq<Event>)
    requires Matches(w, s) && Hub.WellFormed(s.hub)
    ensures Matches(RunFrom(policy, w, events), ClockedStep(policy, medium, s, Step.HubMoves(step)))
    ensures RunFrom(policy, w, events).expiries == w.expiries
  {
    var e := HubStep(step);
    events := [e];
    RunOne(policy, w, e);
    HubEventRefines(policy, w, s.store, s.tickets, e);
    assert Apply(policy, w, e).grants == w.grants;
  }

  lemma HubEventSimulated(policy: Exchange.Policy, medium: Tickets.Medium, w: World, s: Clocked, step: Step)
      returns (events: seq<Event>)
    requires Matches(w, s) && Hub.WellFormed(s.hub) && (step.Enter? || step.HubMoves?)
    ensures Matches(RunFrom(policy, w, events), ClockedStep(policy, medium, s, step))
    ensures RunFrom(policy, w, events).expiries == w.expiries
  {
    events := [];
    if step.HubMoves? {
      events := HubMoveSimulated(policy, medium, w, s, step.step);
    } else if step.claims in s.admitted {
      events := EnterSimulated(policy, medium, w, s, step.claims, step.db, step.now);
    }
  }

  lemma StepSimulated(
      policy: Exchange.Policy, medium: Tickets.Medium, w: World, s: Clocked, step: Step, key: RelayBinding)
      returns (events: seq<Event>)
    requires Matches(w, s) && Hub.WellFormed(s.hub)
    ensures Matches(RunFrom(policy, w, events), ClockedStep(policy, medium, s, step))
    ensures !MeetsLapsed(s, step, key) ==> Expiries(RunFrom(policy, w, events), key) == Expiries(w, key)
  {
    if step.Register? {
      events := RegisterSimulated(policy, medium, w, s, step, key);
    } else if step.Issue? || step.Consume? {
      events := TicketSimulated(policy, medium, w, s, step);
    } else {
      events := HubEventSimulated(policy, medium, w, s, step);
    }
  }

  // ---------- Main results

  lemma NeverLapsedFront(policy: Exchange.Policy, medium: Tickets.Medium, steps: seq<Step>, key: RelayBinding)
    requires steps != [] && NeverLapsed(policy, medium, steps, key)
    ensures var n := |steps| - 1;
      && NeverLapsed(policy, medium, steps[..n], key)
      && !MeetsLapsed(ClockedAfter(policy, medium, steps[..n]), steps[n], key)
  {
    var front := steps[..|steps| - 1];
    forall i | 0 <= i < |front| ensures !MeetsLapsed(ClockedAfter(policy, medium, front[..i]), front[i], key) {
      assert front[..i] == steps[..i];
    }
  }

  /** Every run of the clocked system is matched by a run of the event system from the start, with the
      same hub, tickets and records, in which a key's record expires only if an exchange call of the
      run on that key found it lapsed. */
  lemma {:induction false} ClockedRunsAreRuns(
      policy: Exchange.Policy, medium: Tickets.Medium, steps: seq<Step>, key: RelayBinding) returns (events: seq<Event>)
    ensures Matches(After(policy, events), ClockedAfter(policy, medium, steps))
    ensures NeverLapsed(policy, medium, steps, key) ==> Expiries(After(policy, events), key) == 0
  {
    if steps == [] {
      events := [];
      EmptyStoresRefine();
    } else {
      var front, step := steps[..|steps| - 1], steps[|steps| - 1];
      var before := ClockedRunsAreRuns(policy, medium, front, key);
      if NeverLapsed(policy, medium, steps, key) {
        NeverLapsedFront(policy, medium, steps, key);
      }
      var more := StepSimulated(policy, medium, After(policy, before), ClockedAfter(policy, medium, front), step, key);
      events := before + more;
      AfterIsRun(policy, before);
      AfterIsRun(policy, events);
      RunConcat(policy, START, before, more);
    }
  }

  /** With clocked stores of either kind: as long as no exchange call on a binding finds its record
      lapsed, each role enters the hub at most once on it and no connect on it crashes. */
  lemma ClockedRunsNeverCrash(
      policy: Exchange.Policy, medium: Tickets.Medium, steps: seq<Step>, key: RelayBinding)
    requires NeverLapsed(policy, medium, steps, key)
    ensures Hub.OncePerRole(ClockedAfter(policy, medium, steps).hub.hub, key)
    ensures Hub.NoCrash(ClockedAfter(policy, medium, steps).hub, key)
  {
    var events := ClockedRunsAreRuns(policy, medium, steps, key);
    OnceWithoutExpiry(After(policy, events), key);
    NoCrashWithoutExpiry(policy, events, key);
  }
}

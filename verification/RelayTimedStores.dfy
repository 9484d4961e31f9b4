/**
 The stores with their clocks refine the gateway's system, where records and tickets expire by
 events: every call on a store, at whatever instant, is answered as the corresponding events are.
 */
module RelayTimedStores {
  import opened Wrappers
  import opened RelayIdentity
  import Exchange = RelayExchange
  import Tickets = RelayTickets
  import Hub = RelayHub
  import opened RelayGateway

  /** The system's tickets carry the claims of the store's tickets. */
  ghost predicate Booked(w: World, st: Tickets.Tickets) {
    && w.tickets.Keys == st.Keys
    && forall h | h in st :: w.tickets[h] < |w.grants| && w.grants[w.tickets[h]].claims == st[h].claims
  }

  /** The system's exchange records are the store's. */
  ghost predicate Recorded(w: World, store: Exchange.Store) {
    forall k :: RecordOf(w, k) == if k in store then store[k].record else Exchange.EMPTY
  }

  ghost predicate Refines(w: World, store: Exchange.Store, st: Tickets.Tickets) {
    WorldInv(w) && Recorded(w, store) && Booked(w, st)
  }

  lemma EmptyStoresRefine()
    ensures Refines(START, map[], map[])
  {
  }

  lemma {:induction false} RunKeepsInv(policy: Exchange.Policy, w: World, events: seq<Event>)
    requires WorldInv(w)
    ensures WorldInv(RunFrom(policy, w, events))
    decreases |events|
  {
    if events != [] {
      EventKeepsInv(policy, w, events[0]);
      RunKeepsInv(policy, Apply(policy, w, events[0]), events[1..]);
    }
  }

  lemma RunUpToTwo(policy: Exchange.Policy, w: World, a: Event, b: Event)
    requires Hub.WellFormed(w.hub)
    ensures Hub.WellFormed(Apply(policy, w, a).hub)
    ensures RunFrom(policy, w, [a]) == Apply(policy, w, a)
    ensures RunFrom(policy, w, [a, b]) == Apply(policy, Apply(policy, w, a), b)
  {
    RunOne(policy, w, a);
    RunFirst(policy, w, a, [b]);
    assert [a] + [b] == [a, b];
    RunOne(policy, Apply(policy, w, a), b);
  }

  // ---------- Exchange calls

  /** An expired record is first expired by an event. */
  function ForExchange(store: Exchange.Store, c: Exchange.Call, credentialId: Option<Uuid>): seq<Event> {
    if c.Key() in store && !Exchange.Live(store, c) then [ExpireRecord(c.Key()), Event.Exchange(c, credentialId)]
    else [Event.Exchange(c, credentialId)]
  }

  lemma ExpiryRecorded(policy: Exchange.Policy, w: World, store: Exchange.Store, key: RelayBinding)
    requires Hub.WellFormed(w.hub) && Recorded(w, store)
    ensures Recorded(Apply(policy, w, ExpireRecord(key)), store - {key})
  {
    var w' := Apply(policy, w, ExpireRecord(key));
    forall k ensures RecordOf(w', k) == if k in store - {key} then store[k].record else Exchange.EMPTY {
      assert RecordOf(w, k) == if k in store then store[k].record else Exchange.EMPTY;
    }
  }

  lemma ExchangeRecorded(
      policy: Exchange.Policy, w: World, store: Exchange.Store, c: Exchange.Call, credentialId: Option<Uuid>)
    requires Recorded(w, store) && (c.Key() in store ==> Exchange.Live(store, c))
    ensures Recorded(DoExchange(policy, w, c, credentialId), Exchange.StoreStep(policy, store, c).0)
    ensures Exchange.StoreStep(policy, store, c).1 == Exchange.Exchange(policy, RecordOf(w, c.Key()), c).1
  {
    var w', store' := DoExchange(policy, w, c, credentialId), Exchange.StoreStep(policy, store, c).0;
    forall k ensures RecordOf(w', k) == if k in store' then store'[k].record else Exchange.EMPTY {
      assert RecordOf(w, k) == if k in store then store[k].record else Exchange.EMPTY;
      assert RecordOf(w, c.Key()) == if c.Key() in store then store[c.Key()].record else Exchange.EMPTY;
      Exchange.MismatchKeepsRecord(policy, RecordOf(w, c.Key()), c);
      FreshCallIsAccepted(policy, c);
    }
  }

  lemma FreshCallIsAccepted(policy: Exchange.Policy, c: Exchange.Call)
    ensures !Exchange.Exchange(policy, Exchange.EMPTY, c).1.Mismatch?
  {
  }

  /** Dropping the call's own expired record beforehand changes nothing for the store. */
  lemma ExpiredIsAbsent(policy: Exchange.Policy, store: Exchange.Store, c: Exchange.Call)
    requires c.Key() in store && !Exchange.Live(store, c)
    ensures Exchange.StoreStep(policy, store - {c.Key()}, c) == Exchange.StoreStep(policy, store, c)
  {
    FreshCallIsAccepted(policy, c);
    var entry := Exchange.StoreStep(policy, store, c).0[c.Key()];
    assert (store - {c.Key()})[c.Key() := entry] == store[c.Key() := entry];
  }

  /** What an exchange call does to the rest of the system. */
  ghost predicate Granted(w: World, w': World, c: Exchange.Call, credentialId: Option<Uuid>, reply: Exchange.Reply) {
    && w'.hub == w.hub && w'.tickets == w.tickets
    && w'.grants == w.grants +
         if reply.Ready? then [Grant(Claims(c.binding, c.role, credentialId), Expiries(w', c.Key()), Owed)] else []
  }

  lemma ExchangeGrants(policy: Exchange.Policy, w: World, c: Exchange.Call, credentialId: Option<Uuid>)
    ensures Granted(w, DoExchange(policy, w, c, credentialId), c, credentialId,
                    Exchange.Exchange(policy, RecordOf(w, c.Key()), c).1)
  {
  }

  lemma ExchangeAtStore(
      policy: Exchange.Policy, w: World, store: Exchange.Store, c: Exchange.Call, credentialId: Option<Uuid>)
    requires Hub.WellFormed(w.hub) && Recorded(w, store)
    ensures var w' := RunFrom(policy, w, ForExchange(store, c, credentialId));
      var (store', reply) := Exchange.StoreStep(policy, store, c);
      Recorded(w', store') && Granted(w, w', c, credentialId, reply)
  {
    var e := Event.Exchange(c, credentialId);
    if c.Key() in store && !Exchange.Live(store, c) {
      var expired := Apply(policy, w, ExpireRecord(c.Key()));
      RunUpToTwo(policy, w, ExpireRecord(c.Key()), e);
      ExpiryRecorded(policy, w, store, c.Key());
      ExchangeRecorded(policy, expired, store - {c.Key()}, c, credentialId);
      ExpiredIsAbsent(policy, store, c);
      ExchangeGrants(policy, expired, c, credentialId);
    } else {
      RunUpToTwo(policy, w, e, e);
      ExchangeRecorded(policy, w, store, c, credentialId);
      ExchangeGrants(policy, w, c, credentialId);
    }
  }

  lemma GrantedBooked(
      w: World, w': World, st: Tickets.Tickets, c: Exchange.Call, credentialId: Option<Uuid>, reply: Exchange.Reply)
    requires Booked(w, st) && Granted(w, w', c, credentialId, reply)
    ensures Booked(w', st)
  {
  }

  /** A call on the timed store is the events' exchange: a ready reply adds exactly its own grant,
      any other reply adds none, and hub and tickets are untouched. */
  lemma ExchangeRefines(
      policy: Exchange.Policy, w: World, store: Exchange.Store, st: Tickets.Tickets,
      c: Exchange.Call, credentialId: Option<Uuid>)
    requires Refines(w, store, st)
    ensures var w' := RunFrom(policy, w, ForExchange(store, c, credentialId));
      var (store', reply) := Exchange.StoreStep(policy, store, c);
      Refines(w', store', st) && Granted(w, w', c, credentialId, reply)
  {
    var w', reply := RunFrom(policy, w, ForExchange(store, c, credentialId)), Exchange.StoreStep(policy, store, c).1;
    RunKeepsInv(policy, w, ForExchange(store, c, credentialId));
    ExchangeAtStore(policy, w, store, c, credentialId);
    GrantedBooked(w, w', st, c, credentialId, reply);
  }

  // ---------- Ticket calls

  /** A ticket that the store counts as expired is expired by an event; in memory it stays and
      blocks a new one. */
  function ForTicket(medium: Tickets.Medium, st: Tickets.Tickets, e: Tickets.Event, g: nat, path: Uuid): seq<Event> {
    match e
    case Issue(hash, _, _, _) =>
      if medium.InRedis? && Tickets.ExpiredLeftover(st, e) then [ExpireTicket(hash), IssueTicket(g, hash)]
      else [IssueTicket(g, hash)]
    case Consume(hash, now) =>
      if hash in st && st[hash].deadline <= now then [ExpireTicket(hash)] else [Event.Consume(hash, path)]
  }

  /** What the reply to a ticket call means for the system: an issued ticket holds its grant, a
      collision loses it, a consumed one is admitted exactly under its own path, and no ticket
      admits nobody. */
  ghost predicate ReplyMeans(w: World, w': World, e: Tickets.Event, reply: Tickets.Reply, g: nat, path: Uuid) {
    match reply
    case Issued => g < |w'.grants| && w'.grants[g].stage == InTicket(e.hash)
    case Collision => g < |w'.grants| && w'.grants[g].stage == Gone
    case Consumed(claims) =>
      && e.hash in w.tickets && w.tickets[e.hash] < |w.grants| == |w'.grants|
      && w.grants[w.tickets[e.hash]].claims == claims
      && w'.grants[w.tickets[e.hash]].stage ==
           if claims.binding.deviceSessionId == path then Admitted(path) else Gone
    case NoTicket =>
      && |w'.grants| == |w.grants|
      && forall i | 0 <= i < |w.grants| && w'.grants[i].stage.Admitted? :: w'.grants[i] == w.grants[i]
  }

  lemma DropBooked(w: World, st: Tickets.Tickets, hash: string, stage: Stage)
    requires TicketsBooked(w) && Booked(w, st) && hash in st
    ensures var w', g := DropTicket(w, hash, stage), w.tickets[hash];
      && Booked(w', st - {hash}) && w'.grants == w.grants[g := w.grants[g].(stage := stage)]
  {
  }

  lemma IssueBooked(w: World, st: Tickets.Tickets, g: nat, hash: string, ticket: Tickets.Ticket)
    requires Booked(w, st) && g < |w.grants| && w.grants[g].stage == Owed && ticket.claims == w.grants[g].claims
    ensures Booked(DoIssue(w, g, hash), if hash in st then st else st[hash := ticket])
    ensures DoIssue(w, g, hash).grants[g].stage == if hash in st then Gone else InTicket(hash)
  {
  }

  lemma LeftoverDropped(w: World, st: Tickets.Tickets, g: nat, hash: string)
    requires TicketsBooked(w) && Booked(w, st) && hash in st && g < |w.grants| && w.grants[g].stage == Owed
    ensures var w' := DropTicket(w, hash, Gone);
      Booked(w', st - {hash}) && g < |w'.grants| && w'.grants[g] == w.grants[g]
  {
    DropBooked(w, st, hash, Gone);
    assert w.grants[w.tickets[hash]].stage == InTicket(hash);
  }

  /** An expired leftover dropped first makes room for the new ticket. */
  lemma LeftoverReplaced(w: World, st: Tickets.Tickets, g: nat, hash: string, ticket: Tickets.Ticket)
    requires TicketsBooked(w) && Booked(w, st) && hash in st
    requires g < |w.grants| && w.grants[g].stage == Owed && ticket.claims == w.grants[g].claims
    ensures var w' := DoIssue(DropTicket(w, hash, Gone), g, hash);
      Booked(w', (st - {hash})[hash := ticket]) && g < |w'.grants| && w'.grants[g].stage == InTicket(hash)
  {
    LeftoverDropped(w, st, g, hash);
    IssueBooked(DropTicket(w, hash, Gone), st - {hash}, g, hash, ticket);
  }

  /** The world after an issue call: Redis has dropped an expired leftover first. */
  function IssuedWorld(medium: Tickets.Medium, w: World, st: Tickets.Tickets, e: Tickets.Event, g: nat): World
    requires TicketsBooked(w) && Booked(w, st) && e.Issue?
  {
    DoIssue(if medium.InRedis? && Tickets.ExpiredLeftover(st, e) then DropTicket(w, e.hash, Gone) else w, g, e.hash)
  }

  lemma IssueCallRuns(
      policy: Exchange.Policy, medium: Tickets.Medium, w: World, st: Tickets.Tickets,
      e: Tickets.Event, g: nat, path: Uuid)
    requires Hub.WellFormed(w.hub) && TicketsBooked(w) && Booked(w, st) && e.Issue?
    ensures RunFrom(policy, w, ForTicket(medium, st, e, g, path)) == IssuedWorld(medium, w, st, e, g)
  {
    if medium.InRedis? && Tickets.ExpiredLeftover(st, e) {
      RunUpToTwo(policy, w, ExpireTicket(e.hash), IssueTicket(g, e.hash));
    } else {
      RunOne(policy, w, IssueTicket(g, e.hash));
    }
  }

  /** The world after a consume call: an expired ticket is dropped, a live one moves its grant. */
  function ConsumedWorld(w: World, st: Tickets.Tickets, e: Tickets.Event, path: Uuid): World
    requires TicketsBooked(w) && Booked(w, st) && e.Consume?
  {
    if e.hash in st && st[e.hash].deadline <= e.now then DropTicket(w, e.hash, Gone) else DoConsume(w, e.hash, path)
  }

  lemma ConsumeCallRuns(
      policy: Exchange.Policy, medium: Tickets.Medium, w: World, st: Tickets.Tickets,
      e: Tickets.Event, g: nat, path: Uuid)
    requires Hub.WellFormed(w.hub) && TicketsBooked(w) && Booked(w, st) && e.Consume?
    ensures RunFrom(policy, w, ForTicket(medium, st, e, g, path)) == ConsumedWorld(w, st, e, path)
  {
    if e.hash in st && st[e.hash].deadline <= e.now {
      RunOne(policy, w, ExpireTicket(e.hash));
    } else {
      RunOne(policy, w, Event.Consume(e.hash, path));
    }
  }

  lemma IssueReply(medium: Tickets.Medium, st: Tickets.Tickets, e: Tickets.Event)
    requires e.Issue?
    ensures var blocked := e.hash in st && !(medium.InRedis? && Tickets.ExpiredLeftover(st, e));
      Tickets.TicketStep(medium, st, e) ==
      if blocked then (st, Tickets.Collision)
      else (st[e.hash := Tickets.Ticket(e.claims, e.now + e.ttl)], Tickets.Issued)
  {
  }

  lemma IssueRefines(
      policy: Exchange.Policy, medium: Tickets.Medium, w: World, st: Tickets.Tickets,
      e: Tickets.Event, g: nat, path: Uuid)
    requires Hub.WellFormed(w.hub) && TicketsBooked(w) && Booked(w, st) && e.Issue?
    requires g < |w.grants| && w.grants[g].stage == Owed && w.grants[g].claims == e.claims
    ensures var w' := RunFrom(policy, w, ForTicket(medium, st, e, g, path));
      var (st', reply) := Tickets.TicketStep(medium, st, e);
      Booked(w', st') && ReplyMeans(w, w', e, reply, g, path)
  {
    IssueCallRuns(policy, medium, w, st, e, g, path);
    IssueReply(medium, st, e);
    if medium.InRedis? && Tickets.ExpiredLeftover(st, e) {
      IssuedOverLeftover(w, st, e, g);
    } else {
      IssueBooked(w, st, g, e.hash, Tickets.Ticket(e.claims, e.now + e.ttl));
    }
  }

  lemma IssuedOverLeftover(w: World, st: Tickets.Tickets, e: Tickets.Event, g: nat)
    requires TicketsBooked(w) && Booked(w, st) && e.Issue? && e.hash in st
    requires g < |w.grants| && w.grants[g].stage == Owed && w.grants[g].claims == e.claims
    ensures var w' := DoIssue(DropTicket(w, e.hash, Gone), g, e.hash);
      && Booked(w', st[e.hash := Tickets.Ticket(e.claims, e.now + e.ttl)])
      && g < |w'.grants| && w'.grants[g].stage == InTicket(e.hash)
  {
    var ticket := Tickets.Ticket(e.claims, e.now + e.ttl);
    LeftoverReplaced(w, st, g, e.hash, ticket);
    assert (st - {e.hash})[e.hash := ticket] == st[e.hash := ticket];
  }

  lemma LiveTicketConsumed(w: World, st: Tickets.Tickets, e: Tickets.Event, g: nat, path: Uuid)
    requires TicketsBooked(w) && Booked(w, st) && e.Consume? && e.hash in st
    ensures var w' := DoConsume(w, e.hash, path);
      Booked(w', st - {e.hash}) && ReplyMeans(w, w', e, Tickets.Consumed(st[e.hash].claims), g, path)
  {
    DropBooked(w, st, e.hash, if st[e.hash].claims.binding.deviceSessionId == path then Admitted(path) else Gone);
  }

  lemma DeadTicketConsumed(w: World, st: Tickets.Tickets, e: Tickets.Event, g: nat, path: Uuid)
    requires TicketsBooked(w) && Booked(w, st) && e.Consume? && e.hash in st
    ensures var w' := DropTicket(w, e.hash, Gone);
      Booked(w', st - {e.hash}) && ReplyMeans(w, w', e, Tickets.NoTicket, g, path)
  {
    DropBooked(w, st, e.hash, Gone);
  }

  lemma NoTicketConsumed(w: World, st: Tickets.Tickets, e: Tickets.Event, g: nat, path: Uuid)
    requires Booked(w, st) && e.Consume? && e.hash !in st
    ensures var w' := DoConsume(w, e.hash, path);
      Booked(w', st - {e.hash}) && ReplyMeans(w, w', e, Tickets.NoTicket, g, path)
  {
    assert st - {e.hash} == st;
  }

  lemma ConsumeReply(medium: Tickets.Medium, st: Tickets.Tickets, e: Tickets.Event)
    requires e.Consume?
    ensures Tickets.TicketStep(medium, st, e) ==
      (st - {e.hash},
       if e.hash in st && e.now < st[e.hash].deadline then Tickets.Consumed(st[e.hash].claims) else Tickets.NoTicket)
  {
  }

  lemma ConsumeRefines(
      policy: Exchange.Policy, medium: Tickets.Medium, w: World, st: Tickets.Tickets,
      e: Tickets.Event, g: nat, path: Uuid)
    requires Hub.WellFormed(w.hub) && TicketsBooked(w) && Booked(w, st) && e.Consume?
    ensures var w' := RunFrom(policy, w, ForTicket(medium, st, e, g, path));
      var (st', reply) := Tickets.TicketStep(medium, st, e);
      Booked(w', st') && ReplyMeans(w, w', e, reply, g, path)
  {
    ConsumeCallRuns(policy, medium, w, st, e, g, path);
    ConsumeReply(medium, st, e);
    if e.hash !in st {
      NoTicketConsumed(w, st, e, g, path);
    } else if st[e.hash].deadline <= e.now {
      DeadTicketConsumed(w, st, e, g, path);
    } else {
      LiveTicketConsumed(w, st, e, g, path);
    }
  }

  lemma TicketEventsKeepRecords(policy: Exchange.Policy, w: World, e: Event)
    requires Hub.WellFormed(w.hub) && (e.IssueTicket? || e.ExpireTicket? || e.Consume?)
    ensures var w' := Apply(policy, w, e);
      w'.records == w.records && w'.hub == w.hub && w'.expiries == w.expiries
  {
  }

  lemma TicketCallKeepsRecords(
      policy: Exchange.Policy, medium: Tickets.Medium, w: World, store: Exchange.Store, st: Tickets.Tickets,
      e: Tickets.Event, g: nat, path: Uuid)
    requires Hub.WellFormed(w.hub) && Recorded(w, store)
    ensures var w' := RunFrom(policy, w, ForTicket(medium, st, e, g, path));
      w'.hub == w.hub && w'.expiries == w.expiries && Recorded(w', store)
  {
    var events := ForTicket(medium, st, e, g, path);
    var first, last := events[0], events[|events| - 1];
    RunUpToTwo(policy, w, first, last);
    TicketEventsKeepRecords(policy, w, first);
    TicketEventsKeepRecords(policy, Apply(policy, w, first), last);
    assert events == [first] || events == [first, last];
    var w' := RunFrom(policy, w, events);
    forall k ensures RecordOf(w', k) == if k in store then store[k].record else Exchange.EMPTY {
      assert RecordOf(w, k) == RecordOf(w', k);
    }
  }

  /** Issuing and consuming at either timed store is what the corresponding events do: same tickets
      afterwards, and the reply decides the stage of the grant. */
  lemma TicketRefines(
      policy: Exchange.Policy, medium: Tickets.Medium, w: World, store: Exchange.Store, st: Tickets.Tickets,
      e: Tickets.Event, g: nat, path: Uuid)
    requires Refines(w, store, st)
    requires e.Issue? ==> g < |w.grants| && w.grants[g].stage == Owed && w.grants[g].claims == e.claims
    ensures var w' := RunFrom(policy, w, ForTicket(medium, st, e, g, path));
      var (st', reply) := Tickets.TicketStep(medium, st, e);
      && Refines(w', store, st') && w'.hub == w.hub && w'.expiries == w.expiries
      && ReplyMeans(w, w', e, reply, g, path)
  {
    RunKeepsInv(policy, w, ForTicket(medium, st, e, g, path));
    TicketCallKeepsRecords(policy, medium, w, store, st, e, g, path);
    if e.Issue? {
      IssueRefines(policy, medium, w, st, e, g, path);
    } else {
      ConsumeRefines(policy, medium, w, st, e, g, path);
    }
  }
}

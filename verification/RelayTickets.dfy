/** Single-use relay tickets: both stores, conservation of tickets, and where the stores part. */
module RelayTickets {
  import opened Wrappers
  import opened RelayIdentity

  datatype Medium = InMemory | InRedis

  datatype Ticket = Ticket(claims: Claims, deadline: int)

  type Tickets = map<string, Ticket>

  datatype Event =
    | Issue(hash: string, claims: Claims, ttl: int, now: int)
    | Consume(hash: string, now: int)

  datatype Reply = Issued | Collision | Consumed(claims: Claims) | NoTicket

  /** An earlier ticket of the hash was neither consumed nor is still valid. */
  predicate ExpiredLeftover(st: Tickets, e: Event) {
    e.Issue? && e.hash in st && st[e.hash].deadline <= e.now
  }

  /** In memory any leftover blocks a new ticket of the same hash; Redis has dropped expired ones. */
  function TicketStep(medium: Medium, st: Tickets, e: Event): (Tickets, Reply) {
    match e
    case Issue(hash, claims, ttl, now) =>
      if hash in st && (medium.InMemory? || now < st[hash].deadline) then (st, Collision)
      else (st[hash := Ticket(claims, now + ttl)], Issued)
    case Consume(hash, now) =>
      (st - {hash}, if hash in st && now < st[hash].deadline then Consumed(st[hash].claims) else NoTicket)
  }

  function After(medium: Medium, events: seq<Event>): Tickets {
    if events == [] then map[]
    else TicketStep(medium, After(medium, events[..|events| - 1]), events[|events| - 1]).0
  }

  function ReplyAt(medium: Medium, events: seq<Event>, i: nat): Reply
    requires i < |events|
  {
    TicketStep(medium, After(medium, events[..i]), events[i]).1
  }

  // ---------- Conservation

  /** Issue i put the ticket of a hash into the store and nothing touched it up to position n. */
  ghost predicate LastIssue(medium: Medium, events: seq<Event>, i: nat, hash: string, n: nat)
    requires n <= |events|
  {
    && i < n && events[i].Issue? && events[i].hash == hash && ReplyAt(medium, events, i) == Issued
    && forall m | i < m < n && events[m].hash == hash :: events[m].Issue? && ReplyAt(medium, events, m) == Collision
  }

  lemma {:induction false} Provenance(medium: Medium, events: seq<Event>, n: nat, hash: string) returns (i: nat)
    requires n <= |events| && hash in After(medium, events[..n])
    ensures LastIssue(medium, events, i, hash, n)
    ensures After(medium, events[..n])[hash] == Ticket(events[i].claims, events[i].now + events[i].ttl)
  {
    assert events[..n][..n - 1] == events[..n - 1];
    if events[n - 1].hash == hash && ReplyAt(medium, events, n - 1) == Issued {
      i := n - 1;
    } else {
      i := Provenance(medium, events, n - 1, hash);
    }
  }

  /** Every successful consume returns exactly the claims of an earlier successful issue of its
      hash, within that issue's lifetime, with no consume of the hash in between. */
  lemma ConsumeMatchesIssue(medium: Medium, events: seq<Event>, j: nat) returns (i: nat)
    requires j < |events| && ReplyAt(medium, events, j).Consumed?
    ensures LastIssue(medium, events, i, events[j].hash, j)
    ensures ReplyAt(medium, events, j) == Consumed(events[i].claims)
    ensures events[j].now < events[i].now + events[i].ttl
  {
    i := Provenance(medium, events, j, events[j].hash);
  }

  /** Different successful consumes match different issues. */
  lemma MatchesAreDistinct(medium: Medium, events: seq<Event>, i: nat, j: nat, k: nat)
    requires j < k < |events|
    requires ReplyAt(medium, events, j).Consumed? && ReplyAt(medium, events, k).Consumed?
    requires LastIssue(medium, events, i, events[j].hash, j)
    ensures !LastIssue(medium, events, i, events[k].hash, k)
  {
    assert events[j].Consume? && events[j].hash == events[i].hash && i < j;
  }

  lemma {:induction false} IssueIsHeld(medium: Medium, events: seq<Event>, i: nat, hash: string, n: nat)
    requires n <= |events| && LastIssue(medium, events, i, hash, n)
    ensures hash in After(medium, events[..n])
    ensures After(medium, events[..n])[hash] == Ticket(events[i].claims, events[i].now + events[i].ttl)
    decreases n
  {
    assert events[..n][..n - 1] == events[..n - 1];
    if i < n - 1 {
      IssueIsHeld(medium, events, i, hash, n - 1);
    }
  }

  /** What every call is answered, in terms of the calls before it: a consume succeeds exactly while an
      issue of its hash is unconsumed and its lifetime has not passed, and an issue collides exactly
      with an unconsumed one, which in Redis must not have expired. */
  lemma TicketRepliesExactly(medium: Medium, events: seq<Event>, j: nat)
    requires j < |events|
    ensures events[j].Consume? ==> (ReplyAt(medium, events, j).Consumed? <==>
      exists i: nat :: LastIssue(medium, events, i, events[j].hash, j) && events[j].now < events[i].now + events[i].ttl)
    ensures events[j].Issue? ==> (ReplyAt(medium, events, j).Collision? <==>
      exists i: nat :: && LastIssue(medium, events, i, events[j].hash, j)
                       && (medium.InMemory? || events[j].now < events[i].now + events[i].ttl))
    ensures events[j].Issue? ==> ReplyAt(medium, events, j) in {Issued, Collision}
  {
    var hash := events[j].hash;
    if hash in After(medium, events[..j]) {
      var i := Provenance(medium, events, j, hash);
    }
    forall i: nat | LastIssue(medium, events, i, hash, j)
      ensures hash in After(medium, events[..j])
      ensures After(medium, events[..j])[hash] == Ticket(events[i].claims, events[i].now + events[i].ttl)
    {
      IssueIsHeld(medium, events, i, hash, j);
    }
  }

  // ---------- Where the two stores part

  ghost predicate AgreeAt(events: seq<Event>, i: nat)
    requires i < |events|
  {
    ReplyAt(InMemory, events, i) == ReplyAt(InRedis, events, i)
  }

  predicate MeetsLeftover(events: seq<Event>, i: nat)
    requires i < |events|
  {
    ExpiredLeftover(After(InRedis, events[..i]), events[i])
  }

  lemma PrefixAt(events: seq<Event>, n: nat, i: nat)
    requires i < n <= |events|
    ensures AgreeAt(events[..n], i) == AgreeAt(events, i)
    ensures MeetsLeftover(events[..n], i) == MeetsLeftover(events, i)
  {
    assert events[..n][..i] == events[..i];
  }

  lemma {:induction false} SameTicketsWithoutLeftovers(events: seq<Event>, n: nat)
    requires n <= |events| && forall i | 0 <= i < n :: !MeetsLeftover(events, i)
    ensures After(InMemory, events[..n]) == After(InRedis, events[..n])
  {
    if n > 0 {
      SameTicketsWithoutLeftovers(events, n - 1);
      assert events[..n][..n - 1] == events[..n - 1];
      assert !MeetsLeftover(events, n - 1);
    }
  }

  /** The stores answer a whole run alike exactly when no issue meets an expired leftover of its
      hash; there memory reports a collision and Redis issues. */
  lemma {:induction false} StoresAgreeExactly(events: seq<Event>)
    ensures (forall i | 0 <= i < |events| :: AgreeAt(events, i)) <==>
      (forall i | 0 <= i < |events| :: !MeetsLeftover(events, i))
  {
    if events != [] {
      var n := |events| - 1;
      StoresAgreeExactly(events[..n]);
      forall i | 0 <= i < n
        ensures AgreeAt(events[..n], i) == AgreeAt(events, i)
        ensures MeetsLeftover(events[..n], i) == MeetsLeftover(events, i)
      {
        PrefixAt(events, n, i);
      }
      if forall i | 0 <= i < n :: !MeetsLeftover(events, i) {
        SameTicketsWithoutLeftovers(events, n);
        assert AgreeAt(events, n) <==> !MeetsLeftover(events, n);
      } else {
        var i :| 0 <= i < n && MeetsLeftover(events, i);
        var j :| 0 <= j < n && !AgreeAt(events[..n], j);
        assert !AgreeAt(events, j);
      }
    }
  }

  /** An expired ticket nobody consumed: memory refuses its hash, Redis issues again. */
  lemma LeftoverDiverges(hash: string, claims: Claims)
    ensures var events := [Issue(hash, claims, 1, 0), Issue(hash, claims, 1, 5)];
      ReplyAt(InMemory, events, 1) == Collision && ReplyAt(InRedis, events, 1) == Issued
  {
    var events := [Issue(hash, claims, 1, 0), Issue(hash, claims, 1, 5)];
    assert events[..1] == [events[0]] && [events[0]][..0] == [];
    assert After(InMemory, []) == After(InRedis, []) == map[];
    assert After(InMemory, events[..1]) == After(InRedis, events[..1]) == map[hash := Ticket(claims, 1)];
  }

  // ---------- The two implementations

  class InMemoryTickets {
    var tickets: Tickets

    constructor ()
      ensures tickets == map[]
    {
      tickets := map[];
    }

    method IssueTicket(hash: string, claims: Claims, ttl: int, now: int) returns (reply: Reply)
      modifies this
      ensures (tickets, reply) == TicketStep(InMemory, old(tickets), Issue(hash, claims, ttl, now))
    {
      if hash in tickets {
        return Collision;
      }
      tickets := tickets[hash := Ticket(claims, now + ttl)];
      return Issued;
    }

    method ConsumeTicket(hash: string, now: int) returns (reply: Reply)
      modifies this
      ensures (tickets, reply) == TicketStep(InMemory, old(tickets), Consume(hash, now))
    {
      var value := if hash in tickets then Some(tickets[hash]) else None;
      tickets := tickets - {hash};
      if value.None? || value.value.deadline <= now {
        return NoTicket;
      }
      return Consumed(value.value.claims);
    }
  }

  datatype StoredValue = StoredValue(payload: Payload, deadline: int)

  function Encoded(t: Ticket): StoredValue {
    StoredValue(EncodeClaims(t.claims), t.deadline)
  }

  type Values = map<string, StoredValue>

  /** Under the hash's ticket key stands the encoded ticket, if there is one. */
  ghost predicate Holds(values: Values, st: Tickets, hash: string) {
    && (TicketKey(hash) in values <==> hash in st)
    && (hash in st ==> values[TicketKey(hash)] == Encoded(st[hash]))
  }

  lemma HoldsAfterIssue(values: Values, st: Tickets, hash: string, t: Ticket, other: string)
    requires Holds(values, st, other)
    ensures Holds(values[TicketKey(hash) := Encoded(t)], st[hash := t], other)
  {
    TicketKeyInjective(hash, other);
  }

  lemma HoldsAfterConsume(values: Values, st: Tickets, hash: string, other: string)
    requires Holds(values, st, other)
    ensures Holds(values - {TicketKey(hash)}, st - {hash}, other)
  {
    TicketKeyInjective(hash, other);
  }

  ghost predicate Mirrors(values: Values, st: Tickets) {
    forall hash: string :: Holds(values, st, hash)
  }

  lemma MirrorsAfterIssue(values: Values, st: Tickets, hash: string, t: Ticket)
    requires Mirrors(values, st)
    ensures Mirrors(values[TicketKey(hash) := Encoded(t)], st[hash := t])
  {
    var values', st' := values[TicketKey(hash) := Encoded(t)], st[hash := t];
    forall other: string ensures Holds(values', st', other) {
      HoldsAfterIssue(values, st, hash, t, other);
    }
  }

  lemma MirrorsAfterConsume(values: Values, st: Tickets, hash: string)
    requires Mirrors(values, st)
    ensures Mirrors(values - {TicketKey(hash)}, st - {hash})
  {
    var values', st' := values - {TicketKey(hash)}, st - {hash};
    forall other: string ensures Holds(values', st', other) {
      HoldsAfterConsume(values, st, hash, other);
    }
  }

  lemma HeldTicketDecodes(values: Values, st: Tickets, hash: string)
    requires Holds(values, st, hash) && hash in st
    ensures DecodeClaims(values[TicketKey(hash)].payload) == Some(st[hash].claims)
  {
    ClaimsRoundTrip(st[hash].claims);
  }

  class RedisTickets {
    var values: Values

    constructor ()
      ensures Represents(map[])
    {
      values := map[];
    }

    /** Redis holds, under the ticket keys, exactly these tickets. */
    ghost predicate Represents(st: Tickets)
      reads this
    {
      Mirrors(values, st)
    }

    /** SET with NX and EX. */
    method IssueTicket(hash: string, claims: Claims, ttl: int, now: int, ghost st: Tickets) returns (reply: Reply)
      requires Represents(st)
      modifies this
      ensures Represents(TicketStep(InRedis, st, Issue(hash, claims, ttl, now)).0)
      ensures reply == TicketStep(InRedis, st, Issue(hash, claims, ttl, now)).1
    {
      var key := TicketKey(hash);
      assert Holds(values, st, hash);
      if key in values && now < values[key].deadline {
        return Collision;
      }
      var ticket := Ticket(claims, now + ttl);
      MirrorsAfterIssue(values, st, hash, ticket);
      values := values[key := Encoded(ticket)];
      return Issued;
    }

    /** GETDEL, then the payload is decoded. */
    method ConsumeTicket(hash: string, now: int, ghost st: Tickets) returns (reply: Reply)
      requires Represents(st)
      modifies this
      ensures Represents(TicketStep(InRedis, st, Consume(hash, now)).0)
      ensures reply == TicketStep(InRedis, st, Consume(hash, now)).1
    {
      var key := TicketKey(hash);
      assert Holds(values, st, hash);
      MirrorsAfterConsume(values, st, hash);
      if key !in values {
        assert st - {hash} == st;
        return NoTicket;
      }
      var stored := values[key];
      HeldTicketDecodes(values, st, hash);
      values := values - {key};
      if stored.deadline <= now {
        return NoTicket;
      }
      return Consumed(DecodeClaims(stored.payload).value);
    }
  }
}

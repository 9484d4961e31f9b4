/**
 The pairing hub as the objects it is made of: endpoints whose peer future is completed in
 place and a hub whose table is reassigned under the lock. Every lock section is proved
 against the step function of the state machine, and the subscriber loop that applies
 revocations received from other workers against the closing of the decoded bindings.
 */
module RelayHubObjects {
  import opened Wrappers
  import opened RelayIdentity
  import opened RelayHub
  import opened RelayRevocation

  class RelayEndpoint {
    const websocket: nat
    const role: Role
    var peer: PeerFuture
    ghost const key: RelayBinding

    constructor (websocket: nat, role: Role, ghost key: RelayBinding)
      ensures this.websocket == websocket && this.role == role && this.key == key && peer == Pending
    {
      this.websocket := websocket;
      this.role := role;
      this.key := key;
      peer := Pending;
    }
  }

  ghost function Ids(pair: map<Role, RelayEndpoint>): map<Role, nat> {
    map r | r in pair :: pair[r].websocket
  }

  ghost function TableOf(pairs: map<RelayBinding, map<Role, RelayEndpoint>>): map<RelayBinding, map<Role, nat>> {
    map k | k in pairs :: Ids(pairs[k])
  }

  lemma TablePut(pairs: map<RelayBinding, map<Role, RelayEndpoint>>, key: RelayBinding, pair: map<Role, RelayEndpoint>)
    ensures TableOf(pairs[key := pair]) == TableOf(pairs)[key := Ids(pair)]
  {
  }

  lemma TableDrop(pairs: map<RelayBinding, map<Role, RelayEndpoint>>, key: RelayBinding)
    ensures TableOf(pairs - {key}) == TableOf(pairs) - {key}
  {
  }

  lemma IdsPut(pair: map<Role, RelayEndpoint>, role: Role, endpoint: RelayEndpoint)
    ensures Ids(pair[role := endpoint]) == Ids(pair)[role := endpoint.websocket]
  {
  }

  lemma IdsDrop(pair: map<Role, RelayEndpoint>, role: Role)
    ensures Ids(pair - {role}) == Ids(pair) - {role}
    ensures Ids(pair) == map[] <==> pair == map[]
  {
    if r :| r in pair {
      assert r in Ids(pair);
    }
  }

  /** Two set_result calls; the second raises when the stored peer's future is already done. */
  method Complete(endpoint: RelayEndpoint, other: RelayEndpoint) returns (outcome: ConnectResult)
    requires endpoint != other
    modifies endpoint`peer, other`peer
    ensures endpoint.peer == Resolved(other.websocket)
    ensures other.peer == if old(other.peer) == Pending then Resolved(endpoint.websocket) else old(other.peer)
    ensures outcome == if old(other.peer) == Pending then Registered else InvalidState
  {
    endpoint.peer := Resolved(other.websocket);
    if other.peer != Pending {
      return InvalidState;
    }
    other.peer := Resolved(endpoint.websocket);
    return Registered;
  }

  class DeviceRelayHub {
    var pairs: map<RelayBinding, map<Role, RelayEndpoint>>
    /** Every endpoint ever created, in order of connect. */
    ghost var created: seq<RelayEndpoint>

    ghost predicate Valid()
      reads this
    {
      && (forall i | 0 <= i < |created| :: created[i].websocket == i)
      && (forall k, r | k in pairs && r in pairs[k] ::
            var e := pairs[k][r];
            e.websocket < |created| && created[e.websocket] == e && e.key == k && e.role == r)
    }

    ghost function Table(): (table: map<RelayBinding, map<Role, nat>>)
      requires Valid()
      reads this
    {
      TableOf(pairs)
    }

    ghost function Endpoints(): seq<Endpoint>
      reads this, created
    {
      seq(|created|, i requires 0 <= i < |created| reads this, created =>
        Endpoint(created[i].key, created[i].role, created[i].peer))
    }

    /** The hub as the state machine sees it. */
    ghost function View(): (h: Hub)
      requires Valid()
      reads this, created
      ensures InRange(h)
    {
      Hub(Endpoints(), Table())
    }

    constructor ()
      ensures Valid() && View() == INITIAL.hub && created == []
    {
      pairs := map[];
      created := [];
    }

    /** The lock section of connect for a new websocket. */
    method Register(key: RelayBinding, role: Role, websocket: nat)
      returns (endpoint: RelayEndpoint, outcome: ConnectResult)
      requires Valid() && websocket == |created|
      modifies this, created
      ensures Valid() && created == old(created) + [endpoint] && fresh(endpoint)
      ensures outcome == ConnectOutcome(old(View()), key, role)
      ensures View() == RelayHub.Register(old(View()), key, role)
    {
      endpoint := new RelayEndpoint(websocket, role, key);
      var pair: map<Role, RelayEndpoint> := if key in pairs then pairs[key] else map[];
      created := created + [endpoint];
      if role in pair {
        assert Table() == old(Table());
        return endpoint, Duplicate;
      }
      ghost var before := old(View());
      assert Table() == before.pairs;
      assert EndpointsAre(before.endpoints + [Endpoint(key, role, Pending)]);
      outcome := StoreAndPair(key, role, endpoint, before);
    }

    /** Stores the new endpoint and completes the two futures when the peer is there. */
    method StoreAndPair(key: RelayBinding, role: Role, endpoint: RelayEndpoint, ghost before: Hub)
      returns (outcome: ConnectResult)
      requires Valid() && created != [] && endpoint == created[|created| - 1]
      requires endpoint.key == key && endpoint.role == role && InRange(before)
      requires Table() == before.pairs && EndpointsAre(before.endpoints + [Endpoint(key, role, Pending)])
      requires role !in Pair(before, key)
      modifies this`pairs, created
      ensures Valid() && outcome == ConnectOutcome(before, key, role)
      ensures View() == RelayHub.Register(before, key, role)
    {
      var pair: map<Role, RelayEndpoint> := if key in pairs then pairs[key] else map[];
      assert Ids(pair) == Pair(before, key);
      PutEntry(key, role, endpoint, before);
      outcome := Registered;
      if role.Peer() in pair {
        outcome := Complete(endpoint, pair[role.Peer()]);
      }
      ghost var after := RelayHub.Register(before, key, role).endpoints;
      forall i | 0 <= i < |created|
        ensures after[i] == Endpoint(created[i].key, created[i].role, created[i].peer)
      {
        assert old(EndpointsAre(before.endpoints + [Endpoint(key, role, Pending)]));
      }
      assert EndpointsAre(after);
    }

    /** The endpoints read off the objects are the given ones. */
    ghost predicate EndpointsAre(endpoints: seq<Endpoint>)
      reads this, created
      ensures EndpointsAre(endpoints) <==> Endpoints() == endpoints
    {
      && |endpoints| == |created|
      && forall i | 0 <= i < |created| :: endpoints[i] == Endpoint(created[i].key, created[i].role, created[i].peer)
    }

    /** Stores a new endpoint in its binding's pair. */
    method PutEntry(key: RelayBinding, role: Role, endpoint: RelayEndpoint, ghost before: Hub)
      requires Valid() && endpoint in created && endpoint.key == key && endpoint.role == role
      requires before.pairs == Table()
      modifies this`pairs
      ensures Valid() && Table() == before.pairs[key := Pair(before, key)[role := endpoint.websocket]]
    {
      var pair: map<Role, RelayEndpoint> := if key in pairs then pairs[key] else map[];
      assert Ids(pair) == Pair(before, key);
      IdsPut(pair, role, endpoint);
      TablePut(pairs, key, pair[role := endpoint]);
      pairs := pairs[key := pair[role := endpoint]];
    }

    /** _remove: drops the entry only while it still is this very endpoint. */
    method Remove(key: RelayBinding, endpoint: RelayEndpoint)
      requires Valid() && endpoint in created && endpoint.key == key
      modifies this`pairs
      ensures Valid() && View() == RelayHub.Remove(old(View()), endpoint.websocket)
    {
      ghost var before := View();
      if key !in pairs || endpoint.role !in pairs[key] || pairs[key][endpoint.role] != endpoint {
        assert !Stored(before, endpoint.websocket);
        return;
      }
      var pair := pairs[key] - {endpoint.role};
      assert Stored(before, endpoint.websocket);
      IdsDrop(pairs[key], endpoint.role);
      IdsDrop(pair, endpoint.role);
      TableDrop(pairs, key);
      TablePut(pairs, key, pair);
      if pair == map[] {
        pairs := pairs - {key};
      } else {
        pairs := pairs[key := pair];
      }
      assert Endpoints() == before.endpoints;
    }

    /** The lock section of close_binding: pop the pair, fail the futures that are not done. */
    method CloseBinding(key: RelayBinding)
      requires Valid()
      modifies this`pairs, created
      ensures Valid() && View() == RelayHub.CloseBinding(old(View()), key)
    {
      ghost var before := View();
      TableDrop(pairs, key);
      if key !in pairs {
        assert EndpointsAre(RelayHub.CloseBinding(before, key).endpoints);
        return;
      }
      var pair := pairs[key];
      forall i | 0 <= i < |created|
        ensures created[i].role in pair && pair[created[i].role] == created[i] <==>
          created[i].key == key && Stored(before, i)
      {
      }
      pairs := pairs - {key};
      FailUnresolved(pair);
      ghost var closed := RelayHub.CloseBinding(before, key).endpoints;
      forall i | 0 <= i < |created|
        ensures closed[i] == Endpoint(created[i].key, created[i].role, created[i].peer)
      {
        assert created[i] in created && before.endpoints[i].peer == old(created[i].peer);
      }
      assert EndpointsAre(closed);
    }

    method FailUnresolved(pair: map<Role, RelayEndpoint>)
      requires forall r | r in pair :: pair[r] in created && pair[r].role == r
      modifies created
      ensures forall e | e in created ::
        e.peer == if e.role in pair && pair[e.role] == e && old(e.peer) == Pending then Closed else old(e.peer)
    {
      var roles := pair.Keys;
      while roles != {}
        invariant roles <= pair.Keys
        invariant forall e | e in created ::
          e.peer ==
            if e.role in pair.Keys - roles && pair[e.role] == e && old(e.peer) == Pending then Closed
            else old(e.peer)
      {
        var role :| role in roles;
        var endpoint := pair[role];
        if endpoint.peer == Pending {
          endpoint.peer := Closed;
        }
        roles := roles - {role};
      }
    }
  }

  /** The subscriber loop: decodes each message and closes the binding locally, publishing
      nothing; a message outside the caught error kinds costs a reconnect. */
  method RunSubscriber(hub: DeviceRelayHub, messages: seq<BusMessage>) returns (reconnects: nat)
    requires hub.Valid()
    modifies hub`pairs, hub.created
    ensures hub.Valid() && hub.View() == CloseAll(old(hub.View()), Revoked(messages))
    ensures hub.created == old(hub.created)
    ensures reconnects == Losses(messages)
    ensures reconnects == 0 <==> forall m | m in messages :: !LosesSubscription(m)
  {
    reconnects := 0;
    for n := 0 to |messages|
      invariant hub.Valid() && hub.created == old(hub.created)
      invariant hub.View() == CloseAll(old(hub.View()), Revoked(messages[..n]))
      invariant reconnects == Losses(messages[..n])
      invariant reconnects == 0 <==> forall m | m in messages[..n] :: !LosesSubscription(m)
    {
      OneMoreMessage(old(hub.View()), messages, n);
      match Decode(messages[n]) {
        case Revocation(key) =>
          hub.CloseBinding(key);
        case Skip =>
        case Reconnect =>
          reconnects := reconnects + 1;
      }
    }
    assert messages[..|messages|] == messages;
  }
}

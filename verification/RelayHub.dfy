/**
 The pairing hub as a state machine. Each lock section is one step; waking up, timing
 out and the end of forwarding are steps of their own, so a run interleaves any number
 of connects on any bindings. A websocket is named by the index of its connect.
 */
module RelayHub {
  import opened RelayIdentity

  /** A peer future: unresolved, holding the peer's websocket, or failed by a revocation. */
  datatype PeerFuture = Pending | Resolved(websocket: nat) | Closed

  datatype Endpoint = Endpoint(key: RelayBinding, role: Role, peer: PeerFuture)

  /** Every endpoint ever created, in order, and the table of the stored ones. */
  datatype Hub = Hub(endpoints: seq<Endpoint>, pairs: map<RelayBinding, map<Role, nat>>)

  datatype ConnectResult = Registered | Duplicate | InvalidState

  predicate InRange(h: Hub) {
    forall k, r | k in h.pairs && r in h.pairs[k] :: h.pairs[k][r] < |h.endpoints|
  }

  function Pair(h: Hub, key: RelayBinding): map<Role, nat> {
    if key in h.pairs then h.pairs[key] else map[]
  }

  predicate Stored(h: Hub, i: nat)
    requires i < |h.endpoints|
  {
    var e := h.endpoints[i];
    e.role in Pair(h, e.key) && Pair(h, e.key)[e.role] == i
  }

  /** Outcome of the lock section of connect; InvalidState is set_result on a done future. */
  function ConnectOutcome(h: Hub, key: RelayBinding, role: Role): ConnectResult
    requires InRange(h)
  {
    var pair := Pair(h, key);
    if role in pair then Duplicate
    else if role.Peer() in pair && h.endpoints[pair[role.Peer()]].peer != Pending then InvalidState
    else Registered
  }

  /** The lock section of connect. When set_result fails, the new endpoint is already stored
      and holds the peer's websocket; the stored peer keeps its old result. */
  function Register(h: Hub, key: RelayBinding, role: Role): Hub
    requires InRange(h)
  {
    var n, pair := |h.endpoints|, Pair(h, key);
    if role in pair then h.(endpoints := h.endpoints + [Endpoint(key, role, Pending)])
    else
      var pairs := h.pairs[key := pair[role := n]];
      if role.Peer() !in pair then Hub(h.endpoints + [Endpoint(key, role, Pending)], pairs)
      else
        var p := pair[role.Peer()];
        var other := h.endpoints[p];
        var others := if other.peer.Pending? then h.endpoints[p := other.(peer := Resolved(n))] else h.endpoints;
        Hub(others + [Endpoint(key, role, Resolved(p))], pairs)
  }

  /** _remove: only the entry that still is this very endpoint goes, and no empty pair stays. */
  function Remove(h: Hub, i: nat): Hub
    requires i < |h.endpoints|
  {
    if !Stored(h, i) then h
    else
      var e := h.endpoints[i];
      var pair := h.pairs[e.key] - {e.role};
      h.(pairs := if pair == map[] then h.pairs - {e.key} else h.pairs[e.key := pair])
  }

  /** The lock section of close_binding: drop the pair, fail its unresolved futures. */
  function CloseBinding(h: Hub, key: RelayBinding): Hub {
    Hub(
      seq(|h.endpoints|, i requires 0 <= i < |h.endpoints| =>
        var e := h.endpoints[i];
        if e.key == key && Stored(h, i) && e.peer.Pending? then e.(peer := Closed) else e),
      h.pairs - {key})
  }

  // ---------- Interleavings

  /** Crashed is a connect that left by the InvalidState exception, without its cleanup. */
  datatype Phase = Waiting | Forwarding | Finishing | Returned | Crashed

  datatype System = System(hub: Hub, phase: seq<Phase>)

  datatype Step =
    | Connect(key: RelayBinding, role: Role)
    | Wake(i: nat)
    | GiveUp(i: nat)
    | EndForwarding(i: nat)
    | RemoveSelf(i: nat)
    | Revoke(key: RelayBinding)

  const INITIAL := System(Hub([], map[]), [])

  predicate WellFormed(s: System) {
    InRange(s.hub) && |s.phase| == |s.hub.endpoints|
  }

  predicate In(s: System, i: nat, phase: Phase) {
    i < |s.phase| && s.phase[i] == phase
  }

  function Move(s: System, i: nat, to: Phase): System
    requires i < |s.phase|
  {
    s.(phase := s.phase[i := to])
  }

  /** A step that is not enabled changes nothing. Giving up covers the pair timeout, which may
      also win against a future resolved in the same instant, and the revocation exception. */
  function Apply(s: System, step: Step): System
    requires WellFormed(s)
  {
    match step
    case Connect(key, role) =>
      var phase := match ConnectOutcome(s.hub, key, role)
        case Registered => Waiting
        case Duplicate => Returned
        case InvalidState => Crashed;
      System(Register(s.hub, key, role), s.phase + [phase])
    case Wake(i) =>
      if In(s, i, Waiting) && s.hub.endpoints[i].peer.Resolved? then Move(s, i, Forwarding) else s
    case GiveUp(i) =>
      if In(s, i, Waiting) then Move(s, i, Finishing) else s
    case EndForwarding(i) =>
      if In(s, i, Forwarding) then Move(s, i, Finishing) else s
    case RemoveSelf(i) =>
      if In(s, i, Finishing) then Move(s.(hub := Remove(s.hub, i)), i, Returned) else s
    case Revoke(key) =>
      s.(hub := CloseBinding(s.hub, key))
  }

  lemma StepKeepsWellFormed(s: System, step: Step)
    requires WellFormed(s)
    ensures WellFormed(Apply(s, step))
  {
  }

  predicate Running(s: System, i: nat)
    requires i < |s.phase|
  {
    s.phase[i] in {Waiting, Forwarding, Finishing}
  }

  // ---------- What every step keeps

  /** A stored endpoint stands under its own key and role, has not been revoked, and its
      connect is still running or crashed. */
  ghost predicate EntryWell(s: System, k: RelayBinding, r: Role) {
    k in s.hub.pairs && r in s.hub.pairs[k] ==>
      var i := s.hub.pairs[k][r];
      && i < |s.hub.endpoints| == |s.phase|
      && s.hub.endpoints[i].key == k && s.hub.endpoints[i].role == r
      && s.hub.endpoints[i].peer != Closed && s.phase[i] != Returned
  }

  ghost predicate StoredWell(s: System) {
    && |s.phase| == |s.hub.endpoints|
    && (forall k | k in s.hub.pairs :: s.hub.pairs[k] != map[])
    && (forall k, r :: EntryWell(s, k, r))
  }

  lemma StoredWellFormed(s: System)
    requires StoredWell(s)
    ensures WellFormed(s)
  {
    forall k, r | k in s.hub.pairs && r in s.hub.pairs[k] ensures s.hub.pairs[k][r] < |s.hub.endpoints| {
      assert EntryWell(s, k, r);
    }
  }

  /** A resolved future holds a websocket of the opposite role of the same binding, whose own
      future is resolved; unless this connect crashed, the two hold each other. */
  ghost predicate Linked(s: System, i: nat)
    requires i < |s.phase| == |s.hub.endpoints|
  {
    var e := s.hub.endpoints[i];
    e.peer.Resolved? ==>
      var d := e.peer.websocket;
      && d < |s.hub.endpoints|
      && s.hub.endpoints[d].key == e.key && s.hub.endpoints[d].role == e.role.Peer()
      && s.hub.endpoints[d].peer.Resolved?
      && (s.phase[i] == Crashed || s.hub.endpoints[d].peer == Resolved(i))
  }

  ghost predicate PhaseFits(s: System, i: nat)
    requires i < |s.phase| == |s.hub.endpoints|
  {
    && (s.phase[i] in {Forwarding, Crashed} ==> s.hub.endpoints[i].peer.Resolved?)
    && (Running(s, i) && s.hub.endpoints[i].peer.Pending? ==> Stored(s.hub, i))
  }

  /** Of two endpoints stored as a pair, the later one found the earlier. */
  ghost predicate PairLinked(h: Hub, k: RelayBinding)
    requires InRange(h)
  {
    Device in Pair(h, k) && Proxy in Pair(h, k) ==>
      var d, p := Pair(h, k)[Device], Pair(h, k)[Proxy];
      h.endpoints[d].peer == Resolved(p) || h.endpoints[p].peer == Resolved(d)
  }

  ghost predicate Inv(s: System) {
    && WellFormed(s) && StoredWell(s)
    && (forall i | 0 <= i < |s.phase| :: Linked(s, i))
    && (forall i | 0 <= i < |s.phase| :: PhaseFits(s, i))
    && (forall k :: PairLinked(s.hub, k))
  }

  lemma ConnectKeepsStored(s: System, key: RelayBinding, role: Role)
    requires Inv(s)
    ensures WellFormed(Apply(s, Connect(key, role))) && StoredWell(Apply(s, Connect(key, role)))
  {
    var s' := Apply(s, Connect(key, role));
    forall k, r ensures EntryWell(s', k, r) {
      assert EntryWell(s, k, r);
    }
    StoredWellFormed(s');
  }

  lemma ConnectKeepsLinks(s: System, key: RelayBinding, role: Role, i: nat)
    requires Inv(s) && i <= |s.phase|
    ensures Linked(Apply(s, Connect(key, role)), i)
  {
    assert EntryWell(s, key, role.Peer());
    if i < |s.phase| {
      assert Linked(s, i);
    }
  }

  lemma ConnectKeepsPhase(s: System, key: RelayBinding, role: Role, i: nat)
    requires Inv(s) && i <= |s.phase|
    ensures PhaseFits(Apply(s, Connect(key, role)), i)
  {
    if i < |s.phase| {
      assert PhaseFits(s, i);
    }
  }

  lemma ConnectKeepsPairs(s: System, key: RelayBinding, role: Role, k: RelayBinding)
    requires Inv(s)
    ensures PairLinked(Apply(s, Connect(key, role)).hub, k)
  {
    assert PairLinked(s.hub, k);
  }

  lemma ConnectKeepsInv(s: System, key: RelayBinding, role: Role)
    requires Inv(s)
    ensures Inv(Apply(s, Connect(key, role)))
  {
    var s' := Apply(s, Connect(key, role));
    ConnectKeepsStored(s, key, role);
    forall i | 0 <= i < |s'.phase| ensures Linked(s', i) {
      ConnectKeepsLinks(s, key, role, i);
    }
    forall i | 0 <= i < |s'.phase| ensures PhaseFits(s', i) {
      ConnectKeepsPhase(s, key, role, i);
    }
    forall k ensures PairLinked(s'.hub, k) {
      ConnectKeepsPairs(s, key, role, k);
    }
  }

  lemma RemoveKeepsStored(s: System, i: nat)
    requires Inv(s)
    ensures WellFormed(Apply(s, RemoveSelf(i))) && StoredWell(Apply(s, RemoveSelf(i)))
  {
    var s' := Apply(s, RemoveSelf(i));
    forall k, r ensures EntryWell(s', k, r) {
      assert EntryWell(s, k, r);
    }
    StoredWellFormed(s');
  }

  lemma RemoveKeepsOthers(s: System, i: nat, j: nat)
    requires Inv(s) && j < |s.phase|
    ensures Linked(Apply(s, RemoveSelf(i)), j) && PhaseFits(Apply(s, RemoveSelf(i)), j)
  {
    assert Linked(s, j) && PhaseFits(s, j);
  }

  lemma RemoveKeepsInv(s: System, i: nat)
    requires Inv(s)
    ensures Inv(Apply(s, RemoveSelf(i)))
  {
    var s' := Apply(s, RemoveSelf(i));
    RemoveKeepsStored(s, i);
    forall j | 0 <= j < |s'.phase| ensures Linked(s', j) && PhaseFits(s', j) {
      RemoveKeepsOthers(s, i, j);
    }
    forall k ensures PairLinked(s'.hub, k) {
      assert PairLinked(s.hub, k);
    }
  }

  lemma RevokeKeepsInv(s: System, key: RelayBinding)
    requires Inv(s)
    ensures Inv(Apply(s, Revoke(key)))
  {
    var s' := Apply(s, Revoke(key));
    forall k, r ensures EntryWell(s', k, r) {
      assert EntryWell(s, k, r);
    }
    StoredWellFormed(s');
    forall j | 0 <= j < |s'.phase| ensures Linked(s', j) && PhaseFits(s', j) {
      assert Linked(s, j) && PhaseFits(s, j);
    }
    forall k ensures PairLinked(s'.hub, k) {
      assert PairLinked(s.hub, k);
    }
  }

  lemma MoveKeepsInv(s: System, step: Step)
    requires Inv(s) && (step.Wake? || step.GiveUp? || step.EndForwarding?)
    ensures Inv(Apply(s, step))
  {
    var s' := Apply(s, step);
    forall k, r ensures EntryWell(s', k, r) {
      assert EntryWell(s, k, r);
    }
    StoredWellFormed(s');
    forall j | 0 <= j < |s'.phase| ensures Linked(s', j) && PhaseFits(s', j) {
      assert Linked(s, j) && PhaseFits(s, j);
    }
    forall k ensures PairLinked(s'.hub, k) {
      assert PairLinked(s.hub, k);
    }
  }

  lemma StepKeepsInv(s: System, step: Step)
    requires Inv(s)
    ensures Inv(Apply(s, step))
  {
    match step
    case Connect(key, role) => ConnectKeepsInv(s, key, role);
    case RemoveSelf(i) => RemoveKeepsInv(s, i);
    case Revoke(key) => RevokeKeepsInv(s, key);
    case Wake(_) => MoveKeepsInv(s, step);
    case GiveUp(_) => MoveKeepsInv(s, step);
    case EndForwarding(_) => MoveKeepsInv(s, step);
  }

  /** The system after any run from the empty hub. */
  ghost function After(steps: seq<Step>): (s: System)
    ensures Inv(s)
  {
    if steps == [] then INITIAL
    else
      var before := After(steps[..|steps| - 1]);
      StepKeepsInv(before, steps[|steps| - 1]);
      Apply(before, steps[|steps| - 1])
  }

  // ---------- Pairing, leaks and crashes over all runs

  ghost predicate NoCrash(s: System, key: RelayBinding)
    requires WellFormed(s)
  {
    forall i | 0 <= i < |s.phase| && s.hub.endpoints[i].key == key :: s.phase[i] != Crashed
  }

  /** In every run a resolved future holds the websocket of the opposite role of the same
      binding, and unless this very connect crashed the two futures hold each other. */
  lemma PairingSafety(steps: seq<Step>, i: nat)
    requires i < |After(steps).phase| && After(steps).hub.endpoints[i].peer.Resolved?
    ensures var s := After(steps);
      var d := s.hub.endpoints[i].peer.websocket;
      && d < |s.hub.endpoints|
      && s.hub.endpoints[d].key == s.hub.endpoints[i].key
      && s.hub.endpoints[d].role != s.hub.endpoints[i].role
      && (s.phase[i] != Crashed ==> s.hub.endpoints[d].peer == Resolved(i))
  {
    assert Linked(After(steps), i);
  }

  /** No leak: in every run each stored endpoint belongs to a connect that is still running or
      crashed, and once every connect on a binding has returned the binding has no entry. */
  lemma NothingLeaks(steps: seq<Step>, key: RelayBinding)
    ensures var s := After(steps);
      && (forall i | 0 <= i < |s.phase| && Stored(s.hub, i) :: Running(s, i) || s.phase[i] == Crashed)
      && ((forall i | 0 <= i < |s.phase| && s.hub.endpoints[i].key == key :: s.phase[i] == Returned)
            ==> key !in s.hub.pairs)
  {
    var s := After(steps);
    forall i | 0 <= i < |s.phase| && Stored(s.hub, i) ensures Running(s, i) || s.phase[i] == Crashed {
      assert EntryWell(s, s.hub.endpoints[i].key, s.hub.endpoints[i].role);
    }
    if key in s.hub.pairs {
      var r :| r in s.hub.pairs[key];
      assert EntryWell(s, key, r);
    }
  }

  /** A running connect that is still waiting for its peer is in the table. */
  lemma WaitersAreStored(steps: seq<Step>, i: nat)
    requires i < |After(steps).phase| && Running(After(steps), i)
    requires After(steps).hub.endpoints[i].peer.Pending?
    ensures Stored(After(steps).hub, i)
  {
    assert PhaseFits(After(steps), i);
  }

  /** Without crashes, the two stored endpoints of a binding hold each other's websocket. */
  lemma StoredPairsHoldEachOther(s: System, key: RelayBinding)
    requires Inv(s) && NoCrash(s, key)
    ensures var pair := Pair(s.hub, key); Device in pair && Proxy in pair ==>
      && s.hub.endpoints[pair[Device]].peer == Resolved(pair[Proxy])
      && s.hub.endpoints[pair[Proxy]].peer == Resolved(pair[Device])
  {
    var pair := Pair(s.hub, key);
    assert PairLinked(s.hub, key);
    if Device in pair && Proxy in pair {
      assert EntryWell(s, key, Device) && EntryWell(s, key, Proxy);
      assert Linked(s, pair[Device]) && Linked(s, pair[Proxy]);
    }
  }

  /** An earlier connect i of the role was paired with p; i has left the table, p has not. */
  ghost predicate Outlived(s: System, key: RelayBinding, role: Role, i: nat, p: nat)
    requires WellFormed(s)
  {
    && i < |s.phase| && p < |s.phase|
    && s.hub.endpoints[i].key == key && s.hub.endpoints[i].role == role && !Stored(s.hub, i)
    && s.hub.endpoints[i].peer == Resolved(p) && Stored(s.hub, p)
  }

  ghost predicate NoneStored(s: System, key: RelayBinding, role: Role)
    requires WellFormed(s)
  {
    forall j | 0 <= j < |s.phase| && s.hub.endpoints[j].key == key && s.hub.endpoints[j].role == role ::
      !Stored(s.hub, j)
  }

  /** Some stored connect of the other role has already been given the websocket of connect i. */
  ghost predicate Taken(s: System, key: RelayBinding, role: Role, i: nat, p: nat)
    requires WellFormed(s)
  {
    && i < |s.phase| && p < |s.phase|
    && s.hub.endpoints[i].key == key && s.hub.endpoints[i].role == role
    && Stored(s.hub, p) && s.hub.endpoints[p].key == key && s.hub.endpoints[p].role == role.Peer()
    && s.hub.endpoints[p].peer == Resolved(i)
  }

  lemma StoredUnderRole(s: System, key: RelayBinding, role: Role)
    requires Inv(s)
    ensures NoneStored(s, key, role) <==> role !in Pair(s.hub, key)
  {
    if role in Pair(s.hub, key) {
      assert EntryWell(s, key, role);
      assert Stored(s.hub, Pair(s.hub, key)[role]);
    }
  }

  /** When exactly connect dies in set_result: no connect of its role is in the table, and one of
      the other role is there that was already given an earlier connect of this role. */
  lemma CrashExactly(s: System, key: RelayBinding, role: Role)
    requires Inv(s)
    ensures ConnectOutcome(s.hub, key, role) == InvalidState <==>
      NoneStored(s, key, role) && exists i, p :: Taken(s, key, role, i, p)
  {
    StoredUnderRole(s, key, role);
    if ConnectOutcome(s.hub, key, role) == InvalidState {
      var p := Pair(s.hub, key)[role.Peer()];
      assert EntryWell(s, key, role.Peer()) && Linked(s, p);
      assert Taken(s, key, role, s.hub.endpoints[p].peer.websocket, p);
    }
  }

  /** On a binding without earlier crashes this means that an earlier connect of the role has left
      while the partner it was paired with is still there. */
  lemma FirstCrashExactly(s: System, key: RelayBinding, role: Role)
    requires Inv(s) && NoCrash(s, key)
    ensures ConnectOutcome(s.hub, key, role) == InvalidState <==> exists i, p :: Outlived(s, key, role, i, p)
  {
    var pair := Pair(s.hub, key);
    assert EntryWell(s, key, role.Peer()) && EntryWell(s, key, role);
    if ConnectOutcome(s.hub, key, role) == InvalidState {
      var p := pair[role.Peer()];
      assert Linked(s, p);
      assert Outlived(s, key, role, s.hub.endpoints[p].peer.websocket, p);
    }
    if i, p :| Outlived(s, key, role, i, p) {
      assert Linked(s, i);
      StoredPairsHoldEachOther(s, key);
    }
  }

  /** Each role connects at most once on the binding. */
  ghost predicate OncePerRole(h: Hub, key: RelayBinding) {
    forall i, j | 0 <= i < j < |h.endpoints| && h.endpoints[i].key == h.endpoints[j].key == key ::
      h.endpoints[i].role != h.endpoints[j].role
  }

  lemma StepKeepsNoCrash(s: System, step: Step, key: RelayBinding)
    requires Inv(s) && NoCrash(s, key) && OncePerRole(Apply(s, step).hub, key)
    ensures NoCrash(Apply(s, step), key)
  {
    if step.Connect? && step.key == key {
      var s' := Apply(s, step);
      var n := |s.phase|;
      assert s'.hub.endpoints[n].key == key && s'.hub.endpoints[n].role == step.role;
      FirstCrashExactly(s, key, step.role);
      forall i | 0 <= i < n && s.hub.endpoints[i].key == key ensures s.hub.endpoints[i].role != step.role {
        assert s'.hub.endpoints[i].key == key && s'.hub.endpoints[i].role == s.hub.endpoints[i].role;
      }
    }
  }

  /** Endpoints keep their identity and are only appended. */
  lemma EndpointsGrow(s: System, step: Step)
    requires WellFormed(s)
    ensures |s.hub.endpoints| <= |Apply(s, step).hub.endpoints|
    ensures forall i | 0 <= i < |s.hub.endpoints| ::
      && Apply(s, step).hub.endpoints[i].key == s.hub.endpoints[i].key
      && Apply(s, step).hub.endpoints[i].role == s.hub.endpoints[i].role
  {
  }

  lemma OncePerRoleBefore(s: System, step: Step, key: RelayBinding)
    requires WellFormed(s) && OncePerRole(Apply(s, step).hub, key)
    ensures OncePerRole(s.hub, key)
  {
    EndpointsGrow(s, step);
    var h, h' := s.hub, Apply(s, step).hub;
    forall i, j | 0 <= i < j < |h.endpoints| && h.endpoints[i].key == h.endpoints[j].key == key
      ensures h.endpoints[i].role != h.endpoints[j].role
    {
      assert h'.endpoints[i].key == h'.endpoints[j].key == key;
    }
  }

  /** If each role connects at most once on a binding, set_result never hits a completed future
      on it, whatever happens on other bindings. */
  lemma {:induction false} OneConnectPerRoleNeverCrashes(steps: seq<Step>, key: RelayBinding)
    requires OncePerRole(After(steps).hub, key)
    ensures NoCrash(After(steps), key)
  {
    if steps != [] {
      var before, step := After(steps[..|steps| - 1]), steps[|steps| - 1];
      OncePerRoleBefore(before, step, key);
      OneConnectPerRoleNeverCrashes(steps[..|steps| - 1], key);
      StepKeepsNoCrash(before, step, key);
    }
  }

  /** Removing oneself evicts nobody else; a stale removal changes no entry at all. */
  lemma RemoveEvictsOnlyItself(s: System, i: nat)
    requires Inv(s) && i < |s.phase|
    ensures !Stored(s.hub, i) ==> Remove(s.hub, i) == s.hub
    ensures forall j | 0 <= j < |s.phase| :: Stored(Remove(s.hub, i), j) <==> Stored(s.hub, j) && j != i
  {
    forall j | 0 <= j < |s.phase| ensures Stored(Remove(s.hub, i), j) <==> Stored(s.hub, j) && j != i {
      var e, f := s.hub.endpoints[i], s.hub.endpoints[j];
      if e.key == f.key && e.role == f.role && Stored(s.hub, i) && j != i {
        assert !Stored(s.hub, j);
      }
    }
  }

  /** A crashed connect keeps its entry until its own binding is revoked. */
  lemma CrashedStaysStored(s: System, step: Step, i: nat)
    requires Inv(s) && i < |s.phase| && s.phase[i] == Crashed && Stored(s.hub, i)
    requires step != Revoke(s.hub.endpoints[i].key)
    ensures Apply(s, step).phase[i] == Crashed && Stored(Apply(s, step).hub, i)
  {
    if step.RemoveSelf? && step.i < |s.phase| {
      RemoveEvictsOnlyItself(s, step.i);
    }
  }

  /** The system after a run from any state. */
  function Run(s: System, steps: seq<Step>): (s': System)
    requires WellFormed(s)
    ensures WellFormed(s')
  {
    if steps == [] then s
    else
      var before := Run(s, steps[..|steps| - 1]);
      StepKeepsWellFormed(before, steps[|steps| - 1]);
      Apply(before, steps[|steps| - 1])
  }

  lemma {:induction false} RunKeepsInv(s: System, steps: seq<Step>)
    requires Inv(s)
    ensures Inv(Run(s, steps)) && |s.phase| <= |Run(s, steps).phase|
  {
    if steps != [] {
      RunKeepsInv(s, steps[..|steps| - 1]);
      StepKeepsInv(Run(s, steps[..|steps| - 1]), steps[|steps| - 1]);
    }
  }

  ghost predicate Leaked(s: System, i: nat, key: RelayBinding, role: Role)
    requires WellFormed(s)
  {
    && In(s, i, Crashed) && Stored(s.hub, i)
    && s.hub.endpoints[i].key == key && s.hub.endpoints[i].role == role
  }

  lemma {:induction false} LeakPersists(s: System, steps: seq<Step>, i: nat, key: RelayBinding, role: Role)
    requires Inv(s) && Leaked(s, i, key, role) && Revoke(key) !in steps
    ensures Leaked(Run(s, steps), i, key, role)
  {
    if steps != [] {
      var before, step := Run(s, steps[..|steps| - 1]), steps[|steps| - 1];
      LeakPersists(s, steps[..|steps| - 1], i, key, role);
      RunKeepsInv(s, steps[..|steps| - 1]);
      CrashedStaysStored(before, step, i);
      EndpointsGrow(before, step);
    }
  }

  /** A leaked endpoint makes its binding unusable: whatever happens short of its revocation, every
      connect of the leaked role is refused as a duplicate, and every connect of the other role
      dies in set_result unless its own role is still stored. */
  lemma LeakBlocksBinding(s: System, steps: seq<Step>, i: nat, key: RelayBinding, role: Role)
    requires Inv(s) && Leaked(s, i, key, role) && Revoke(key) !in steps
    ensures ConnectOutcome(Run(s, steps).hub, key, role) == Duplicate
    ensures ConnectOutcome(Run(s, steps).hub, key, role.Peer()) ==
      if NoneStored(Run(s, steps), key, role.Peer()) then InvalidState else Duplicate
  {
    var t := Run(s, steps);
    RunKeepsInv(s, steps);
    LeakPersists(s, steps, i, key, role);
    StoredUnderRole(t, key, role.Peer());
    assert PhaseFits(t, i);
  }

  lemma AfterSnoc(steps: seq<Step>, step: Step)
    ensures After(steps + [step]) == Apply(After(steps), step)
  {
    var longer := steps + [step];
    assert longer[..|longer| - 1] == steps;
  }

  lemma FirstConnect(key: RelayBinding)
    ensures After([Connect(key, Device)]) ==
      System(Hub([Endpoint(key, Device, Pending)], map[key := map[Device := 0]]), [Waiting])
  {
    AfterSnoc([], Connect(key, Device));
    assert [] + [Connect(key, Device)] == [Connect(key, Device)];
    assert After([]) == INITIAL;
    assert Register(INITIAL.hub, key, Device).pairs == map[key := map[Device := 0]];
  }

  function Met(key: RelayBinding): Hub {
    Hub([Endpoint(key, Device, Resolved(1)), Endpoint(key, Proxy, Resolved(0))],
        map[key := map[Device := 0, Proxy := 1]])
  }

  lemma AfterTwo(steps: seq<Step>, a: Step, b: Step)
    ensures After(steps + [a, b]) == Apply(Apply(After(steps), a), b)
  {
    SnocTwice(steps, a, b);
    AfterSnoc(steps, a);
    AfterSnoc(steps + [a], b);
  }

  lemma SnocTwice(steps: seq<Step>, a: Step, b: Step)
    ensures steps + [a, b] == steps + [a] + [b]
  {
  }

  lemma SecondConnect(key: RelayBinding)
    ensures After([Connect(key, Device), Connect(key, Proxy)]) == System(Met(key), [Waiting, Waiting])
  {
    FirstConnect(key);
    var s1 := After([Connect(key, Device)]);
    AfterSnoc([Connect(key, Device)], Connect(key, Proxy));
    assert [Connect(key, Device)] + [Connect(key, Proxy)] == [Connect(key, Device), Connect(key, Proxy)];
    assert Register(s1.hub, key, Proxy).pairs == Met(key).pairs;
    assert Register(s1.hub, key, Proxy).endpoints == Met(key).endpoints;
    assert [Waiting] + [Waiting] == [Waiting, Waiting];
  }

  lemma BothWake(key: RelayBinding)
    ensures Apply(Apply(System(Met(key), [Waiting, Waiting]), Wake(0)), Wake(1)) ==
      System(Met(key), [Forwarding, Forwarding])
  {
    assert [Waiting, Waiting][0 := Forwarding] == [Forwarding, Waiting];
    assert [Forwarding, Waiting][1 := Forwarding] == [Forwarding, Forwarding];
  }

  /** A device and a proxy meet, and both start forwarding. */
  lemma TwoMeet(key: RelayBinding)
    ensures After([Connect(key, Device), Connect(key, Proxy), Wake(0), Wake(1)]) ==
      System(Met(key), [Forwarding, Forwarding])
  {
    SecondConnect(key);
    AfterTwo([Connect(key, Device), Connect(key, Proxy)], Wake(0), Wake(1));
    BothWake(key);
    assert [Connect(key, Device), Connect(key, Proxy)] + [Wake(0), Wake(1)] ==
      [Connect(key, Device), Connect(key, Proxy), Wake(0), Wake(1)];
  }

  lemma ProxyLeaves(key: RelayBinding)
    ensures Apply(Apply(System(Met(key), [Forwarding, Forwarding]), EndForwarding(1)), RemoveSelf(1)) ==
      System(Met(key).(pairs := map[key := map[Device := 0]]), [Forwarding, Returned])
  {
    assert [Forwarding, Forwarding][1 := Finishing] == [Forwarding, Finishing];
    assert [Forwarding, Finishing][1 := Returned] == [Forwarding, Returned];
    assert Stored(Met(key), 1);
    assert Met(key).pairs[key] - {Proxy} == map[Device := 0];
    assert Met(key).pairs[key := map[Device := 0]] == map[key := map[Device := 0]];
    assert Device in map[Device := 0];
    assert Remove(Met(key), 1) == Met(key).(pairs := map[key := map[Device := 0]]);
  }

  lemma SecondProxyCrashes(key: RelayBinding)
    ensures var s := System(Met(key).(pairs := map[key := map[Device := 0]]), [Forwarding, Returned]);
      Apply(s, Connect(key, Proxy)) ==
        System(Hub(Met(key).endpoints + [Endpoint(key, Proxy, Resolved(0))], map[key := map[Device := 0, Proxy := 2]]),
               [Forwarding, Returned, Crashed])
  {
  }

  /** The hub that is left when a second proxy crashed and everybody else is gone. */
  function Wreck(key: RelayBinding): System {
    System(Hub(Met(key).endpoints + [Endpoint(key, Proxy, Resolved(0))], map[key := map[Proxy := 2]]),
           [Returned, Returned, Crashed])
  }

  lemma DeviceLeavesLast(key: RelayBinding, s: System)
    requires s.hub == Hub(Wreck(key).hub.endpoints, map[key := map[Device := 0, Proxy := 2]])
    requires s.phase == [Forwarding, Returned, Crashed]
    ensures Apply(Apply(s, EndForwarding(0)), RemoveSelf(0)) == Wreck(key)
  {
    assert s.phase[0 := Finishing] == [Finishing, Returned, Crashed];
    assert [Finishing, Returned, Crashed][0 := Returned] == [Returned, Returned, Crashed];
    assert Stored(s.hub, 0);
    assert s.hub.pairs[key] - {Device} == map[Proxy := 2];
    assert Proxy in map[Proxy := 2];
    assert s.hub.pairs[key := map[Proxy := 2]] == map[key := map[Proxy := 2]];
  }

  /** The hypothesis is needed: proxy leaves, the device is still forwarding, and a second proxy
      of the same binding dies in set_result and stays in the table after everyone has left. */
  lemma ReconnectLeaks(key: RelayBinding)
    ensures After([Connect(key, Device), Connect(key, Proxy), Wake(0), Wake(1)] +
          [EndForwarding(1), RemoveSelf(1)] + [Connect(key, Proxy)] + [EndForwarding(0), RemoveSelf(0)]) == Wreck(key)
    ensures Wreck(key).phase == [Returned, Returned, Crashed] && Stored(Wreck(key).hub, 2)
  {
    var met := [Connect(key, Device), Connect(key, Proxy), Wake(0), Wake(1)];
    TwoMeet(key);
    AfterTwo(met, EndForwarding(1), RemoveSelf(1));
    ProxyLeaves(key);
    var left := met + [EndForwarding(1), RemoveSelf(1)];
    AfterSnoc(left, Connect(key, Proxy));
    SecondProxyCrashes(key);
    var crashed := left + [Connect(key, Proxy)];
    AfterTwo(crashed, EndForwarding(0), RemoveSelf(0));
    DeviceLeavesLast(key, After(crashed));
  }

  /** The leak spreads: in what is left, a new device dies as well, although no connect of its role
      has left a partner behind. */
  lemma LeakSpreads(key: RelayBinding)
    ensures ConnectOutcome(Wreck(key).hub, key, Device) == InvalidState
    ensures forall i, p :: !Outlived(Wreck(key), key, Device, i, p)
  {
  }

  // ---------- Revocation

  /** Of the first n endpoints, none on the key is stored or still waiting for a peer. */
  ghost predicate RevokedUpTo(s: System, key: RelayBinding, n: nat)
    requires WellFormed(s) && n <= |s.phase|
  {
    forall i | 0 <= i < n && s.hub.endpoints[i].key == key ::
      !Stored(s.hub, i) && !(Running(s, i) && s.hub.endpoints[i].peer.Pending?)
  }

  /** Closing a binding takes every endpoint registered so far out of the table and leaves no
      connect waiting for a peer on it. */
  lemma RevokeTakesEffect(s: System, key: RelayBinding)
    requires Inv(s)
    ensures key !in Apply(s, Revoke(key)).hub.pairs
    ensures RevokedUpTo(Apply(s, Revoke(key)), key, |s.phase|)
  {
    var s' := Apply(s, Revoke(key));
    forall i | 0 <= i < |s.phase| && s'.hub.endpoints[i].key == key
      ensures !Stored(s'.hub, i) && !(Running(s', i) && s'.hub.endpoints[i].peer.Pending?)
    {
      assert PhaseFits(s, i);
    }
  }

  lemma RevokedStays(s: System, step: Step, key: RelayBinding, n: nat)
    requires Inv(s) && n <= |s.phase| && RevokedUpTo(s, key, n)
    ensures RevokedUpTo(Apply(s, step), key, n)
  {
    EndpointsGrow(s, step);
    if step.RemoveSelf? && step.i < |s.phase| {
      RemoveEvictsOnlyItself(s, step.i);
    }
  }

  /** Closing twice is closing once. */
  lemma RevokeIdempotent(h: Hub, key: RelayBinding)
    ensures CloseBinding(CloseBinding(h, key), key) == CloseBinding(h, key)
  {
  }

  /** Closings commute, so their order does not matter. */
  lemma RevokesCommute(h: Hub, a: RelayBinding, b: RelayBinding)
    ensures CloseBinding(CloseBinding(h, a), b) == CloseBinding(CloseBinding(h, b), a)
  {
    var ab, ba := CloseBinding(CloseBinding(h, a), b), CloseBinding(CloseBinding(h, b), a);
    assert ab.endpoints == ba.endpoints;
    assert ab.pairs == ba.pairs;
  }
}

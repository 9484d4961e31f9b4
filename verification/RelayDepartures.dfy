/**
 Leaving the hub: every running connect can return on its own and then frees its place, and every
 reachable state can be drained down to the endpoints of crashed connects.
 */
module RelayDepartures {
  import opened RelayIdentity
  import opened RelayHub

  /** How a running connect leaves: a waiting one gives up, a forwarding one ends, and then removes
      itself. */
  function LeaveSteps(s: System, i: nat): seq<Step>
    requires i < |s.phase|
  {
    match s.phase[i]
    case Waiting => [GiveUp(i), RemoveSelf(i)]
    case Forwarding => [EndForwarding(i), RemoveSelf(i)]
    case Finishing => [RemoveSelf(i)]
    case Returned => []
    case Crashed => []
  }

  lemma RunSnoc(s: System, steps: seq<Step>, step: Step)
    requires WellFormed(s)
    ensures Run(s, steps + [step]) == Apply(Run(s, steps), step)
  {
    assert (steps + [step])[..|steps|] == steps;
  }

  lemma RunTwo(s: System, a: Step, b: Step)
    requires WellFormed(s)
    ensures WellFormed(Apply(s, a)) && Run(s, [a, b]) == Apply(Apply(s, a), b)
  {
    StepKeepsWellFormed(s, a);
    RunSnoc(s, [], a);
    RunSnoc(s, [a], b);
    assert [] + [a] == [a] && [a] + [b] == [a, b];
  }

  lemma RunOne(s: System, a: Step)
    requires WellFormed(s)
    ensures Run(s, [a]) == Apply(s, a)
  {
    RunSnoc(s, [], a);
    assert [] + [a] == [a];
  }

  lemma TwoStepsLeave(s: System, i: nat, first: Step)
    requires Inv(s) && i < |s.phase|
    requires (In(s, i, Waiting) && first == GiveUp(i)) || (In(s, i, Forwarding) && first == EndForwarding(i))
    ensures WellFormed(Apply(s, first))
    ensures Apply(Apply(s, first), RemoveSelf(i)) == System(Remove(s.hub, i), s.phase[i := Returned])
  {
    assert s.phase[i := Finishing][i := Returned] == s.phase[i := Returned];
  }

  /** From any state of the invariant a running connect can return, which takes exactly its own
      endpoint out of the table and changes nothing else. */
  lemma RunningCanLeave(s: System, i: nat)
    requires Inv(s) && i < |s.phase| && Running(s, i)
    ensures Run(s, LeaveSteps(s, i)) == System(Remove(s.hub, i), s.phase[i := Returned])
  {
    if s.phase[i] == Waiting {
      TwoStepsLeave(s, i, GiveUp(i));
      RunTwo(s, GiveUp(i), RemoveSelf(i));
    } else if s.phase[i] == Forwarding {
      TwoStepsLeave(s, i, EndForwarding(i));
      RunTwo(s, EndForwarding(i), RemoveSelf(i));
    } else {
      RunOne(s, RemoveSelf(i));
    }
  }

  lemma ConcatSnoc(a: seq<Step>, b: seq<Step>, last: Step)
    ensures a + (b + [last]) == (a + b) + [last]
  {
  }

  lemma {:induction false} RunConcat(s: System, a: seq<Step>, b: seq<Step>)
    requires WellFormed(s)
    ensures Run(s, a + b) == Run(Run(s, a), b)
  {
    if b == [] {
      assert a + b == a;
    } else {
      var front, last := b[..|b| - 1], b[|b| - 1];
      RunConcat(s, a, front);
      assert b == front + [last];
      ConcatSnoc(a, front, last);
      RunSnoc(s, a + front, last);
      RunSnoc(Run(s, a), front, last);
    }
  }

  lemma {:induction false} AfterIsRun(steps: seq<Step>)
    ensures After(steps) == Run(INITIAL, steps)
  {
    if steps != [] {
      AfterIsRun(steps[..|steps| - 1]);
    }
  }

  lemma AfterConcat(a: seq<Step>, b: seq<Step>)
    ensures After(a + b) == Run(After(a), b)
  {
    AfterIsRun(a);
    AfterIsRun(a + b);
    RunConcat(INITIAL, a, b);
  }

  /** In every run each running connect has steps that return it and take it, and nobody else, out of
      the table. */
  lemma EveryRunningConnectCanLeave(steps: seq<Step>, i: nat)
    requires i < |After(steps).phase| && Running(After(steps), i)
    ensures var s, t := After(steps), After(steps + LeaveSteps(After(steps), i));
      && t.phase == s.phase[i := Returned] && t.hub.endpoints == s.hub.endpoints
      && forall j | 0 <= j < |t.phase| :: Stored(t.hub, j) <==> Stored(s.hub, j) && j != i
  {
    AfterConcat(steps, LeaveSteps(After(steps), i));
    RunningCanLeave(After(steps), i);
    RemoveEvictsOnlyItself(After(steps), i);
  }

  /** A waiting endpoint is alone on its binding, since a stored peer would have completed it. */
  lemma WaiterIsAlone(s: System, i: nat)
    requires Inv(s) && i < |s.phase| && Running(s, i) && s.hub.endpoints[i].peer.Pending?
    ensures Stored(s.hub, i) && s.hub.endpoints[i].role.Peer() !in Pair(s.hub, s.hub.endpoints[i].key)
  {
    var e := s.hub.endpoints[i];
    assert PhaseFits(s, i);
    if e.role.Peer() in Pair(s.hub, e.key) {
      PairedIsResolved(s, i);
    }
  }

  lemma PairedIsResolved(s: System, i: nat)
    requires Inv(s) && i < |s.phase| && Stored(s.hub, i)
    requires s.hub.endpoints[i].role.Peer() in Pair(s.hub, s.hub.endpoints[i].key)
    ensures s.hub.endpoints[i].peer.Resolved?
  {
    var e := s.hub.endpoints[i];
    assert PairLinked(s.hub, e.key) && EntryWell(s, e.key, e.role.Peer());
    assert Linked(s, Pair(s.hub, e.key)[e.role.Peer()]);
  }

  /** A connect that times out while it waits frees its place: afterwards it has returned, is not in
      the table, and its role can register on the binding. */
  lemma TimeoutFreesThePlace(steps: seq<Step>, i: nat)
    requires In(After(steps), i, Waiting) && After(steps).hub.endpoints[i].peer.Pending?
    ensures var e, t := After(steps).hub.endpoints[i], After(steps + [GiveUp(i), RemoveSelf(i)]);
      && In(t, i, Returned) && !Stored(t.hub, i) && ConnectOutcome(t.hub, e.key, e.role) == Registered
  {
    var s := After(steps);
    WaiterIsAlone(s, i);
    AfterConcat(steps, [GiveUp(i), RemoveSelf(i)]);
    RunningCanLeave(s, i);
  }

  /** A revoked connect that still waits leaves the same way, without touching whoever has come since. */
  lemma RevokedLeaves(steps: seq<Step>, i: nat)
    requires In(After(steps), i, Waiting) && After(steps).hub.endpoints[i].peer.Closed?
    ensures var t := After(steps + [GiveUp(i), RemoveSelf(i)]);
      In(t, i, Returned) && t.hub == After(steps).hub
  {
    var s := After(steps);
    assert EntryWell(s, s.hub.endpoints[i].key, s.hub.endpoints[i].role);
    AfterConcat(steps, [GiveUp(i), RemoveSelf(i)]);
    RunningCanLeave(s, i);
  }

  predicate Departure(step: Step) {
    step.GiveUp? || step.EndForwarding? || step.RemoveSelf?
  }

  /** None of the first n connects is running; crashed connects and their entries are as in s. */
  ghost predicate DrainedUpTo(s: System, t: System, n: nat)
    requires WellFormed(s) && WellFormed(t) && n <= |s.phase| == |t.phase|
  {
    && (forall i | 0 <= i < |s.phase| :: t.phase[i] == if i < n && Running(s, i) then Returned else s.phase[i])
    && (forall i | 0 <= i < |s.phase| :: Stored(t.hub, i) <==> Stored(s.hub, i) && !(i < n && Running(s, i)))
  }

  ghost predicate Departures(steps: seq<Step>) {
    forall step | step in steps :: Departure(step)
  }

  lemma {:induction false} DrainFirst(s: System, n: nat) returns (steps: seq<Step>)
    requires Inv(s) && n <= |s.phase|
    ensures Departures(steps)
    ensures |Run(s, steps).phase| == |s.phase| && DrainedUpTo(s, Run(s, steps), n)
  {
    if n == 0 {
      steps := [];
    } else {
      var front := DrainFirst(s, n - 1);
      RunKeepsInv(s, front);
      var more := DrainNext(s, Run(s, front), n - 1);
      RunConcat(s, front, more);
      steps := front + more;
    }
  }

  lemma DrainNext(s: System, t: System, n: nat) returns (more: seq<Step>)
    requires WellFormed(s) && Inv(t) && n < |s.phase| == |t.phase| && DrainedUpTo(s, t, n)
    ensures Departures(more)
    ensures |Run(t, more).phase| == |s.phase| && DrainedUpTo(s, Run(t, more), n + 1)
  {
    if Running(s, n) {
      more := LeaveSteps(t, n);
      RunningCanLeave(t, n);
      DrainOne(s, t, n);
    } else {
      more := [];
      DrainNone(s, t, n);
    }
  }

  lemma DrainOne(s: System, t: System, n: nat)
    requires WellFormed(s) && Inv(t) && n < |s.phase| == |t.phase| && Running(s, n) && DrainedUpTo(s, t, n)
    ensures var u := System(Remove(t.hub, n), t.phase[n := Returned]);
      WellFormed(u) && DrainedUpTo(s, u, n + 1)
  {
    RemoveEvictsOnlyItself(t, n);
  }

  lemma DrainNone(s: System, t: System, n: nat)
    requires WellFormed(s) && WellFormed(t) && n < |s.phase| == |t.phase| && !Running(s, n) && DrainedUpTo(s, t, n)
    ensures DrainedUpTo(s, t, n + 1)
  {
  }

  /** Every reachable state can be drained by departures alone: then nobody is running any more, and
      exactly the endpoints of crashed connects that were stored are still stored. */
  lemma EveryRunCanBeDrained(steps: seq<Step>) returns (more: seq<Step>)
    ensures Departures(more)
    ensures var s, t := After(steps), After(steps + more);
      && |t.phase| == |s.phase|
      && (forall i | 0 <= i < |t.phase| :: t.phase[i] == if s.phase[i] == Crashed then Crashed else Returned)
      && (forall i | 0 <= i < |t.phase| :: Stored(t.hub, i) <==> Stored(s.hub, i) && s.phase[i] == Crashed)
  {
    var s := After(steps);
    more := DrainFirst(s, |s.phase|);
    AfterConcat(steps, more);
    forall i | 0 <= i < |s.phase| && Stored(s.hub, i) ensures s.phase[i] != Returned {
      assert EntryWell(s, s.hub.endpoints[i].key, s.hub.endpoints[i].role);
    }
  }
}

/**
 Revocation across workers: the message that announces a closed binding, its decoding by the
 subscribers, and the cluster of hubs with their message queues.
 */
module RelayRevocation {
  import opened Wrappers
  import opened Digits
  import opened RelayIdentity
  import opened RelayHub
  import Departures = RelayDepartures

  // ---------- Messages

  /** A member's value as json.loads yields it; Infinite is an infinite float, which an overlong
      exponent also gives. */
  datatype Json =
    | Null
    | Boolean(b: bool)
    | Text(text: string)
    | Number(n: int)
    | Float(x: real)
    | Infinite
    | NotANumber
    | Compound

  /** What the subscriber reads from its channel; a member is None when the object lacks it. */
  datatype BusMessage =
    | ControlMessage
    | Malformed
    | Object(deviceSessionId: Option<Json>, generation: Option<Json>)

  /** Reconnect stands for an exception outside the caught kinds, which drops the subscription. */
  datatype Decoded = Revocation(key: RelayBinding) | Skip | Reconnect

  function Encode(deviceSessionId: Uuid, generation: int): BusMessage {
    Object(Some(Text(UuidText(deviceSessionId))), Some(Number(generation)))
  }

  /** UUID() treats anything but None as text; other types lack the text methods that it calls. */
  function DecodeSession(value: Option<Json>): Decoded {
    match value
    case None => Skip
    case Some(Null) => Skip
    case Some(Text(text)) =>
      (match ParseUuid(text)
       case None => Skip
       case Some(u) => Revocation(RelayBinding(DeviceControl, u, 0)))
    case Some(Boolean(_)) => Reconnect
    case Some(Number(_)) => Reconnect
    case Some(Float(_)) => Reconnect
    case Some(Infinite) => Reconnect
    case Some(NotANumber) => Reconnect
    case Some(Compound) => Reconnect
  }

  datatype Count = Counted(n: int) | Caught | Uncaught

  /** int(x) of a finite float drops the fraction. */
  function Truncated(x: real): int {
    if x < 0.0 then -((-x).Floor) else x.Floor
  }

  /** int(): an infinite float raises OverflowError, which is not caught. */
  function DecodeGeneration(value: Option<Json>): Count {
    match value
    case None => Caught
    case Some(Null) => Caught
    case Some(Boolean(b)) => Counted(if b then 1 else 0)
    case Some(Text(text)) => (match ParseInteger(text) case None => Caught case Some(n) => Counted(n))
    case Some(Number(n)) => Counted(n)
    case Some(Float(x)) => Counted(Truncated(x))
    case Some(Infinite) => Uncaught
    case Some(NotANumber) => Caught
    case Some(Compound) => Caught
  }

  function Decode(message: BusMessage): Decoded {
    match message
    case ControlMessage => Skip
    case Malformed => Skip
    case Object(session, generation) =>
      Combined(DecodeSession(session), DecodeGeneration(generation))
  }

  /** The session is converted first; then the generation, which has to be positive. */
  function Combined(target: Decoded, count: Count): Decoded {
    if !target.Revocation? then target
    else
      match count
      case Caught => Skip
      case Uncaught => Reconnect
      case Counted(n) => if n < 1 then Skip else Revocation(target.key.(generation := n))
  }

  /** The shape of the messages that cost the subscription: a session that is neither missing, null
      nor text, or the text of a UUID together with an infinite generation. */
  predicate LosesSubscription(message: BusMessage) {
    && message.Object?
    && message.deviceSessionId.Some?
    && var session := message.deviceSessionId.value;
       || (session != Null && !session.Text?)
       || (session.Text? && ParseUuid(session.text).Some? && message.generation == Some(Infinite))
  }

  lemma ReconnectExactly(message: BusMessage)
    ensures Decode(message).Reconnect? <==> LosesSubscription(message)
  {
    if message.Object? {
      SessionDecodes(message.deviceSessionId);
      CombinedReconnects(DecodeSession(message.deviceSessionId), DecodeGeneration(message.generation));
      GenerationRaises(message.generation);
    }
  }

  lemma CombinedReconnects(target: Decoded, count: Count)
    ensures Combined(target, count).Reconnect? <==> target.Reconnect? || (target.Revocation? && count.Uncaught?)
  {
  }

  lemma GenerationRaises(value: Option<Json>)
    ensures DecodeGeneration(value).Uncaught? <==> value == Some(Infinite)
  {
  }

  lemma SessionDecodes(session: Option<Json>)
    ensures DecodeSession(session).Reconnect? <==> session.Some? && session.value != Null && !session.value.Text?
    ensures DecodeSession(session).Revocation? <==>
      session.Some? && session.value.Text? && ParseUuid(session.value.text).Some?
  {
  }

  /** A boolean session and an infinite generation, each in an otherwise proper message. */
  lemma BadMessagesLoseSubscription(deviceSessionId: Uuid)
    ensures Decode(Object(Some(Boolean(true)), Some(Number(1)))) == Reconnect
    ensures Decode(Object(Some(Text(UuidText(deviceSessionId))), Some(Infinite))) == Reconnect
  {
    UuidRoundTrip(deviceSessionId);
  }

  predicate MeansSession(value: Option<Json>, u: Uuid) {
    value.Some? && value.value.Text? && ParseUuid(value.value.text) == Some(u)
  }

  /** The generation as a number, as a float less than one above it, as text or, for 1, as true. */
  predicate MeansGeneration(value: Option<Json>, n: int) {
    match value
    case Some(Number(k)) => k == n
    case Some(Float(x)) => n as real <= x < (n + 1) as real
    case Some(Text(text)) => ParseInteger(text) == Some(n)
    case Some(Boolean(b)) => b && n == 1
    case _ => false
  }

  /** A message closes a binding exactly when its session is text of the binding's UUID and its
      generation means the binding's, which is positive. */
  lemma RevocationExactly(message: BusMessage, key: RelayBinding)
    ensures Decode(message) == Revocation(key) <==>
      && message.Object? && key.kind == DeviceControl && key.generation >= 1
      && MeansSession(message.deviceSessionId, key.bindingId)
      && MeansGeneration(message.generation, key.generation)
  {
    if message.Object? {
      SessionMeans(message.deviceSessionId, key.bindingId);
      if key.generation >= 1 {
        GenerationMeans(message.generation, key.generation);
      }
    }
  }

  lemma SessionMeans(value: Option<Json>, u: Uuid)
    ensures DecodeSession(value) == Revocation(RelayBinding(DeviceControl, u, 0)) <==> MeansSession(value, u)
    ensures DecodeSession(value).Revocation? ==>
      DecodeSession(value).key.kind == DeviceControl && DecodeSession(value).key.generation == 0
  {
  }

  lemma GenerationMeans(value: Option<Json>, n: int)
    requires n >= 1
    ensures DecodeGeneration(value) == Counted(n) <==> MeansGeneration(value, n)
  {
    if value.Some? && value.value.Float? {
      var x := value.value.x;
      assert x >= 0.0 ==> x.Floor as real <= x < (x.Floor + 1) as real;
      assert x < 0.0 ==> (-x).Floor >= 0;
    }
  }

  /** A published revocation is understood by every subscriber exactly when its generation is
      positive; otherwise it is skipped. */
  lemma PublishedIsUnderstood(deviceSessionId: Uuid, generation: int)
    ensures Decode(Encode(deviceSessionId, generation)) ==
      if generation >= 1 then Revocation(RelayBinding(DeviceControl, deviceSessionId, generation)) else Skip
  {
    UuidRoundTrip(deviceSessionId);
  }

  /** The bindings that a sequence of messages closes, in order. */
  function Revoked(messages: seq<BusMessage>): seq<RelayBinding> {
    if messages == [] then []
    else
      var front := Revoked(messages[..|messages| - 1]);
      match Decode(messages[|messages| - 1])
      case Revocation(key) => front + [key]
      case Skip => front
      case Reconnect => front
  }

  /** How many messages cost the subscription. */
  function Losses(messages: seq<BusMessage>): nat {
    if messages == [] then 0
    else Losses(messages[..|messages| - 1]) + if LosesSubscription(messages[|messages| - 1]) then 1 else 0
  }

  function CloseAll(h: Hub, keys: seq<RelayBinding>): Hub {
    if keys == [] then h else CloseBinding(CloseAll(h, keys[..|keys| - 1]), keys[|keys| - 1])
  }

  /** What handling message n adds to handling the messages before it. */
  lemma OneMoreMessage(h: Hub, messages: seq<BusMessage>, n: nat)
    requires n < |messages|
    ensures var before, m := messages[..n], messages[n];
      && CloseAll(h, Revoked(messages[..n + 1])) ==
           (match Decode(m)
            case Revocation(key) => CloseBinding(CloseAll(h, Revoked(before)), key)
            case Skip => CloseAll(h, Revoked(before))
            case Reconnect => CloseAll(h, Revoked(before)))
      && Losses(messages[..n + 1]) == Losses(before) + (if Decode(m).Reconnect? then 1 else 0)
      && (forall k | k in messages[..n + 1] :: k in before || k == m)
      && (Decode(m).Reconnect? <==> LosesSubscription(m)) && m in messages[..n + 1]
      && forall k | k in before :: k in messages[..n + 1]
  {
    var before, all := Revoked(messages[..n]), messages[..n + 1];
    assert all[..n] == messages[..n] && all[n] == messages[n];
    ReconnectExactly(messages[n]);
    if Decode(messages[n]).Revocation? {
      assert (before + [Decode(messages[n]).key])[..|before|] == before;
    }
  }

  /** All given bindings closed at once. */
  function CloseSet(h: Hub, keys: set<RelayBinding>): Hub {
    Hub(
      seq(|h.endpoints|, i requires 0 <= i < |h.endpoints| =>
        var e := h.endpoints[i];
        if e.key in keys && Stored(h, i) && e.peer.Pending? then e.(peer := Closed) else e),
      h.pairs - keys)
  }

  /** Repeated and reordered deliveries do not matter: the hub ends as if the set of closed
      bindings had been closed at once. */
  lemma {:induction false} DeliveryOrderIrrelevant(h: Hub, keys: seq<RelayBinding>)
    ensures CloseAll(h, keys) == CloseSet(h, set k | k in keys)
  {
    if keys == [] {
      var none := CloseSet(h, set k | k in keys);
      assert none.endpoints == h.endpoints;
      assert none.pairs == h.pairs;
    } else {
      var front, key := keys[..|keys| - 1], keys[|keys| - 1];
      DeliveryOrderIrrelevant(h, front);
      assert (set k | k in keys) == (set k | k in front) + {key};
      CloseOneMore(h, (set k | k in front), key);
    }
  }

  lemma CloseOneMore(h: Hub, keys: set<RelayBinding>, key: RelayBinding)
    ensures CloseBinding(CloseSet(h, keys), key) == CloseSet(h, keys + {key})
  {
    var a, b := CloseBinding(CloseSet(h, keys), key), CloseSet(h, keys + {key});
    forall i | 0 <= i < |h.endpoints| ensures a.endpoints[i] == b.endpoints[i] {
      var e := h.endpoints[i];
      if e.key !in keys {
        assert Stored(CloseSet(h, keys), i) <==> Stored(h, i);
      }
    }
    assert a.endpoints == b.endpoints;
    assert a.pairs == b.pairs;
  }

  // ---------- The cluster

  /** One hub and one message queue per worker. */
  datatype Cluster = Cluster(workers: seq<System>, inbox: seq<seq<BusMessage>>)

  datatype ClusterStep =
    | Local(w: nat, step: Step)
    | CloseAndPublish(w: nat, deviceSessionId: Uuid, generation: int)
    | Handle(w: nat)
    | Lose(w: nat)

  ghost predicate ClusterInv(c: Cluster) {
    |c.workers| == |c.inbox| && forall w | 0 <= w < |c.workers| :: Inv(c.workers[w])
  }

  /** Handling closes locally and publishes nothing; a lost message just disappears. */
  ghost function ApplyCluster(c: Cluster, step: ClusterStep): Cluster
    requires ClusterInv(c)
  {
    if step.w >= |c.workers| then c
    else
      match step
      case Local(w, local) =>
        if local.Revoke? then c else c.(workers := c.workers[w := Apply(c.workers[w], local)])
      case CloseAndPublish(w, session, generation) =>
        var key := RelayBinding(DeviceControl, session, generation);
        Cluster(
          c.workers[w := Apply(c.workers[w], Revoke(key))],
          seq(|c.inbox|, v requires 0 <= v < |c.inbox| => c.inbox[v] + [Encode(session, generation)]))
      case Handle(w) =>
        if c.inbox[w] == [] then c
        else
          var handled := c.(inbox := c.inbox[w := c.inbox[w][1..]]);
          (match Decode(c.inbox[w][0])
           case Revocation(key) => handled.(workers := c.workers[w := Apply(c.workers[w], Revoke(key))])
           case Skip => handled
           case Reconnect => handled)
      case Lose(w) =>
        if c.inbox[w] == [] then c else c.(inbox := c.inbox[w := c.inbox[w][1..]])
  }

  lemma ClusterStepKeepsInv(c: Cluster, step: ClusterStep)
    requires ClusterInv(c)
    ensures ClusterInv(ApplyCluster(c, step))
    ensures |ApplyCluster(c, step).workers| == |c.workers|
  {
    if step.w < |c.workers| {
      var s := c.workers[step.w];
      match step
      case Local(_, local) => StepKeepsInv(s, local);
      case CloseAndPublish(_, session, generation) =>
        StepKeepsInv(s, Revoke(RelayBinding(DeviceControl, session, generation)));
      case Handle(w) =>
        if c.inbox[w] != [] && Decode(c.inbox[w][0]).Revocation? {
          StepKeepsInv(s, Revoke(Decode(c.inbox[w][0]).key));
        }
      case Lose(_) =>
    }
  }

  ghost function Run(c: Cluster, steps: seq<ClusterStep>): (c': Cluster)
    requires ClusterInv(c)
    ensures ClusterInv(c') && |c'.workers| == |c.workers|
    decreases |steps|
  {
    if steps == [] then c
    else
      ClusterStepKeepsInv(c, steps[0]);
      Run(ApplyCluster(c, steps[0]), steps[1..])
  }

  /** What a step of the cluster makes one worker's hub do. */
  function OwnSteps(c: Cluster, step: ClusterStep, w: nat): seq<Step>
    requires |c.workers| == |c.inbox|
  {
    if step.w != w || w >= |c.workers| then []
    else
      match step
      case Local(_, local) => if local.Revoke? then [] else [local]
      case CloseAndPublish(_, session, generation) => [Revoke(RelayBinding(DeviceControl, session, generation))]
      case Handle(_) =>
        if c.inbox[w] == [] || !Decode(c.inbox[w][0]).Revocation? then [] else [Revoke(Decode(c.inbox[w][0]).key)]
      case Lose(_) => []
  }

  ghost function OwnRun(c: Cluster, steps: seq<ClusterStep>, w: nat): seq<Step>
    requires ClusterInv(c)
    decreases |steps|
  {
    if steps == [] then []
    else
      ClusterStepKeepsInv(c, steps[0]);
      OwnSteps(c, steps[0], w) + OwnRun(ApplyCluster(c, steps[0]), steps[1..], w)
  }

  lemma StepIsOwnSteps(c: Cluster, step: ClusterStep, w: nat)
    requires ClusterInv(c) && w < |c.workers|
    ensures |ApplyCluster(c, step).workers| == |c.workers|
    ensures ApplyCluster(c, step).workers[w] == RelayHub.Run(c.workers[w], OwnSteps(c, step, w))
  {
    var own := OwnSteps(c, step, w);
    assert own == [] || own == [own[0]];
    if own != [] {
      Departures.RunOne(c.workers[w], own[0]);
    }
  }

  /** In every run of the cluster each worker's hub runs exactly its own steps: its local ones, its own
      closings, and a closing for each revocation that it handles. */
  lemma {:induction false} WorkersRunOwnSteps(c: Cluster, steps: seq<ClusterStep>, w: nat)
    requires ClusterInv(c) && w < |c.workers|
    ensures Run(c, steps).workers[w] == RelayHub.Run(c.workers[w], OwnRun(c, steps, w))
    decreases |steps|
  {
    if steps != [] {
      var c' := ApplyCluster(c, steps[0]);
      ClusterStepKeepsInv(c, steps[0]);
      StepIsOwnSteps(c, steps[0], w);
      WorkersRunOwnSteps(c', steps[1..], w);
      Departures.RunConcat(c.workers[w], OwnSteps(c, steps[0], w), OwnRun(c', steps[1..], w));
    }
  }

  // ---------- Termination and convergence

  /** Undelivered (message, worker) pairs. */
  function Undelivered(inbox: seq<seq<BusMessage>>): nat {
    if inbox == [] then 0 else |inbox[0]| + Undelivered(inbox[1..])
  }

  lemma {:induction false} UndeliveredUpdate(inbox: seq<seq<BusMessage>>, w: nat)
    requires w < |inbox| && inbox[w] != []
    ensures Undelivered(inbox) == Undelivered(inbox[w := inbox[w][1..]]) + 1
  {
    var inbox' := inbox[w := inbox[w][1..]];
    if w > 0 {
      UndeliveredUpdate(inbox[1..], w - 1);
      assert inbox'[1..] == inbox[1..][w - 1 := inbox[w][1..]];
    } else {
      assert inbox'[1..] == inbox[1..];
    }
  }

  function HandleCount(steps: seq<ClusterStep>): nat {
    if steps == [] then 0 else (if steps[0].Handle? then 1 else 0) + HandleCount(steps[1..])
  }

  /** How many messages the run loses. */
  ghost function LossCount(c: Cluster, steps: seq<ClusterStep>): nat
    requires ClusterInv(c)
    decreases |steps|
  {
    if steps == [] then 0
    else
      ClusterStepKeepsInv(c, steps[0]);
      (if steps[0].Lose? && steps[0].w < |c.workers| && c.inbox[steps[0].w] != [] then 1 else 0)
      + LossCount(ApplyCluster(c, steps[0]), steps[1..])
  }

  /** Every Handle step of the run finds a message. */
  ghost predicate EveryHandleFindsMail(c: Cluster, steps: seq<ClusterStep>)
    requires ClusterInv(c)
    decreases |steps|
  {
    steps == [] ||
    (&& (steps[0].Handle? ==> steps[0].w < |c.workers| && c.inbox[steps[0].w] != [])
     && (ClusterStepKeepsInv(c, steps[0]); EveryHandleFindsMail(ApplyCluster(c, steps[0]), steps[1..])))
  }

  /** Remote handling terminates: without new local closings, however a run interleaves, each message
      that was undelivered is handled once, lost once, or still undelivered. */
  lemma {:induction false} HandlingTerminates(c: Cluster, steps: seq<ClusterStep>)
    requires ClusterInv(c) && EveryHandleFindsMail(c, steps)
    requires forall s | s in steps :: !s.CloseAndPublish?
    ensures HandleCount(steps) + LossCount(c, steps) + Undelivered(Run(c, steps).inbox) == Undelivered(c.inbox)
    decreases |steps|
  {
    if steps != [] {
      var step := steps[0];
      ClusterStepKeepsInv(c, step);
      assert step in steps;
      assert forall s | s in steps[1..] :: s in steps;
      if step.w < |c.workers| && (step.Handle? || step.Lose?) && c.inbox[step.w] != [] {
        UndeliveredUpdate(c.inbox, step.w);
      }
      HandlingTerminates(ApplyCluster(c, step), steps[1..]);
    }
  }

  function HandlesOf(steps: seq<ClusterStep>, w: nat): nat {
    if steps == [] then 0 else (if steps[0] == Handle(w) then 1 else 0) + HandlesOf(steps[1..], w)
  }

  lemma RevokedUpToStays(c: Cluster, step: ClusterStep, w: nat, key: RelayBinding, n: nat)
    requires ClusterInv(c) && w < |c.workers| && n <= |c.workers[w].phase|
    requires RevokedUpTo(c.workers[w], key, n)
    ensures ClusterInv(ApplyCluster(c, step)) && n <= |ApplyCluster(c, step).workers[w].phase|
    ensures RevokedUpTo(ApplyCluster(c, step).workers[w], key, n)
  {
    ClusterStepKeepsInv(c, step);
    if step.w == w {
      match step
      case Local(_, local) => RevokedStays(c.workers[w], local, key, n);
      case CloseAndPublish(_, session, generation) =>
        RevokedStays(c.workers[w], Revoke(RelayBinding(DeviceControl, session, generation)), key, n);
      case Handle(_) =>
        if c.inbox[w] != [] && Decode(c.inbox[w][0]).Revocation? {
          RevokedStays(c.workers[w], Revoke(Decode(c.inbox[w][0]).key), key, n);
        }
      case Lose(_) =>
    }
  }

  lemma {:induction false} RevokedForever(c: Cluster, steps: seq<ClusterStep>, w: nat, key: RelayBinding, n: nat)
    requires ClusterInv(c) && w < |c.workers| && n <= |c.workers[w].phase|
    requires RevokedUpTo(c.workers[w], key, n)
    ensures n <= |Run(c, steps).workers[w].phase| && RevokedUpTo(Run(c, steps).workers[w], key, n)
    decreases |steps|
  {
    if steps != [] {
      RevokedUpToStays(c, steps[0], w, key, n);
      RevokedForever(ApplyCluster(c, steps[0]), steps[1..], w, key, n);
    }
  }

  /** Unless it is handled or lost, a queued message moves at most one place forward. */
  lemma QueueMoves(c: Cluster, step: ClusterStep, w: nat, p: nat)
    requires ClusterInv(c) && w < |c.workers| && p < |c.inbox[w]|
    requires step != Lose(w) && (step == Handle(w) ==> p > 0)
    ensures var c', p' := ApplyCluster(c, step), if step == Handle(w) then p - 1 else p;
      |c'.inbox| == |c.inbox| && p' < |c'.inbox[w]| && c'.inbox[w][p'] == c.inbox[w][p]
  {
  }

  lemma PhasesGrow(c: Cluster, step: ClusterStep, w: nat)
    requires ClusterInv(c) && w < |c.workers|
    ensures |ApplyCluster(c, step).workers| == |c.workers|
    ensures |c.workers[w].phase| <= |ApplyCluster(c, step).workers[w].phase|
  {
  }

  lemma RevocationApplied(c: Cluster, w: nat, key: RelayBinding)
    requires ClusterInv(c) && w < |c.workers| && c.inbox[w] != [] && Decode(c.inbox[w][0]) == Revocation(key)
    ensures |ApplyCluster(c, Handle(w)).workers| == |c.workers|
    ensures ApplyCluster(c, Handle(w)).workers[w] == Apply(c.workers[w], Revoke(key))
  {
  }

  /** Handling a revocation takes effect on every endpoint so far. */
  lemma HandledTakesEffect(c: Cluster, w: nat, key: RelayBinding)
    requires ClusterInv(c) && w < |c.workers| && c.inbox[w] != [] && Decode(c.inbox[w][0]) == Revocation(key)
    ensures ClusterInv(ApplyCluster(c, Handle(w)))
    ensures |ApplyCluster(c, Handle(w)).workers[w].phase| == |c.workers[w].phase|
    ensures RevokedUpTo(ApplyCluster(c, Handle(w)).workers[w], key, |c.workers[w].phase|)
  {
    ClusterStepKeepsInv(c, Handle(w));
    RevocationApplied(c, w, key);
    RevokeTakesEffect(c.workers[w], key);
  }

  /** Convergence: a revocation waiting at position p of a worker's queue, handled in a run that
      loses none of that worker's messages, leaves every endpoint that was registered there on
      the binding out of the table and waiting for nobody, whatever else the cluster did. */
  lemma {:induction false} RevocationConverges(
      c: Cluster, steps: seq<ClusterStep>, w: nat, p: nat, session: Uuid, generation: int, n: nat)
    requires ClusterInv(c) && w < |c.workers| && p < |c.inbox[w]| && n <= |c.workers[w].phase|
    requires generation >= 1 && c.inbox[w][p] == Encode(session, generation)
    requires Lose(w) !in steps && HandlesOf(steps, w) > p
    ensures n <= |Run(c, steps).workers[w].phase|
    ensures RevokedUpTo(Run(c, steps).workers[w], RelayBinding(DeviceControl, session, generation), n)
    decreases |steps|
  {
    var step, key := steps[0], RelayBinding(DeviceControl, session, generation);
    var c' := ApplyCluster(c, step);
    if step == Handle(w) && p == 0 {
      PublishedIsUnderstood(session, generation);
      HandledTakesEffect(c, w, key);
      RevokedForever(c', steps[1..], w, key, n);
    } else {
      ClusterStepKeepsInv(c, step);
      QueueMoves(c, step, w, p);
      PhasesGrow(c, step, w);
      RevocationConverges(c', steps[1..], w, if step == Handle(w) then p - 1 else p, session, generation, n);
    }
  }

  /** A local closing takes effect at once where it is called and reaches every worker's queue. */
  lemma ClosingReachesEveryWorker(c: Cluster, w: nat, session: Uuid, generation: int)
    requires ClusterInv(c) && w < |c.workers|
    ensures var c' := ApplyCluster(c, CloseAndPublish(w, session, generation));
      var key := RelayBinding(DeviceControl, session, generation);
      && RevokedUpTo(c'.workers[w], key, |c.workers[w].phase|)
      && forall v | 0 <= v < |c.workers| ::
           c'.inbox[v] != [] && c'.inbox[v][|c'.inbox[v]| - 1] == Encode(session, generation)
  {
    RevokeTakesEffect(c.workers[w], RelayBinding(DeviceControl, session, generation));
  }
}

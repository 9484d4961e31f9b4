/**
 The one-shot key exchange of the device relay: the Redis script and the in-memory
 store, a common step function both are proved against, and a reference that says
 what every reply is in terms of the earlier calls alone.
 */
module RelayExchange {
  import opened Wrappers
  import opened RelayIdentity

  /** Which candidate becomes the shared context: the in-memory store keeps the first
      registrant's, the Redis script the first completer's. */
  datatype Policy = FirstRegistrant | FirstCompleter

  type Ttl = t: int | t >= 1 witness 1

  datatype Call = Call(binding: DeviceRelayBinding, role: Role, spki: string, candidate: string, ttl: Ttl, now: int) {
    function Key(): RelayBinding { binding.Relay() }
    function Deadline(): int { now + ttl }
  }

  datatype Reply = Mismatch | Waiting | AlreadyIssued | Ready(peerSpki: string, context: string)

  datatype Record = Record(pins: map<Role, string>, issued: set<Role>, secret: Option<string>)

  const EMPTY := Record(map[], {}, None)

  /** One call on a live record, or on EMPTY when there is none. */
  function Exchange(policy: Policy, rec: Record, c: Call): (Record, Reply) {
    if c.role in rec.pins && rec.pins[c.role] != c.spki then (rec, Mismatch)
    else
      var pins := rec.pins[c.role := c.spki];
      var early := if policy.FirstRegistrant? && rec.secret.None? then Some(c.candidate) else rec.secret;
      if c.role.Peer() !in pins then (Record(pins, rec.issued, early), Waiting)
      else if c.role in rec.issued then (Record(pins, rec.issued, early), AlreadyIssued)
      else
        var secret := if early.None? then c.candidate else early.value;
        (Record(pins, rec.issued + {c.role}, Some(secret)), Ready(pins[c.role.Peer()], secret))
  }

  // ---------- Reference: replies as a function of the calls made on one record

  /** Index of the first call by role r; |h| when there is none. */
  function First(h: seq<Call>, r: Role): (k: nat)
    ensures k <= |h|
    ensures forall i | 0 <= i < k :: h[i].role != r
    ensures k < |h| ==> h[k].role == r
  {
    if h == [] then 0
    else
      var k := First(h[..|h| - 1], r);
      if k < |h| - 1 || h[k].role == r then k else |h|
  }

  /** The key presented by the first call of role r. */
  function FirstPin(h: seq<Call>, r: Role): Option<string> {
    var k := First(h, r);
    if k < |h| then Some(h[k].spki) else None
  }

  /** Call c repeats its role's first key and the other role has already called. */
  predicate Completes(p: seq<Call>, c: Call) {
    && FirstPin(p, c.role) in {None, Some(c.spki)}
    && FirstPin(p, c.role.Peer()).Some?
  }

  ghost predicate RoleCompleted(h: seq<Call>, r: Role) {
    exists i | 0 <= i < |h| :: h[i].role == r && Completes(h[..i], h[i])
  }

  /** Index of the first completing call from position i on; |h| when there is none. */
  function CompletionFrom(h: seq<Call>, i: nat): (k: nat)
    requires i <= |h|
    ensures i <= k <= |h|
    ensures forall m | i <= m < k :: !Completes(h[..m], h[m])
    ensures k < |h| ==> Completes(h[..k], h[k])
    decreases |h| - i
  {
    if i == |h| || Completes(h[..i], h[i]) then i else CompletionFrom(h, i + 1)
  }

  function FirstCompletion(h: seq<Call>): (k: nat) {
    CompletionFrom(h, 0)
  }

  /** The candidate the policy settles on; None while nothing is settled. */
  function ChosenContext(policy: Policy, h: seq<Call>): Option<string> {
    var k := if policy.FirstRegistrant? then 0 else FirstCompletion(h);
    if k < |h| then Some(h[k].candidate) else None
  }

  /** What call c has to be answered after the calls p on the same live record. */
  ghost function ExpectedReply(policy: Policy, p: seq<Call>, c: Call): Reply {
    if FirstPin(p, c.role) !in {None, Some(c.spki)} then Mismatch
    else
      match FirstPin(p, c.role.Peer())
      case None => Waiting
      case Some(pin) =>
        if RoleCompleted(p, c.role) then AlreadyIssued
        else
          ChosenContextSnoc(policy, p, c);
          Ready(pin, ChosenContext(policy, p + [c]).value)
  }

  function RecordAfter(policy: Policy, h: seq<Call>): Record {
    if h == [] then EMPTY
    else Exchange(policy, RecordAfter(policy, h[..|h| - 1]), h[|h| - 1]).0
  }

  ghost predicate RecordMatches(policy: Policy, h: seq<Call>, rec: Record) {
    && (forall r :: FirstPin(h, r) == PinOf(rec.pins, r))
    && (forall r :: r in rec.issued <==> RoleCompleted(h, r))
    && rec.secret == ChosenContext(policy, h)
  }

  lemma RoleCompletedSnoc(p: seq<Call>, c: Call, r: Role)
    ensures RoleCompleted(p + [c], r) <==> RoleCompleted(p, r) || (c.role == r && Completes(p, c))
  {
    var h := p + [c];
    assert forall i | 0 <= i < |p| :: h[..i] == p[..i] && h[i] == p[i];
    assert h[..|p|] == p && h[|p|] == c;
    if RoleCompleted(p, r) {
      var i :| 0 <= i < |p| && p[i].role == r && Completes(p[..i], p[i]);
      assert h[i].role == r && Completes(h[..i], h[i]);
    }
    if c.role == r && Completes(p, c) {
      assert h[|p|].role == r && Completes(h[..|p|], h[|p|]);
    }
  }

  lemma FirstPinSnoc(p: seq<Call>, c: Call, r: Role)
    ensures FirstPin(p + [c], r) ==
      if FirstPin(p, r).Some? then FirstPin(p, r) else if c.role == r then Some(c.spki) else None
  {
    assert (p + [c])[..|p|] == p;
  }

  lemma FirstCompletionSnoc(p: seq<Call>, c: Call)
    ensures FirstCompletion(p + [c]) ==
      if FirstCompletion(p) < |p| then FirstCompletion(p) else if Completes(p, c) then |p| else |p| + 1
  {
    var h := p + [c];
    assert forall i | 0 <= i < |p| :: h[..i] == p[..i] && h[i] == p[i];
    assert h[..|p|] == p && h[|p|] == c;
    var k := FirstCompletion(h);
    if k < |p| {
      assert Completes(p[..k], p[k]);
    }
  }

  lemma ChosenContextSnoc(policy: Policy, p: seq<Call>, c: Call)
    ensures ChosenContext(policy, p + [c]) ==
      if ChosenContext(policy, p).Some? then ChosenContext(policy, p)
      else if policy.FirstRegistrant? || Completes(p, c) then Some(c.candidate) else None
  {
    FirstCompletionSnoc(p, c);
  }

  lemma NoCompletionYet(p: seq<Call>)
    ensures FirstCompletion(p) == |p| <==> !RoleCompleted(p, Device) && !RoleCompleted(p, Proxy)
  {
    var k := FirstCompletion(p);
    if k < |p| {
      assert RoleCompleted(p, p[k].role);
    }
  }

  function PinOf(pins: map<Role, string>, r: Role): Option<string> {
    if r in pins then Some(pins[r]) else None
  }

  lemma PinAfter(policy: Policy, rec: Record, c: Call, r: Role)
    ensures PinOf(Exchange(policy, rec, c).0.pins, r) ==
      if r in rec.pins || r != c.role then PinOf(rec.pins, r) else Some(c.spki)
  {
  }

  lemma PinsSnoc(policy: Policy, p: seq<Call>, c: Call, rec: Record, r: Role)
    requires FirstPin(p, r) == PinOf(rec.pins, r)
    ensures FirstPin(p + [c], r) == PinOf(Exchange(policy, rec, c).0.pins, r)
  {
    FirstPinSnoc(p, c, r);
    PinAfter(policy, rec, c, r);
  }

  lemma CompletesMeans(policy: Policy, p: seq<Call>, c: Call, rec: Record)
    requires RecordMatches(policy, p, rec)
    ensures Completes(p, c) <==>
      PinOf(rec.pins, c.role) in {None, Some(c.spki)} && PinOf(rec.pins, c.role.Peer()).Some?
  {
    assert FirstPin(p, c.role) == PinOf(rec.pins, c.role);
    assert FirstPin(p, c.role.Peer()) == PinOf(rec.pins, c.role.Peer());
  }

  lemma IssuedSnoc(policy: Policy, p: seq<Call>, c: Call, rec: Record, r: Role)
    requires RecordMatches(policy, p, rec)
    ensures r in Exchange(policy, rec, c).0.issued <==> RoleCompleted(p + [c], r)
  {
    RoleCompletedSnoc(p, c, r);
    CompletesMeans(policy, p, c, rec);
  }

  lemma SettledMeans(p: seq<Call>)
    ensures ChosenContext(FirstCompleter, p).Some? <==> RoleCompleted(p, Device) || RoleCompleted(p, Proxy)
  {
    NoCompletionYet(p);
  }

  lemma SecretSnoc(policy: Policy, p: seq<Call>, c: Call, rec: Record)
    requires RecordMatches(policy, p, rec)
    ensures Exchange(policy, rec, c).0.secret == ChosenContext(policy, p + [c])
  {
    ChosenContextSnoc(policy, p, c);
    CompletesMeans(policy, p, c, rec);
    SettledMeans(p);
    assert c.role in rec.issued <==> RoleCompleted(p, c.role);
    if policy.FirstRegistrant? {
      EarlySecret(p, c, rec);
    }
  }

  lemma EarlySecret(p: seq<Call>, c: Call, rec: Record)
    requires RecordMatches(FirstRegistrant, p, rec)
    ensures rec.secret.None? ==> p == [] && forall r :: r !in rec.pins
  {
    forall r | p == [] ensures r !in rec.pins {
      assert FirstPin(p, r) == PinOf(rec.pins, r);
    }
  }

  lemma {:induction false} RecordCorrect(policy: Policy, h: seq<Call>)
    ensures RecordMatches(policy, h, RecordAfter(policy, h))
  {
    if h != [] {
      var p, c := h[..|h| - 1], h[|h| - 1];
      RecordCorrect(policy, p);
      assert h == p + [c];
      var before := RecordAfter(policy, p);
      var after := Exchange(policy, before, c).0;
      forall r
        ensures FirstPin(h, r) == PinOf(after.pins, r)
        ensures r in after.issued <==> RoleCompleted(h, r)
      {
        PinsSnoc(policy, p, c, before, r);
        IssuedSnoc(policy, p, c, before, r);
      }
      SecretSnoc(policy, p, c, before);
    }
  }

  /** Every reply on a record is the one the reference predicts from the earlier calls. */
  lemma ReplyExact(policy: Policy, p: seq<Call>, c: Call)
    ensures Exchange(policy, RecordAfter(policy, p), c).1 == ExpectedReply(policy, p, c)
  {
    var rec := RecordAfter(policy, p);
    RecordCorrect(policy, p);
    ChosenContextSnoc(policy, p, c);
    CompletesMeans(policy, p, c, rec);
    assert c.role in rec.issued <==> RoleCompleted(p, c.role);
    SettledMeans(p);
    assert FirstPin(p, c.role) == PinOf(rec.pins, c.role);
    assert FirstPin(p, c.role.Peer()) == PinOf(rec.pins, c.role.Peer());
  }

  // ---------- Agreement between the two roles of one record

  function ReplyOn(policy: Policy, h: seq<Call>, i: nat): Reply
    requires i < |h|
  {
    Exchange(policy, RecordAfter(policy, h[..i]), h[i]).1
  }

  lemma {:induction false} FirstPinStable(p: seq<Call>, q: seq<Call>, r: Role)
    requires p <= q && FirstPin(p, r).Some?
    ensures FirstPin(q, r) == FirstPin(p, r)
  {
    if |p| < |q| {
      var front, c := q[..|q| - 1], q[|q| - 1];
      FirstPinStable(p, front, r);
      FirstPinSnoc(front, c, r);
      assert q == front + [c];
    }
  }

  lemma {:induction false} ChosenContextStable(policy: Policy, p: seq<Call>, q: seq<Call>)
    requires p <= q && ChosenContext(policy, p).Some?
    ensures ChosenContext(policy, q) == ChosenContext(policy, p)
  {
    if p != q {
      var front, c := q[..|q| - 1], q[|q| - 1];
      assert p <= front && q == front + [c];
      ChosenContextStable(policy, p, front);
      ChosenContextSnoc(policy, front, c);
    }
  }

  /** A completing call counts for every longer history. */
  lemma CompletionLasts(p: seq<Call>, c: Call, q: seq<Call>)
    requires p + [c] <= q && Completes(p, c)
    ensures RoleCompleted(q, c.role)
  {
    var i := |p|;
    assert q[..i] == p && q[i] == c;
  }

  lemma Prefixes(h: seq<Call>, i: nat, j: nat)
    requires i < j <= |h|
    ensures h[..i] + [h[i]] <= h[..j] && h[..i] <= h[..j]
  {
  }

  /** An accepted call fixes its role's key for every extension of the history. */
  lemma AcceptedFixesPin(policy: Policy, p: seq<Call>, c: Call, q: seq<Call>)
    requires p + [c] <= q && !Exchange(policy, RecordAfter(policy, p), c).1.Mismatch?
    ensures FirstPin(q, c.role) == Some(c.spki)
  {
    ReplyExact(policy, p, c);
    FirstPinSnoc(p, c, c.role);
    FirstPinStable(p + [c], q, c.role);
  }

  /** What a ready reply to call c after the calls p means for p and for every later history. */
  lemma ReadyMeans(policy: Policy, p: seq<Call>, c: Call, q: seq<Call>)
    requires p + [c] <= q && Exchange(policy, RecordAfter(policy, p), c).1.Ready?
    ensures var ready := Exchange(policy, RecordAfter(policy, p), c).1;
      && !RoleCompleted(p, c.role) && RoleCompleted(q, c.role)
      && FirstPin(q, c.role) == Some(c.spki)
      && FirstPin(q, c.role.Peer()) == Some(ready.peerSpki)
      && ChosenContext(policy, q) == Some(ready.context)
  {
    ReplyExact(policy, p, c);
    ChosenContextSnoc(policy, p, c);
    ChosenContextStable(policy, p + [c], q);
    CompletionLasts(p, c, q);
    AcceptedFixesPin(policy, p, c, q);
    FirstPinStable(p, q, c.role.Peer());
  }

  /** Two ready replies on one record go to different roles, carry one context, and
      each carries the key that the other call presented. */
  lemma RecordAgreement(policy: Policy, h: seq<Call>, i: nat, j: nat)
    requires i < j < |h|
    requires ReplyOn(policy, h, i).Ready? && ReplyOn(policy, h, j).Ready?
    ensures h[i].role != h[j].role
    ensures ReplyOn(policy, h, i).context == ReplyOn(policy, h, j).context
    ensures ReplyOn(policy, h, i).peerSpki == h[j].spki
    ensures ReplyOn(policy, h, j).peerSpki == h[i].spki
  {
    Prefixes(h, i, j);
    Prefixes(h, i, |h|);
    Prefixes(h, j, |h|);
    assert h[..|h|] == h;
    ReadyMeans(policy, h[..i], h[i], h[..j]);
    ReadyMeans(policy, h[..i], h[i], h);
    ReadyMeans(policy, h[..j], h[j], h);
  }

  /** After an accepted call of a role, a call of that role is a mismatch exactly when it presents
      another key. */
  lemma RecordPins(policy: Policy, h: seq<Call>, i: nat, j: nat)
    requires i < j < |h| && h[i].role == h[j].role && !ReplyOn(policy, h, i).Mismatch?
    ensures ReplyOn(policy, h, j).Mismatch? <==> h[j].spki != h[i].spki
  {
    Prefixes(h, i, j);
    AcceptedFixesPin(policy, h[..i], h[i], h[..j]);
    ReplyExact(policy, h[..j], h[j]);
  }

  // ---------- Whole stores over many keys, with expiry

  datatype Entry = Entry(record: Record, deadline: int)

  type Store = map<RelayBinding, Entry>

  /** The record of the call's key exists and has not expired at the call's instant. */
  predicate Live(store: Store, c: Call) {
    c.Key() in store && c.now < store[c.Key()].deadline
  }

  /** Redis renews the deadline on every accepted call; in memory it is fixed at creation. */
  function StoreStep(policy: Policy, store: Store, c: Call): (Store, Reply) {
    var rec := if Live(store, c) then store[c.Key()].record else EMPTY;
    var (rec', reply) := Exchange(policy, rec, c);
    var deadline := if policy.FirstRegistrant? && Live(store, c) then store[c.Key()].deadline else c.Deadline();
    (if reply.Mismatch? then store else store[c.Key() := Entry(rec', deadline)], reply)
  }

  function After(policy: Policy, calls: seq<Call>): Store {
    if calls == [] then map[]
    else StoreStep(policy, After(policy, calls[..|calls| - 1]), calls[|calls| - 1]).0
  }

  function ReplyAt(policy: Policy, calls: seq<Call>, i: nat): Reply
    requires i < |calls|
  {
    StoreStep(policy, After(policy, calls[..i]), calls[i]).1
  }

  predicate LiveAt(policy: Policy, calls: seq<Call>, i: nat)
    requires i < |calls|
  {
    Live(After(policy, calls[..i]), calls[i])
  }

  /** The calls on a key since its current record was created. */
  function History(policy: Policy, calls: seq<Call>, key: RelayBinding): seq<Call> {
    if calls == [] then []
    else
      var front, c := calls[..|calls| - 1], calls[|calls| - 1];
      Extend(After(policy, front), History(policy, front, key), c, key)
  }

  /** The calls that call i extends, with itself. */
  function HistoryAt(policy: Policy, calls: seq<Call>, i: nat): seq<Call>
    requires i < |calls|
  {
    History(policy, calls[..i + 1], calls[i].Key())
  }

  function Extend(store: Store, h: seq<Call>, c: Call, key: RelayBinding): seq<Call> {
    if c.Key() != key then h
    else if Live(store, c) then h + [c]
    else [c]
  }

  /** The store's entry of the key is the record that the calls h produce. */
  ghost predicate Holds(policy: Policy, store: Store, h: seq<Call>, key: RelayBinding) {
    && (key in store <==> h != [])
    && (key in store ==> store[key].record == RecordAfter(policy, h))
  }

  lemma RecordAfterSnoc(policy: Policy, h: seq<Call>, c: Call)
    ensures RecordAfter(policy, h + [c]) == Exchange(policy, RecordAfter(policy, h), c).0
  {
    assert (h + [c])[..|h|] == h;
  }

  lemma RecordAfterFirst(policy: Policy, c: Call)
    ensures RecordAfter(policy, [c]) == Exchange(policy, EMPTY, c).0 && !Exchange(policy, EMPTY, c).1.Mismatch?
  {
    RecordAfterSnoc(policy, [], c);
    assert [] + [c] == [c];
  }

  lemma MismatchKeepsRecord(policy: Policy, rec: Record, c: Call)
    ensures Exchange(policy, rec, c).1.Mismatch? ==> Exchange(policy, rec, c).0 == rec
  {
  }

  lemma StepHolds(policy: Policy, store: Store, h: seq<Call>, c: Call, key: RelayBinding)
    requires Holds(policy, store, h, key)
    ensures Holds(policy, StoreStep(policy, store, c).0, Extend(store, h, c, key), key)
  {
    RecordAfterSnoc(policy, h, c);
    RecordAfterFirst(policy, c);
    MismatchKeepsRecord(policy, RecordAfter(policy, h), c);
  }

  lemma {:induction false} StoreHoldsHistory(policy: Policy, calls: seq<Call>, key: RelayBinding)
    ensures Holds(policy, After(policy, calls), History(policy, calls, key), key)
  {
    if calls != [] {
      var front, c := calls[..|calls| - 1], calls[|calls| - 1];
      StoreHoldsHistory(policy, front, key);
      StepHolds(policy, After(policy, front), History(policy, front, key), c, key);
    }
  }

  lemma HistorySnoc(policy: Policy, calls: seq<Call>, i: nat, key: RelayBinding)
    requires i < |calls|
    ensures History(policy, calls[..i + 1], key) ==
      Extend(After(policy, calls[..i]), History(policy, calls[..i], key), calls[i], key)
  {
    assert calls[..i + 1][..i] == calls[..i];
  }

  lemma ReplyFromStore(policy: Policy, store: Store, h: seq<Call>, c: Call)
    requires Holds(policy, store, h, c.Key())
    ensures StoreStep(policy, store, c).1 ==
      Exchange(policy, if Live(store, c) then RecordAfter(policy, h) else EMPTY, c).1
  {
  }

  /** A store's reply is the record-level reply on the history that the call extends. */
  lemma ReplyFromHistory(policy: Policy, calls: seq<Call>, i: nat)
    requires i < |calls|
    ensures var h := HistoryAt(policy, calls, i);
      |h| > 0 && h[|h| - 1] == calls[i] && ReplyAt(policy, calls, i) == ReplyOn(policy, h, |h| - 1)
  {
    var key := calls[i].Key();
    StoreHoldsHistory(policy, calls[..i], key);
    HistorySnoc(policy, calls, i, key);
    ReplyFromStore(policy, After(policy, calls[..i]), History(policy, calls[..i], key), calls[i]);
    var h := History(policy, calls[..i + 1], key);
    assert h[..|h| - 1] == if LiveAt(policy, calls, i) then History(policy, calls[..i], key) else [];
  }

  /** No call on the key in positions i+1..j finds its record missing or expired. */
  ghost predicate Survives(policy: Policy, calls: seq<Call>, key: RelayBinding, i: nat, j: nat)
    requires i <= j < |calls|
  {
    forall m | i < m <= j && calls[m].Key() == key :: LiveAt(policy, calls, m)
  }

  lemma {:induction false} HistoryGrows(policy: Policy, calls: seq<Call>, key: RelayBinding, i: nat, j: nat)
    requires i <= j < |calls| && Survives(policy, calls, key, i, j)
    ensures History(policy, calls[..i + 1], key) <= History(policy, calls[..j + 1], key)
    decreases j
  {
    if i < j {
      HistoryGrows(policy, calls, key, i, j - 1);
      HistorySnoc(policy, calls, j, key);
    }
  }

  lemma {:induction false} HistoryFromCalls(policy: Policy, calls: seq<Call>, key: RelayBinding, c: Call)
    requires c in History(policy, calls, key)
    ensures c.Key() == key && c in calls
  {
    var front := calls[..|calls| - 1];
    if c != calls[|calls| - 1] || c.Key() != key {
      HistoryFromCalls(policy, front, key, c);
    }
  }

  lemma HistoryExtends(policy: Policy, calls: seq<Call>, key: RelayBinding, i: nat, j: nat)
    requires i < j < |calls| && calls[j].Key() == key && Survives(policy, calls, key, i, j)
    ensures History(policy, calls[..i + 1], key) < History(policy, calls[..j + 1], key)
  {
    HistoryGrows(policy, calls, key, i, j - 1);
    HistorySnoc(policy, calls, j, key);
    assert LiveAt(policy, calls, j);
  }

  lemma ReplyOnPrefix(policy: Policy, p: seq<Call>, h: seq<Call>, a: nat)
    requires p <= h && a < |p|
    ensures p[a] == h[a] && ReplyOn(policy, p, a) == ReplyOn(policy, h, a)
  {
    assert p[..a] == h[..a];
  }

  /** Two calls of one lifetime are two positions of one record's history. */
  lemma HistoriesNest(policy: Policy, calls: seq<Call>, i: nat, j: nat)
    requires i < j < |calls| && calls[i].Key() == calls[j].Key()
    requires Survives(policy, calls, calls[i].Key(), i, j)
    ensures HistoryAt(policy, calls, i) < HistoryAt(policy, calls, j)
  {
    HistoryExtends(policy, calls, calls[i].Key(), i, j);
  }

  lemma OneHistory(policy: Policy, calls: seq<Call>, i: nat, j: nat) returns (h: seq<Call>, a: nat)
    requires i < j < |calls| && calls[i].Key() == calls[j].Key()
    requires Survives(policy, calls, calls[i].Key(), i, j)
    ensures a < |h| - 1 && h[a] == calls[i] && h[|h| - 1] == calls[j]
    ensures ReplyOn(policy, h, a) == ReplyAt(policy, calls, i)
    ensures ReplyOn(policy, h, |h| - 1) == ReplyAt(policy, calls, j)
  {
    ReplyFromHistory(policy, calls, i);
    ReplyFromHistory(policy, calls, j);
    HistoriesNest(policy, calls, i, j);
    h := HistoryAt(policy, calls, j);
    var first := HistoryAt(policy, calls, i);
    a := |first| - 1;
    ReplyOnPrefix(policy, first, h, a);
  }

  /** One-shot agreement of a whole store over any calls on any keys: within one record's
      lifetime each role is ready at most once, both ready replies carry the same context,
      that context was offered on the key, and the two exchanged exactly their own keys. */
  lemma OneShotAgreement(policy: Policy, calls: seq<Call>, i: nat, j: nat)
    requires i < j < |calls| && calls[i].Key() == calls[j].Key()
    requires Survives(policy, calls, calls[i].Key(), i, j)
    requires ReplyAt(policy, calls, i).Ready? && ReplyAt(policy, calls, j).Ready?
    ensures calls[i].role != calls[j].role
    ensures ReplyAt(policy, calls, i).context == ReplyAt(policy, calls, j).context
    ensures ReplyAt(policy, calls, i).peerSpki == calls[j].spki
    ensures ReplyAt(policy, calls, j).peerSpki == calls[i].spki
  {
    var h, a := OneHistory(policy, calls, i, j);
    RecordAgreement(policy, h, a, |h| - 1);
  }

  lemma ContextWasOffered(policy: Policy, calls: seq<Call>, i: nat)
    requires i < |calls| && ReplyAt(policy, calls, i).Ready?
    ensures exists m | 0 <= m <= i ::
      calls[m].Key() == calls[i].Key() && calls[m].candidate == ReplyAt(policy, calls, i).context
  {
    var key := calls[i].Key();
    ReplyFromHistory(policy, calls, i);
    var h := History(policy, calls[..i + 1], key);
    var p, c := h[..|h| - 1], h[|h| - 1];
    ReplyExact(policy, p, c);
    ChosenContextSnoc(policy, p, c);
    assert p + [c] == h;
    var k := if policy.FirstRegistrant? then 0 else FirstCompletion(h);
    HistoryFromCalls(policy, calls[..i + 1], key, h[k]);
    var m :| 0 <= m <= i && calls[..i + 1][m] == h[k];
    assert calls[m] == h[k];
  }

  /** A role's key never changes within a lifetime: after an accepted call of a role, a call of
      that role is a mismatch exactly when it presents another key. */
  lemma PinsNeverChange(policy: Policy, calls: seq<Call>, i: nat, j: nat)
    requires i < j < |calls| && calls[i].Key() == calls[j].Key() && calls[i].role == calls[j].role
    requires Survives(policy, calls, calls[i].Key(), i, j)
    requires !ReplyAt(policy, calls, i).Mismatch?
    ensures ReplyAt(policy, calls, j).Mismatch? <==> calls[j].spki != calls[i].spki
  {
    var h, a := OneHistory(policy, calls, i, j);
    RecordPins(policy, h, a, |h| - 1);
  }
}

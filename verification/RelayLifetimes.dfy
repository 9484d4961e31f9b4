/**
 How long an exchange record lives, in terms of the instants and lifetimes of the calls themselves:
 in memory from its first call, in Redis from the last accepted one.
 */
module RelayLifetimes {
  import opened RelayIdentity
  import opened RelayExchange

  // ---------- In memory

  /** Call m created the record that the key has after the first n calls. */
  ghost predicate Created(calls: seq<Call>, key: RelayBinding, m: nat, n: nat)
    requires n <= |calls|
  {
    && m < n && calls[m].Key() == key && !LiveAt(FirstRegistrant, calls, m)
    && forall k | m < k < n && calls[k].Key() == key :: LiveAt(FirstRegistrant, calls, k)
  }

  lemma FreshCallWaits(policy: Policy, c: Call)
    ensures Exchange(policy, EMPTY, c).1 == Waiting
  {
  }

  /** What one call does to the deadline of its own key. */
  lemma DeadlineStep(policy: Policy, store: Store, c: Call)
    ensures var (store', reply) := StoreStep(policy, store, c);
      && (!Live(store, c) ==> c.Key() in store' && store'[c.Key()].deadline == c.now + c.ttl && reply == Waiting)
      && (Live(store, c) ==>
            && c.Key() in store'
            && store'[c.Key()].deadline ==
                 if policy.FirstCompleter? && !reply.Mismatch? then c.now + c.ttl else store[c.Key()].deadline)
      && (forall key | key != c.Key() ::
            (key in store' <==> key in store) && (key in store ==> store'[key] == store[key]))
  {
    FreshCallWaits(policy, c);
  }

  /** The call sets the deadline of the key if it is one on that key which creates the record or, in
      Redis, is accepted. */
  predicate SetsDeadline(policy: Policy, store: Store, c: Call, key: RelayBinding) {
    && c.Key() == key
    && if policy.FirstCompleter? then !StoreStep(policy, store, c).1.Mismatch? else !Live(store, c)
  }

  lemma DeadlineMoves(policy: Policy, before: Store, after: Store, c: Call, key: RelayBinding)
    requires after == StoreStep(policy, before, c).0 && key in after
    ensures if SetsDeadline(policy, before, c, key) then after[key].deadline == c.now + c.ttl
            else key in before && after[key].deadline == before[key].deadline
  {
    DeadlineStep(policy, before, c);
  }

  lemma AfterNext(policy: Policy, calls: seq<Call>, n: nat)
    requires n < |calls|
    ensures After(policy, calls[..n + 1]) == StoreStep(policy, After(policy, calls[..n]), calls[n]).0
  {
    assert calls[..n + 1][..n] == calls[..n];
  }

  lemma {:induction false} MemoryDeadline(calls: seq<Call>, key: RelayBinding, n: nat) returns (m: nat)
    requires n <= |calls| && key in After(FirstRegistrant, calls[..n])
    ensures Created(calls, key, m, n)
    ensures After(FirstRegistrant, calls[..n])[key].deadline == calls[m].now + calls[m].ttl
  {
    MemoryStep(calls, key, n);
    if calls[n - 1].Key() == key && !LiveAt(FirstRegistrant, calls, n - 1) {
      m := n - 1;
    } else {
      m := MemoryDeadline(calls, key, n - 1);
    }
  }

  /** A call that creates the key's record sets its deadline, and nothing else touches it. */
  lemma MemoryStep(calls: seq<Call>, key: RelayBinding, n: nat)
    requires 0 < n <= |calls| && key in After(FirstRegistrant, calls[..n])
    ensures var before, after := After(FirstRegistrant, calls[..n - 1]), After(FirstRegistrant, calls[..n]);
      if calls[n - 1].Key() == key && !LiveAt(FirstRegistrant, calls, n - 1)
      then after[key].deadline == calls[n - 1].now + calls[n - 1].ttl
      else key in before && after[key].deadline == before[key].deadline
  {
    AfterNext(FirstRegistrant, calls, n - 1);
    var before, after := After(FirstRegistrant, calls[..n - 1]), After(FirstRegistrant, calls[..n]);
    DeadlineMoves(FirstRegistrant, before, after, calls[n - 1], key);
  }

  lemma CreatedOnce(calls: seq<Call>, key: RelayBinding, m: nat, k: nat, n: nat)
    requires n <= |calls| && Created(calls, key, m, n) && Created(calls, key, k, n)
    ensures m == k
  {
  }

  lemma {:induction false} KeyStays(policy: Policy, calls: seq<Call>, m: nat, n: nat)
    requires m < n <= |calls|
    ensures calls[m].Key() in After(policy, calls[..n])
    decreases n
  {
    AfterNext(policy, calls, n - 1);
    DeadlineStep(policy, After(policy, calls[..n - 1]), calls[n - 1]);
    if m < n - 1 {
      KeyStays(policy, calls, m, n - 1);
    }
  }

  /** In memory a call finds its record alive exactly until the lifetime that the creating call asked
      for has passed since that call, whatever was called in between. */
  lemma MemoryLifetime(calls: seq<Call>, i: nat)
    requires i < |calls|
    ensures LiveAt(FirstRegistrant, calls, i) <==>
      exists m: nat :: Created(calls, calls[i].Key(), m, i) && calls[i].now < calls[m].now + calls[m].ttl
  {
    var key := calls[i].Key();
    if key in After(FirstRegistrant, calls[..i]) {
      var m := MemoryDeadline(calls, key, i);
      forall k: nat | Created(calls, key, k, i) ensures k == m {
        CreatedOnce(calls, key, m, k, i);
      }
    }
    if m: nat :| Created(calls, key, m, i) && calls[i].now < calls[m].now + calls[m].ttl {
      KeyStays(FirstRegistrant, calls, m, i);
    }
  }

  // ---------- In Redis

  /** Call m is the last one on the key among the first n that was not refused. */
  ghost predicate LastAccepted(calls: seq<Call>, key: RelayBinding, m: nat, n: nat)
    requires n <= |calls|
  {
    && m < n && calls[m].Key() == key && !ReplyAt(FirstCompleter, calls, m).Mismatch?
    && forall k | m < k < n && calls[k].Key() == key :: ReplyAt(FirstCompleter, calls, k).Mismatch?
  }

  lemma {:induction false} RedisDeadline(calls: seq<Call>, key: RelayBinding, n: nat) returns (m: nat)
    requires n <= |calls| && key in After(FirstCompleter, calls[..n])
    ensures LastAccepted(calls, key, m, n)
    ensures After(FirstCompleter, calls[..n])[key].deadline == calls[m].now + calls[m].ttl
  {
    RedisStep(calls, key, n);
    if calls[n - 1].Key() == key && !ReplyAt(FirstCompleter, calls, n - 1).Mismatch? {
      m := n - 1;
    } else {
      m := RedisDeadline(calls, key, n - 1);
    }
  }

  /** An accepted call on the key sets its deadline, and nothing else touches it. */
  lemma RedisStep(calls: seq<Call>, key: RelayBinding, n: nat)
    requires 0 < n <= |calls| && key in After(FirstCompleter, calls[..n])
    ensures var before, after := After(FirstCompleter, calls[..n - 1]), After(FirstCompleter, calls[..n]);
      if calls[n - 1].Key() == key && !ReplyAt(FirstCompleter, calls, n - 1).Mismatch?
      then after[key].deadline == calls[n - 1].now + calls[n - 1].ttl
      else key in before && after[key].deadline == before[key].deadline
  {
    AfterNext(FirstCompleter, calls, n - 1);
    var before, after := After(FirstCompleter, calls[..n - 1]), After(FirstCompleter, calls[..n]);
    DeadlineMoves(FirstCompleter, before, after, calls[n - 1], key);
  }

  lemma AcceptedOnce(calls: seq<Call>, key: RelayBinding, m: nat, k: nat, n: nat)
    requires n <= |calls| && LastAccepted(calls, key, m, n) && LastAccepted(calls, key, k, n)
    ensures m == k
  {
  }

  /** In Redis a call finds its record alive exactly until the lifetime that the last accepted call on
      the key asked for has passed since that call. */
  lemma RedisLifetime(calls: seq<Call>, i: nat)
    requires i < |calls|
    ensures LiveAt(FirstCompleter, calls, i) <==>
      exists m: nat :: LastAccepted(calls, calls[i].Key(), m, i) && calls[i].now < calls[m].now + calls[m].ttl
  {
    var key := calls[i].Key();
    if key in After(FirstCompleter, calls[..i]) {
      var m := RedisDeadline(calls, key, i);
      forall k: nat | LastAccepted(calls, key, k, i) ensures k == m {
        AcceptedOnce(calls, key, m, k, i);
      }
    }
    if m: nat :| LastAccepted(calls, key, m, i) && calls[i].now < calls[m].now + calls[m].ttl {
      KeyStays(FirstCompleter, calls, m, i);
    }
  }

  // ---------- After the lifetime

  /** A call that finds no live record starts over: it waits, whatever key it presents. */
  lemma LapsedWaits(policy: Policy, calls: seq<Call>, i: nat)
    requires i < |calls| && !LiveAt(policy, calls, i)
    ensures ReplyAt(policy, calls, i) == Waiting
  {
    DeadlineStep(policy, After(policy, calls[..i]), calls[i]);
  }

  /** Two calls by the two roles: the second one is ready exactly if it comes before the end of the
      lifetime that the first one asked for, under either policy. */
  lemma SecondCallInTime(policy: Policy, c: Call, d: Call)
    requires d.Key() == c.Key() && d.role != c.role
    ensures ReplyAt(policy, [c, d], 1).Ready? <==> d.now < c.now + c.ttl
    ensures ReplyAt(policy, [c, d], 1).Waiting? <==> d.now >= c.now + c.ttl
  {
    var calls := [c, d];
    AfterNext(policy, calls, 0);
    assert calls[..0] == [] && After(policy, []) == map[];
    DeadlineStep(policy, map[], c);
    if d.now < c.now + c.ttl {
      assert Exchange(policy, EMPTY, c).0.pins == map[c.role := c.spki] && Exchange(policy, EMPTY, c).0.issued == {};
    } else {
      LapsedWaits(policy, calls, 1);
    }
  }
}

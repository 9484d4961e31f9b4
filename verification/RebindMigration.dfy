/** The migration that lets a device replace its live binding, statement by statement. */
module RebindMigration {
  import opened Wrappers

  datatype Status = PendingDevice | PendingUserApproval | Active | Stopping | Stopped | Denied | Expired | Failed

  datatype Row = Row(
    deviceId: nat, toolSessionId: Option<nat>, toolReference: Option<nat>, status: Status,
    leaseUntil: Option<int>, lockAcquiredAt: Option<int>, stoppedAt: Option<int>, stopReason: Option<string>,
    createdAt: int)

  /** device_sessions by primary key. */
  type Table = map<nat, Row>

  predicate Live(r: Row) {
    r.status !in {Stopped, Denied, Expired, Failed}
  }

  /** ORDER BY created_at DESC, id DESC puts row j before row i. */
  predicate Before(t: Table, j: nat, i: nat)
    requires i in t && j in t
  {
    t[j].createdAt > t[i].createdAt || (t[j].createdAt == t[i].createdAt && j > i)
  }

  // ---------- ROW_NUMBER

  /** Rank of a row among the given rows, counted from one, as the window function numbers them. */
  function RowNumber(t: Table, group: set<nat>, i: nat): nat
    requires i in t && group <= t.Keys
  {
    1 + |set j | j in group && Before(t, j, i)|
  }

  /** The greatest row of a non-empty group in (created_at, id). */
  ghost predicate IsNewest(t: Table, group: set<nat>, i: nat)
    requires group <= t.Keys
  {
    i in group && forall j | j in group :: j == i || Before(t, i, j)
  }

  /** Exactly the newest row of a group has number one. */
  lemma RowNumberOne(t: Table, group: set<nat>, i: nat)
    requires group <= t.Keys && i in group
    ensures RowNumber(t, group, i) == 1 <==> IsNewest(t, group, i)
  {
    var ahead := set j | j in group && Before(t, j, i);
    if RowNumber(t, group, i) == 1 {
      assert ahead == {};
      assert forall j | j in group :: j !in ahead;
    } else {
      assert ahead != {};
      var j :| j in ahead;
    }
  }

  // ---------- Constraints

  ghost predicate ToolsUnique(t: Table) {
    forall i, j | i in t && j in t && i != j && t[i].toolSessionId.Some? :: t[i].toolSessionId != t[j].toolSessionId
  }

  ghost predicate LocksUnique(t: Table) {
    forall i, j | i in t && j in t && i != j && t[i].lockAcquiredAt.Some? && t[j].lockAcquiredAt.Some? ::
      t[i].deviceId != t[j].deviceId
  }

  /** Every row has its tool session, which no other row has; one machine lock per device. */
  ghost predicate Meets0014(t: Table) {
    && (forall i | i in t :: t[i].toolSessionId.Some?)
    && ToolsUnique(t) && LocksUnique(t)
  }

  ghost predicate LiveToolsUnique(t: Table) {
    forall i, j | i in t && j in t && i != j && Live(t[i]) && Live(t[j]) && t[i].toolSessionId.Some? ::
      t[i].toolSessionId != t[j].toolSessionId
  }

  ghost predicate LiveDevicesUnique(t: Table) {
    forall i, j | i in t && j in t && i != j && Live(t[i]) && Live(t[j]) :: t[i].deviceId != t[j].deviceId
  }

  ghost predicate Meets0016(t: Table) {
    && (forall i | i in t :: t[i].toolReference.Some?)
    && LiveToolsUnique(t) && LiveDevicesUnique(t) && LocksUnique(t)
  }

  // ---------- The migration

  function LiveGroup(t: Table, device: nat): (group: set<nat>)
    ensures group <= t.Keys
  {
    set i | i in t && Live(t[i]) && t[i].deviceId == device
  }

  function ToolGroup(t: Table, tool: Option<nat>): (group: set<nat>)
    ensures group <= t.Keys
  {
    set i | i in t && t[i].toolSessionId == tool
  }

  function Rebound(r: Row, now: int): Row {
    r.(status := Stopped, leaseUntil := None, lockAcquiredAt := None,
       stoppedAt := if r.stoppedAt.None? then Some(now) else r.stoppedAt, stopReason := Some("rebound"))
  }

  function Filled(r: Row): Row {
    if r.toolReference.None? then r.(toolReference := r.toolSessionId) else r
  }

  // ---------- What the statements amount to

  /** Every reference filled in, every live row but its device's newest one rebound. */
  ghost function Upgraded(t: Table, now: int): Table {
    map i | i in t ::
      if Live(t[i]) && !IsNewest(t, LiveGroup(t, t[i].deviceId), i) then Rebound(Filled(t[i]), now) else Filled(t[i])
  }

  /** The newest row of every tool session, without its reference. */
  ghost function Downgraded(t: Table): Table {
    map i | i in t && t[i].toolSessionId.Some? && IsNewest(t, ToolGroup(t, t[i].toolSessionId), i) ::
      t[i].(toolReference := None)
  }

  class DeviceSessions {
    var rows: Table

    /** The data statements of upgrade, in order: fill the reference column, then stop every live
        row whose number within its device is greater than one. */
    method Upgrade(now: int)
      modifies this
      ensures rows == Upgraded(old(rows), now)
    {
      ghost var before := rows;
      rows := map i | i in rows :: Filled(rows[i]);
      forall i | i in rows && Live(rows[i])
        ensures LiveGroup(rows, rows[i].deviceId) == LiveGroup(before, before[i].deviceId)
        ensures RowNumber(rows, LiveGroup(rows, rows[i].deviceId), i) > 1 <==>
          !IsNewest(before, LiveGroup(before, before[i].deviceId), i)
      {
        assert LiveGroup(rows, rows[i].deviceId) == LiveGroup(before, before[i].deviceId);
        RowNumberOne(rows, LiveGroup(rows, rows[i].deviceId), i);
      }
      rows := map i | i in rows ::
        if Live(rows[i]) && RowNumber(rows, LiveGroup(rows, rows[i].deviceId), i) > 1 then Rebound(rows[i], now)
        else rows[i];
    }

    /** The data statements of downgrade, in order: delete the rows without a tool session, delete
        every row whose number within its tool session is greater than one, drop the column. */
    method Downgrade()
      modifies this
      ensures rows == Downgraded(old(rows))
    {
      ghost var before := rows;
      rows := map i | i in rows && rows[i].toolSessionId.Some? :: rows[i];
      forall i | i in rows
        ensures ToolGroup(rows, rows[i].toolSessionId) == ToolGroup(before, rows[i].toolSessionId)
        ensures RowNumber(rows, ToolGroup(rows, rows[i].toolSessionId), i) > 1 <==>
          !IsNewest(before, ToolGroup(before, rows[i].toolSessionId), i)
      {
        assert ToolGroup(rows, rows[i].toolSessionId) == ToolGroup(before, rows[i].toolSessionId);
        RowNumberOne(rows, ToolGroup(rows, rows[i].toolSessionId), i);
      }
      rows := map i | i in rows && !(RowNumber(rows, ToolGroup(rows, rows[i].toolSessionId), i) > 1) :: rows[i];
      rows := map i | i in rows :: rows[i].(toolReference := None);
    }
  }

  // ---------- Consequences

  lemma {:induction false} NewestExists(t: Table, group: set<nat>) returns (i: nat)
    requires group <= t.Keys && group != {}
    ensures IsNewest(t, group, i)
  {
    var k :| k in group;
    if forall j | j in group :: j == k {
      i := k;
    } else {
      var other :| other in group && other != k;
      var rest := group - {k};
      assert other in rest;
      var newest := NewestExists(t, rest);
      assert Before(t, k, newest) || Before(t, newest, k);
      i := if Before(t, k, newest) then k else newest;
      forall j | j in group ensures j == i || Before(t, i, j) {
        assert j == k || j in rest;
      }
    }
  }

  /** For every table that meets the earlier constraints, upgrade establishes its own indexes. */
  lemma UpgradeMeetsConstraints(t: Table, now: int)
    requires Meets0014(t)
    ensures Meets0016(Upgraded(t, now))
  {
    OneLiveRowPerDevice(t, now);
    ToolsStayUnique(t, now);
    LocksStayUnique(t, now);
  }

  lemma LocksStayUnique(t: Table, now: int)
    requires LocksUnique(t)
    ensures LocksUnique(Upgraded(t, now))
  {
    var u := Upgraded(t, now);
    forall i | i in u && u[i].lockAcquiredAt.Some?
      ensures u[i].lockAcquiredAt == t[i].lockAcquiredAt && u[i].deviceId == t[i].deviceId
    {
    }
  }

  lemma ToolsStayUnique(t: Table, now: int)
    requires ToolsUnique(t)
    ensures ToolsUnique(Upgraded(t, now))
  {
    var u := Upgraded(t, now);
    assert forall i | i in t :: u[i].toolSessionId == t[i].toolSessionId;
  }

  lemma OneLiveRowPerDevice(t: Table, now: int)
    ensures LiveDevicesUnique(Upgraded(t, now))
  {
    var u := Upgraded(t, now);
    forall i, j | i in u && j in u && i != j && Live(u[i]) && Live(u[j]) ensures u[i].deviceId != u[j].deviceId {
      assert i in LiveGroup(t, t[i].deviceId) && j in LiveGroup(t, t[j].deviceId);
    }
  }

  /** Exactly the newest live row of each device that has one stays live, and rows that were
      already terminal keep their status, stop and lock fields. */
  lemma UpgradeKeepsExactlyTheNewest(t: Table, now: int, device: nat) returns (kept: Option<nat>)
    ensures kept.None? <==> LiveGroup(t, device) == {}
    ensures LiveGroup(Upgraded(t, now), device) == if kept.None? then {} else {kept.value}
    ensures kept.Some? ==> IsNewest(t, LiveGroup(t, device), kept.value)
    ensures forall i | i in t && !Live(t[i]) :: Upgraded(t, now)[i] == Filled(t[i])
  {
    if LiveGroup(t, device) == {} {
      kept := None;
    } else {
      var newest := NewestExists(t, LiveGroup(t, device));
      kept := Some(newest);
      assert forall i | i in LiveGroup(Upgraded(t, now), device) :: i in LiveGroup(t, device);
    }
  }

  lemma OnlyRowOfItsSession(t: Table, now: int, i: nat)
    requires Meets0014(t) && i in t
    ensures var u := Upgraded(t, now);
      u[i].toolSessionId.Some? && IsNewest(u, ToolGroup(u, u[i].toolSessionId), i)
  {
    var u := Upgraded(t, now);
    assert forall j | j in t :: u[j].toolSessionId == t[j].toolSessionId;
    forall j | j in ToolGroup(u, u[i].toolSessionId) ensures j == i {
    }
  }

  /** A downgrade right after an upgrade deletes nothing. */
  lemma ImmediateDowngradeDeletesNothing(t: Table, now: int)
    requires Meets0014(t)
    ensures Downgraded(Upgraded(t, now)).Keys == t.Keys
  {
    var u := Upgraded(t, now);
    forall i | i in t ensures i in Downgraded(u) {
      OnlyRowOfItsSession(t, now, i);
    }
  }

  /** From any state, downgrade leaves exactly the newest row of each tool session and so meets the
      earlier constraints again. */
  lemma DowngradeKeepsExactlyTheNewest(t: Table, tool: nat) returns (kept: Option<nat>)
    ensures kept.None? <==> ToolGroup(t, Some(tool)) == {}
    ensures ToolGroup(Downgraded(t), Some(tool)) == if kept.None? then {} else {kept.value}
    ensures kept.Some? ==> IsNewest(t, ToolGroup(t, Some(tool)), kept.value)
    ensures ToolGroup(Downgraded(t), None) == {}
    ensures LocksUnique(t) ==> Meets0014(Downgraded(t))
  {
    if ToolGroup(t, Some(tool)) == {} {
      kept := None;
    } else {
      var newest := NewestExists(t, ToolGroup(t, Some(tool)));
      kept := Some(newest);
    }
    var d := Downgraded(t);
    forall i, j | i in d && j in d && i != j && d[i].toolSessionId.Some?
      ensures d[i].toolSessionId != d[j].toolSessionId
    {
      assert i in ToolGroup(t, t[i].toolSessionId) && j in ToolGroup(t, t[j].toolSessionId);
    }
  }

  /** The greatest of the device's live rows by creation time, then by id. */
  predicate LatestLive(t: Table, i: nat)
    requires i in t
  {
    forall j | j in t && j != i && t[j].deviceId == t[i].deviceId
               && t[j].status !in {Stopped, Denied, Expired, Failed} ::
      t[j].createdAt < t[i].createdAt || (t[j].createdAt == t[i].createdAt && j < i)
  }

  /** What upgrade makes of each row: a missing reference becomes the tool session; a live row that is
      not its device's latest is stopped as rebound, without lease and lock, at its earlier stop time or
      now; everything else stays. */
  lemma UpgradedRow(t: Table, now: int, i: nat)
    requires i in t
    ensures var r, u := t[i], Upgraded(t, now)[i];
      && u.deviceId == r.deviceId && u.toolSessionId == r.toolSessionId && u.createdAt == r.createdAt
      && u.toolReference == (if r.toolReference == None then r.toolSessionId else r.toolReference)
      && if r.status in {Stopped, Denied, Expired, Failed} || LatestLive(t, i) then
           && u.status == r.status && u.leaseUntil == r.leaseUntil && u.lockAcquiredAt == r.lockAcquiredAt
           && u.stoppedAt == r.stoppedAt && u.stopReason == r.stopReason
         else
           && u.status == Stopped && u.leaseUntil == None && u.lockAcquiredAt == None
           && u.stoppedAt == Some(if r.stoppedAt == None then now else r.stoppedAt.value)
           && u.stopReason == Some("rebound")
  {
    if Live(t[i]) {
      LatestExactly(t, i);
    }
  }

  lemma LatestExactly(t: Table, i: nat)
    requires i in t && Live(t[i])
    ensures IsNewest(t, LiveGroup(t, t[i].deviceId), i) <==> LatestLive(t, i)
  {
    if LatestLive(t, i) {
      forall j | j in LiveGroup(t, t[i].deviceId) ensures j == i || Before(t, i, j) {
      }
    }
    if IsNewest(t, LiveGroup(t, t[i].deviceId), i) {
      forall j | j in t && j != i && t[j].deviceId == t[i].deviceId && Live(t[j]) ensures Before(t, i, j) {
        assert j in LiveGroup(t, t[i].deviceId);
      }
    }
  }

  /** What downgrade keeps: the rows with a tool session of which no other row of that session is later
      by creation time, then by id; they lose only the reference. */
  lemma DowngradedRow(t: Table, i: nat)
    requires i in t
    ensures i in Downgraded(t) <==>
      && t[i].toolSessionId != None
      && forall j | j in t && j != i && t[j].toolSessionId == t[i].toolSessionId ::
           t[j].createdAt < t[i].createdAt || (t[j].createdAt == t[i].createdAt && j < i)
    ensures i in Downgraded(t) ==> Downgraded(t)[i] == t[i].(toolReference := None)
  {
    var group := ToolGroup(t, t[i].toolSessionId);
    if i in Downgraded(t) {
      forall j | j in t && j != i && t[j].toolSessionId == t[i].toolSessionId ensures Before(t, i, j) {
        assert j in group;
      }
    }
  }
}

/**
 Deployment attempts under the constraints of their table. The constraints alone admit cycles; rows
 that arrive one at a time cannot form one, unless an update rewires a predecessor. Without such
 updates each target's attempts are one path.
 */
module AttemptChain {
  import opened Wrappers

  datatype Target = Target(userId: nat, operationId: nat, accountId: nat)

  datatype Status = Stored | Unsupported | Pending | Running | Ready | NeedsResolution | Failed | Superseded

  datatype ErrorCode =
    NodeUnavailable | TransferFailed | QuotaExceeded | DeploymentInterrupted | OtherCode(text: string)

  datatype Attempt = Attempt(
    target: Target, number: int, predecessor: Option<nat>, planDigest: string,
    status: Status, retryable: bool, errorCode: Option<ErrorCode>)

  /** The declared targets and the attempts by primary key. */
  datatype Tables = Tables(targets: set<Target>, rows: map<nat, Attempt>)

  // ---------- Constraints

  predicate SequenceCheck(id: nat, a: Attempt) {
    && a.number >= 1
    && (|| (a.number == 1 && a.predecessor.None?)
        || (a.number > 1 && a.predecessor.Some? && a.predecessor.value != id))
  }

  predicate RetryCheck(a: Attempt) {
    a.retryable ==> a.status == Failed && a.errorCode.Some? && !a.errorCode.value.OtherCode?
  }

  predicate ErrorCheck(a: Attempt) {
    || (a.status in {Stored, Pending, Running, Ready} && a.errorCode.None?)
    || (a.status in {Unsupported, NeedsResolution, Failed, Superseded} && a.errorCode.Some?)
  }

  predicate RowChecks(id: nat, a: Attempt) {
    SequenceCheck(id, a) && RetryCheck(a) && ErrorCheck(a) && |a.planDigest| == 64
  }

  ghost predicate NumbersUnique(t: Tables) {
    forall i, j | i in t.rows && j in t.rows && i != j && t.rows[i].target == t.rows[j].target ::
      t.rows[i].number != t.rows[j].number
  }

  /** NULL predecessors never clash; two attempts of a target cannot succeed the same one. */
  ghost predicate SuccessorsUnique(t: Tables) {
    forall i, j | i in t.rows && j in t.rows && i != j && t.rows[i].target == t.rows[j].target
      && t.rows[i].predecessor.Some? :: t.rows[i].predecessor != t.rows[j].predecessor
  }

  /** A predecessor is an attempt of the same target. */
  ghost predicate PredecessorsExist(t: Tables) {
    forall i | i in t.rows && t.rows[i].predecessor.Some? ::
      t.rows[i].predecessor.value in t.rows && t.rows[t.rows[i].predecessor.value].target == t.rows[i].target
  }

  ghost predicate Constraints(t: Tables) {
    && (forall i | i in t.rows :: RowChecks(i, t.rows[i]) && t.rows[i].target in t.targets)
    && NumbersUnique(t) && SuccessorsUnique(t) && PredecessorsExist(t)
  }

  // ---------- Statements

  datatype Statement =
    | Insert(id: nat, row: Attempt)
    | Delete(id: nat)
    | Update(id: nat, row: Attempt)
    | AddTarget(target: Target)
    | DropTarget(target: Target)

  function Candidate(t: Tables, s: Statement): Tables {
    match s
    case Insert(id, row) => if id in t.rows then t else t.(rows := t.rows[id := row])
    case Delete(id) => t.(rows := t.rows - {id})
    case Update(id, row) => if id !in t.rows then t else t.(rows := t.rows[id := row])
    case AddTarget(target) => t.(targets := t.targets + {target})
    case DropTarget(target) => t.(targets := t.targets - {target})
  }

  /** A statement whose result violates a constraint is refused. */
  ghost function Execute(t: Tables, s: Statement): Tables {
    if Constraints(Candidate(t, s)) then Candidate(t, s) else t
  }

  const EMPTY := Tables({}, map[])

  /** An update that gives an attempt another predecessor within its target. */
  predicate Rewires(t: Tables, s: Statement) {
    && s.Update? && s.id in t.rows
    && s.row.target == t.rows[s.id].target && s.row.predecessor != t.rows[s.id].predecessor
  }

  ghost function After(statements: seq<Statement>): Tables {
    if statements == [] then EMPTY
    else Execute(After(statements[..|statements| - 1]), statements[|statements| - 1])
  }

  // ---------- Chains

  /** The path lists exactly the target's attempts, once each, starting at the one with number 1,
      each of the others directly succeeding the one before it. */
  ghost predicate IsChain(t: Tables, g: Target, path: seq<nat>) {
    && (forall i | 0 <= i < |path| :: path[i] in t.rows && t.rows[path[i]].target == g)
    && (forall id | id in t.rows && t.rows[id].target == g :: id in path)
    && (forall i, j | 0 <= i < j < |path| :: path[i] != path[j])
    && (path != [] ==> t.rows[path[0]].number == 1 && t.rows[path[0]].predecessor.None?)
    && (forall i | 0 < i < |path| :: t.rows[path[i]].predecessor == Some(path[i - 1]))
  }

  /** Everything except the last attempt of a chain has a successor in it. */
  lemma OnlyLastIsFree(t: Tables, g: Target, path: seq<nat>, p: nat)
    requires IsChain(t, g, path) && p in path
    requires forall id | id in t.rows && t.rows[id].target == g :: t.rows[id].predecessor != Some(p)
    ensures p == path[|path| - 1]
  {
    forall k | 0 <= k < |path| - 1 ensures path[k] != p {
      assert t.rows[path[k + 1]].predecessor == Some(path[k]);
    }
  }

  lemma AppendKeepsChain(t: Tables, id: nat, row: Attempt, path: seq<nat>)
    requires IsChain(t, row.target, path) && id !in t.rows
    requires if path == [] then row.number == 1 && row.predecessor.None? else row.predecessor == Some(path[|path| - 1])
    ensures IsChain(t.(rows := t.rows[id := row]), row.target, path + [id])
  {
    var t', path' := t.(rows := t.rows[id := row]), path + [id];
    forall i | 0 <= i < |path| ensures t'.rows[path'[i]] == t.rows[path[i]] {
      assert path[i] != id;
    }
  }

  lemma InsertExtends(t: Tables, id: nat, row: Attempt, path: seq<nat>)
    requires Constraints(t) && id !in t.rows && Constraints(t.(rows := t.rows[id := row]))
    requires IsChain(t, row.target, path)
    ensures IsChain(t.(rows := t.rows[id := row]), row.target, path + [id])
  {
    var t' := t.(rows := t.rows[id := row]);
    assert t'.rows[id] == row && SequenceCheck(id, row);
    if row.predecessor.None? {
      RootsClash(t, id, row, path);
    } else {
      var p := row.predecessor.value;
      assert p in t'.rows && p != id;
      forall other | other in t.rows && t.rows[other].target == row.target
        ensures t.rows[other].predecessor != Some(p)
      {
        assert t'.rows[other] == t.rows[other];
      }
      OnlyLastIsFree(t, row.target, path, p);
    }
    AppendKeepsChain(t, id, row, path);
  }

  /** A target that has attempts has its number 1 already. */
  lemma RootsClash(t: Tables, id: nat, row: Attempt, path: seq<nat>)
    requires id !in t.rows && Constraints(t.(rows := t.rows[id := row])) && row.predecessor.None?
    requires IsChain(t, row.target, path)
    ensures path == []
  {
    var t' := t.(rows := t.rows[id := row]);
    assert t'.rows[id] == row && SequenceCheck(id, row);
    forall i | i in t.rows && t.rows[i].target == row.target ensures t.rows[i].number != 1 {
      assert t'.rows[i].number != t'.rows[id].number;
    }
  }

  lemma DeleteTrims(t: Tables, id: nat, g: Target, path: seq<nat>)
    requires Constraints(t.(rows := t.rows - {id})) && IsChain(t, g, path) && id in path
    ensures IsChain(t.(rows := t.rows - {id}), g, path[..|path| - 1])
  {
    var t' := t.(rows := t.rows - {id});
    forall other | other in t.rows && t.rows[other].target == g
      ensures t.rows[other].predecessor != Some(id)
    {
      if other != id {
        assert t'.rows[other] == t.rows[other];
      } else {
        NoSelfSuccession(t, g, path, id);
      }
    }
    OnlyLastIsFree(t, g, path, id);
  }

  lemma NoSelfSuccession(t: Tables, g: Target, path: seq<nat>, id: nat)
    requires IsChain(t, g, path) && id in path
    ensures t.rows[id].predecessor != Some(id)
  {
    var k :| 0 <= k < |path| && path[k] == id;
    assert k > 0 ==> path[k - 1] != path[k];
  }

  lemma ConstraintsHold(statements: seq<Statement>)
    ensures Constraints(After(statements))
  {
  }

  lemma TargetsKeepChain(t: Tables, s: Statement, g: Target, path: seq<nat>)
    requires IsChain(t, g, path) && (s.AddTarget? || s.DropTarget?)
    ensures IsChain(Candidate(t, s), g, path)
  {
  }

  /** An update that changes neither target nor predecessor leaves every chain as it is. */
  lemma UpdateInPlace(t: Tables, id: nat, row: Attempt, g: Target, path: seq<nat>)
    requires IsChain(t, g, path) && id in t.rows && Constraints(Candidate(t, Update(id, row)))
    requires row.target == t.rows[id].target && row.predecessor == t.rows[id].predecessor
    ensures IsChain(Candidate(t, Update(id, row)), g, path)
  {
    var t' := Candidate(t, Update(id, row));
    assert t'.rows[id] == row && SequenceCheck(id, row);
  }

  /** An accepted update to another target is a deletion followed by an insertion, both of which
      the constraints accept. */
  lemma MoveIsDeleteInsert(t: Tables, id: nat, row: Attempt)
    requires Constraints(t) && id in t.rows && Constraints(Candidate(t, Update(id, row)))
    requires row.target != t.rows[id].target
    ensures Constraints(Candidate(t, Delete(id)))
    ensures Candidate(Candidate(t, Delete(id)), Insert(id, row)) == Candidate(t, Update(id, row))
  {
    NobodySucceedsMoved(t, id, row);
    assert (t.rows - {id})[id := row] == t.rows[id := row];
  }

  lemma NobodySucceedsMoved(t: Tables, id: nat, row: Attempt)
    requires PredecessorsExist(t) && id in t.rows && PredecessorsExist(Candidate(t, Update(id, row)))
    requires row.target != t.rows[id].target
    ensures PredecessorsExist(Candidate(t, Delete(id)))
  {
    var t', less := Candidate(t, Update(id, row)), Candidate(t, Delete(id));
    forall i | i in less.rows && less.rows[i].predecessor.Some? ensures less.rows[i].predecessor.value in less.rows {
      assert t'.rows[i] == t.rows[i] == less.rows[i];
    }
  }

  lemma OtherInsertKeepsChain(t: Tables, id: nat, row: Attempt, g: Target, path: seq<nat>)
    requires IsChain(t, g, path) && (id in t.rows || row.target != g)
    ensures IsChain(Candidate(t, Insert(id, row)), g, path)
  {
  }

  lemma OtherDeleteKeepsChain(t: Tables, id: nat, g: Target, path: seq<nat>)
    requires IsChain(t, g, path) && id !in path
    ensures IsChain(Candidate(t, Delete(id)), g, path)
  {
  }

  lemma StatementKeepsChain(t: Tables, s: Statement, g: Target, path: seq<nat>) returns (path': seq<nat>)
    requires Constraints(t) && Constraints(Candidate(t, s)) && IsChain(t, g, path) && !Rewires(t, s)
    ensures IsChain(Candidate(t, s), g, path')
    decreases s.Update?
  {
    path' := path;
    match s
    case Insert(id, row) =>
      if id !in t.rows && row.target == g {
        InsertExtends(t, id, row, path);
        path' := path + [id];
      } else {
        OtherInsertKeepsChain(t, id, row, g, path);
      }
    case Delete(id) =>
      if id in path {
        DeleteTrims(t, id, g, path);
        path' := path[..|path| - 1];
      } else {
        OtherDeleteKeepsChain(t, id, g, path);
      }
    case Update(id, row) =>
      if id in t.rows {
        if row.target == t.rows[id].target {
          UpdateInPlace(t, id, row, g, path);
        } else {
          MoveIsDeleteInsert(t, id, row);
          path' := StatementKeepsChain(t, Delete(id), g, path);
          path' := StatementKeepsChain(Candidate(t, Delete(id)), Insert(id, row), g, path');
        }
      }
    case AddTarget(_) => TargetsKeepChain(t, s, g, path);
    case DropTarget(_) => TargetsKeepChain(t, s, g, path);
  }

  ghost predicate AcceptedRewiring(t: Tables, s: Statement) {
    Rewires(t, s) && Constraints(Candidate(t, s))
  }

  /** No statement that the run's constraints accept rewires a predecessor. */
  ghost predicate NeverRewires(statements: seq<Statement>) {
    statements == [] ||
    var front := statements[..|statements| - 1];
    NeverRewires(front) && !AcceptedRewiring(After(front), statements[|statements| - 1])
  }

  /** Every table reached by inserts, deletes and updates of single rows, none of which is accepted
      and rewires a predecessor within its target, has for every target a single fork-free and cycle-free chain of
      all the target's attempts from the one with number 1. */
  lemma {:induction false} AttemptsFormOneChain(statements: seq<Statement>, g: Target) returns (path: seq<nat>)
    requires NeverRewires(statements)
    ensures IsChain(After(statements), g, path)
  {
    if statements == [] {
      path := [];
    } else {
      var t, s := After(statements[..|statements| - 1]), statements[|statements| - 1];
      path := AttemptsFormOneChain(statements[..|statements| - 1], g);
      ConstraintsHold(statements[..|statements| - 1]);
      path := ExecuteKeepsChain(t, s, g, path);
    }
  }

  lemma ExecuteKeepsChain(t: Tables, s: Statement, g: Target, path: seq<nat>) returns (path': seq<nat>)
    requires Constraints(t) && IsChain(t, g, path) && !AcceptedRewiring(t, s)
    ensures IsChain(Execute(t, s), g, path')
  {
    path' := path;
    if Constraints(Candidate(t, s)) {
      path' := StatementKeepsChain(t, s, g, path);
    }
  }

  /** In every table that any statements reach, each attempt obeys the rules of its row: the digest has 64
      characters, a retryable attempt has failed with one of four errors, exactly the unhappy statuses
      carry an error, the target is declared and a predecessor is another attempt of the same target. */
  lemma RulesHold(statements: seq<Statement>, id: nat)
    requires id in After(statements).rows
    ensures var t := After(statements);
      var a := t.rows[id];
      && |a.planDigest| == 64 && a.number >= 1 && a.target in t.targets
      && (a.retryable ==>
            && a.status == Failed
            && a.errorCode in
                 {Some(NodeUnavailable), Some(TransferFailed), Some(QuotaExceeded), Some(DeploymentInterrupted)})
      && (a.errorCode != None <==>
            a.status == Unsupported || a.status == NeedsResolution || a.status == Failed || a.status == Superseded)
      && (a.predecessor == None <==> a.number == 1)
      && (a.predecessor != None ==>
            && a.predecessor.value in t.rows && a.predecessor.value != id
            && t.rows[a.predecessor.value].target == a.target)
  {
    ConstraintsHold(statements);
    assert RowChecks(id, After(statements).rows[id]);
  }

  /** Along a chain of a reachable table no two attempts have the same number, and nothing else
      succeeds the predecessor of an attempt. */
  lemma NumbersAlongChain(statements: seq<Statement>, g: Target, path: seq<nat>, i: nat, j: nat)
    requires IsChain(After(statements), g, path) && i < j < |path|
    ensures var rows := After(statements).rows;
      rows[path[i]].number != rows[path[j]].number && rows[path[i]].predecessor != rows[path[j]].predecessor
  {
    ConstraintsHold(statements);
    var t := After(statements);
    assert path[i] != path[j] && t.rows[path[j]].predecessor.Some?;
  }

  ghost predicate HasSuccessor(t: Tables, id: nat) {
    exists i :: i in t.rows && i != id && t.rows[i].predecessor == Some(id)
  }

  ghost predicate HasAttempts(t: Tables, g: Target) {
    exists i :: i in t.rows && t.rows[i].target == g
  }

  /** A deletion goes through exactly when no other attempt succeeds the deleted one. */
  lemma DeletionExactly(t: Tables, id: nat)
    requires Constraints(t)
    ensures Execute(t, Delete(id)) == if HasSuccessor(t, id) then t else t.(rows := t.rows - {id})
  {
    FewerRows(t, id);
    if HasSuccessor(t, id) {
      SuccessorKeepsRow(t, id);
    } else {
      FreeRowLeaves(t, id);
    }
  }

  lemma FewerRows(t: Tables, id: nat)
    requires Constraints(t)
    ensures var less := Candidate(t, Delete(id));
      Constraints(less) <==> PredecessorsExist(less)
  {
  }

  lemma SuccessorKeepsRow(t: Tables, id: nat)
    requires HasSuccessor(t, id)
    ensures !PredecessorsExist(Candidate(t, Delete(id)))
  {
    var less := Candidate(t, Delete(id));
    var i :| i in t.rows && i != id && t.rows[i].predecessor == Some(id);
    assert less.rows[i] == t.rows[i] && id !in less.rows;
  }

  lemma FreeRowLeaves(t: Tables, id: nat)
    requires PredecessorsExist(t) && !HasSuccessor(t, id)
    ensures PredecessorsExist(Candidate(t, Delete(id)))
  {
    var less := Candidate(t, Delete(id));
    forall i | i in less.rows && less.rows[i].predecessor.Some? ensures less.rows[i].predecessor.value in less.rows {
      assert less.rows[i] == t.rows[i];
    }
  }

  /** Dropping a target goes through exactly when it has no attempts. */
  lemma DropExactly(t: Tables, g: Target)
    requires Constraints(t)
    ensures Execute(t, DropTarget(g)) == if HasAttempts(t, g) then t else t.(targets := t.targets - {g})
  {
    var dropped := Candidate(t, DropTarget(g));
    if HasAttempts(t, g) {
      var i :| i in t.rows && t.rows[i].target == g;
      assert dropped.rows[i].target !in dropped.targets;
    }
  }

  /** What a new attempt needs beside its own row's rules: a declared target, a number that is new to the
      target, and a predecessor, if any, that is an attempt of the target without a successor yet. */
  ghost predicate Fits(t: Tables, row: Attempt) {
    && row.target in t.targets
    && (forall i | i in t.rows && t.rows[i].target == row.target :: t.rows[i].number != row.number)
    && (row.predecessor.Some? ==>
          && row.predecessor.value in t.rows && t.rows[row.predecessor.value].target == row.target
          && forall i | i in t.rows && t.rows[i].target == row.target :: t.rows[i].predecessor != row.predecessor)
  }

  /** An insertion under a new key goes through exactly when the row obeys its rules and fits. */
  lemma InsertionExactly(t: Tables, id: nat, row: Attempt)
    requires Constraints(t) && id !in t.rows
    ensures Execute(t, Insert(id, row)) ==
      if RowChecks(id, row) && Fits(t, row) then t.(rows := t.rows[id := row]) else t
  {
    var more := Candidate(t, Insert(id, row));
    assert more.rows[id] == row && forall i | i in t.rows :: more.rows[i] == t.rows[i];
    if Constraints(more) {
      InsertedFits(t, id, row);
    }
    if RowChecks(id, row) && Fits(t, row) {
      FittingKeepsConstraints(t, id, row);
    }
    assert t.rows[id := row] != t.rows;
  }

  lemma InsertedFits(t: Tables, id: nat, row: Attempt)
    requires id !in t.rows && Constraints(Candidate(t, Insert(id, row)))
    ensures RowChecks(id, row) && Fits(t, row)
  {
    var more := Candidate(t, Insert(id, row));
    assert more.rows[id] == row;
    forall i | i in t.rows && t.rows[i].target == row.target
      ensures t.rows[i].number != row.number
      ensures row.predecessor.Some? ==> t.rows[i].predecessor != row.predecessor
    {
      assert more.rows[i] == t.rows[i] && i != id;
    }
    assert row.predecessor.Some? ==> row.predecessor.value != id;
  }

  lemma FittingKeepsConstraints(t: Tables, id: nat, row: Attempt)
    requires Constraints(t) && id !in t.rows && RowChecks(id, row) && Fits(t, row)
    ensures Constraints(Candidate(t, Insert(id, row)))
  {
  }

  // ---------- Which tables can be reached

  ghost predicate Chained(t: Tables, g: Target) {
    exists path :: IsChain(t, g, path)
  }

  ghost predicate AllChained(t: Tables) {
    forall g :: Chained(t, g)
  }

  lemma LastHasNoSuccessor(t: Tables, g: Target, path: seq<nat>, i: nat)
    requires IsChain(t, g, path) && path != [] && i in t.rows && t.rows[i].target == g
    ensures t.rows[i].predecessor != Some(path[|path| - 1])
  {
    var k :| 0 <= k < |path| && path[k] == i;
    assert k > 0 ==> path[k - 1] != path[|path| - 1];
  }

  lemma RemovingLastKeepsConstraints(t: Tables, g: Target, path: seq<nat>)
    requires Constraints(t) && IsChain(t, g, path) && path != []
    ensures Constraints(t.(rows := t.rows - {path[|path| - 1]}))
  {
    RemovingLastKeepsPredecessors(t, g, path);
  }

  lemma RemovingLastKeepsPredecessors(t: Tables, g: Target, path: seq<nat>)
    requires PredecessorsExist(t) && IsChain(t, g, path) && path != []
    ensures PredecessorsExist(t.(rows := t.rows - {path[|path| - 1]}))
  {
    var t' := t.(rows := t.rows - {path[|path| - 1]});
    forall i | i in t'.rows && t'.rows[i].predecessor.Some? ensures t'.rows[i].predecessor.value in t'.rows {
      assert t.rows[i].predecessor.value in t.rows;
      if t.rows[i].target == g {
        LastHasNoSuccessor(t, g, path, i);
      }
    }
  }

  lemma Shortened(t: Tables, g: Target, path: seq<nat>)
    requires IsChain(t, g, path) && path != []
    ensures IsChain(t.(rows := t.rows - {path[|path| - 1]}), g, path[..|path| - 1])
  {
  }

  lemma RemovingLastKeepsChains(t: Tables, g: Target, path: seq<nat>, h: Target)
    requires IsChain(t, g, path) && path != [] && Chained(t, h)
    ensures Chained(t.(rows := t.rows - {path[|path| - 1]}), h)
  {
    var t' := t.(rows := t.rows - {path[|path| - 1]});
    if h == g {
      Shortened(t, g, path);
    } else {
      var q :| IsChain(t, h, q);
      assert IsChain(t', h, q);
    }
  }

  lemma AfterSnoc(statements: seq<Statement>, s: Statement)
    ensures After(statements + [s]) == Execute(After(statements), s)
  {
    assert (statements + [s])[..|statements|] == statements;
  }

  ghost predicate OnlyAdds(statements: seq<Statement>) {
    forall s | s in statements :: s.Insert? || s.AddTarget?
  }

  lemma {:induction false} TargetsAreReachable(targets: set<Target>) returns (statements: seq<Statement>)
    ensures After(statements) == Tables(targets, map[]) && OnlyAdds(statements)
  {
    if targets == {} {
      statements := [];
    } else {
      var g :| g in targets;
      statements := TargetsAreReachable(targets - {g});
      AfterSnoc(statements, AddTarget(g));
      assert Candidate(Tables(targets - {g}, map[]), AddTarget(g)).targets == targets;
      statements := statements + [AddTarget(g)];
    }
  }

  lemma Reinsert(t: Tables, id: nat)
    requires Constraints(t) && id in t.rows
    ensures Execute(t.(rows := t.rows - {id}), Insert(id, t.rows[id])) == t
  {
    var t' := t.(rows := t.rows - {id});
    assert t'.rows[id := t.rows[id]] == t.rows;
  }

  /** Conversely, a table that meets the constraints and is chained can be built row by row. */
  lemma {:induction false} ChainedTablesAreReachable(t: Tables) returns (statements: seq<Statement>)
    requires Constraints(t) && AllChained(t)
    ensures After(statements) == t && OnlyAdds(statements)
    decreases |t.rows|
  {
    if t.rows == map[] {
      statements := TargetsAreReachable(t.targets);
    } else {
      var id :| id in t.rows;
      assert Chained(t, t.rows[id].target);
      var path :| IsChain(t, t.rows[id].target, path);
      var last := path[|path| - 1];
      var t' := t.(rows := t.rows - {last});
      RemovingLastKeepsConstraints(t, t.rows[id].target, path);
      forall h ensures Chained(t', h) {
        RemovingLastKeepsChains(t, t.rows[id].target, path, h);
      }
      assert t'.rows.Keys == t.rows.Keys - {last};
      statements := ChainedTablesAreReachable(t');
      AfterSnoc(statements, Insert(last, t.rows[last]));
      Reinsert(t, last);
      statements := statements + [Insert(last, t.rows[last])];
    }
  }

  ghost predicate Reaches(statements: seq<Statement>, t: Tables) {
    NeverRewires(statements) && After(statements) == t
  }

  lemma {:induction false} AddsNeverRewire(statements: seq<Statement>)
    requires OnlyAdds(statements)
    ensures NeverRewires(statements)
  {
    if statements != [] {
      assert statements[|statements| - 1] in statements;
      AddsNeverRewire(statements[..|statements| - 1]);
    }
  }

  /** Among the tables that meet the constraints, the ones that statements reach without rewiring
      are exactly the chained ones. */
  lemma ReachableExactlyChained(t: Tables)
    requires Constraints(t)
    ensures (exists statements :: Reaches(statements, t)) <==> AllChained(t)
  {
    if statements :| Reaches(statements, t) {
      forall g ensures Chained(t, g) {
        var path := AttemptsFormOneChain(statements, g);
      }
    }
    if AllChained(t) {
      var statements := ChainedTablesAreReachable(t);
      AddsNeverRewire(statements);
      assert Reaches(statements, t);
    }
  }

  // ---------- Updates that rewire

  /** In a table reached by a rewiring update, walking back from the end of the old chain comes to
      the rewired attempt. */
  lemma {:induction false} WalkBack(
      t: Tables, g: Target, path: seq<nat>, t': Tables, path': seq<nat>, k: nat, j: nat, x: nat)
    requires IsChain(t, g, path) && IsChain(t', g, path') && k <= j < |path| && x < |path'|
    requires forall i | k < i < |path| :: path[i] in t'.rows && t'.rows[path[i]] == t.rows[path[i]]
    requires path'[x] == path[j]
    ensures j - k <= x && path'[x - (j - k)] == path[k]
    decreases j
  {
    if j > k {
      assert t'.rows[path[j]].predecessor == Some(path[j - 1]);
      WalkBack(t, g, path, t', path', k, j - 1, x - 1);
    }
  }

  /** An accepted rewiring never takes the predecessor away: the target has its number 1 already. */
  lemma RewiredHasPredecessor(t: Tables, id: nat, row: Attempt, path: seq<nat>)
    requires id in t.rows && Rewires(t, Update(id, row)) && IsChain(t, row.target, path)
    requires SequenceCheck(id, row) && NumbersUnique(Candidate(t, Update(id, row)))
    ensures row.predecessor.Some?
  {
    var t' := Candidate(t, Update(id, row));
    assert id in path && path[0] in t'.rows && t'.rows[id] == row;
    assert path[0] != id ==> t'.rows[path[0]] == t.rows[path[0]];
  }

  /** The new predecessor of an accepted rewiring can only be the end of the old chain. */
  lemma RewiredToLast(t: Tables, id: nat, row: Attempt, path: seq<nat>)
    requires id in t.rows && Rewires(t, Update(id, row)) && IsChain(t, row.target, path)
    requires row.predecessor.Some?
    requires PredecessorsExist(Candidate(t, Update(id, row))) && SuccessorsUnique(Candidate(t, Update(id, row)))
    ensures path != [] && row.predecessor == Some(path[|path| - 1])
  {
    var t', q := Candidate(t, Update(id, row)), row.predecessor.value;
    assert t'.rows[id] == row;
    assert q in t'.rows && t'.rows[q].target == row.target && t.rows[q].target == row.target;
    forall m | 0 <= m < |path| - 1 ensures path[m] != q {
      assert t.rows[path[m + 1]].predecessor == Some(path[m]);
      assert path[m + 1] != id ==> t'.rows[path[m + 1]] == t.rows[path[m + 1]];
    }
    assert q in path;
  }

  lemma NoWayForward(t: Tables, g: Target, path: seq<nat>, x: nat)
    requires IsChain(t, g, path) && x < |path|
    ensures forall y | 0 <= y <= x :: t.rows[path[y]].predecessor != Some(path[x])
  {
    forall y | 0 <= y <= x ensures t.rows[path[y]].predecessor != Some(path[x]) {
      assert y > 0 ==> t.rows[path[y]].predecessor == Some(path[y - 1]) && path[y - 1] != path[x];
    }
  }

  /** An attempt that succeeds the end of its own chain lies on a cycle, so no chain is left. */
  lemma NoChainLeft(t: Tables, id: nat, row: Attempt, path: seq<nat>, k: nat, path': seq<nat>)
    requires id in t.rows && t.rows[id].target == row.target && IsChain(t, row.target, path)
    requires k < |path| && path[k] == id && row.predecessor == Some(path[|path| - 1])
    ensures !IsChain(Candidate(t, Update(id, row)), row.target, path')
  {
    var t', last := Candidate(t, Update(id, row)), path[|path| - 1];
    if IsChain(t', row.target, path') {
      assert t'.rows[last].target == row.target;
      var x :| 0 <= x < |path'| && path'[x] == last;
      assert t'.rows[id].predecessor == Some(path'[x]);
      assert forall i | k < i < |path| :: path[i] != id;
      NoWayForward(t', row.target, path', x);
      WalkBack(t, row.target, path, t', path', k, |path| - 1, x);
    }
  }

  /** A rewiring update that the constraints accept always destroys its target's chain. */
  lemma RewiringBreaksChain(t: Tables, id: nat, row: Attempt)
    requires Chained(t, row.target) && id in t.rows
    requires Constraints(Candidate(t, Update(id, row))) && Rewires(t, Update(id, row))
    ensures !Chained(Candidate(t, Update(id, row)), row.target)
  {
    var path :| IsChain(t, row.target, path);
    assert Candidate(t, Update(id, row)).rows[id] == row && RowChecks(id, row);
    RewiredHasPredecessor(t, id, row, path);
    RewiredToLast(t, id, row, path);
    var k :| 0 <= k < |path| && path[k] == id;
    forall path' ensures !IsChain(Candidate(t, Update(id, row)), row.target, path') {
      NoChainLeft(t, id, row, path, k, path');
    }
  }

  /** Every table that the run passes through is chained. */
  ghost predicate AlwaysChained(statements: seq<Statement>) {
    AllChained(After(statements)) && (statements == [] || AlwaysChained(statements[..|statements| - 1]))
  }

  lemma ChainedStepDoesNotRewire(t: Tables, s: Statement)
    requires AllChained(t) && AllChained(Execute(t, s))
    ensures !AcceptedRewiring(t, s)
  {
    if AcceptedRewiring(t, s) {
      assert Chained(t, s.row.target) && Chained(Execute(t, s), s.row.target);
      RewiringBreaksChain(t, s.id, s.row);
    }
  }

  /** A run of single-row statements keeps all chains throughout exactly when none of its accepted
      statements rewires. */
  lemma {:induction false} ChainedThroughoutExactly(statements: seq<Statement>)
    ensures AlwaysChained(statements) <==> NeverRewires(statements)
  {
    if NeverRewires(statements) {
      forall g ensures Chained(After(statements), g) {
        var path := AttemptsFormOneChain(statements, g);
      }
    }
    if statements != [] {
      var front, s := statements[..|statements| - 1], statements[|statements| - 1];
      ChainedThroughoutExactly(front);
      if AlwaysChained(statements) {
        ChainedStepDoesNotRewire(After(front), s);
      }
    }
  }

  /** A single-row update that the constraints accept keeps all chains exactly when it does not
      rewire: it moves the attempt to another target or leaves its predecessor alone. */
  lemma UpdateKeepsChainsExactly(t: Tables, id: nat, row: Attempt)
    requires Constraints(t) && AllChained(t) && id in t.rows && Constraints(Candidate(t, Update(id, row)))
    ensures AllChained(Candidate(t, Update(id, row))) <==>
      row.target != t.rows[id].target || row.predecessor == t.rows[id].predecessor
  {
    assert Chained(t, row.target);
    if Rewires(t, Update(id, row)) {
      RewiringBreaksChain(t, id, row);
    } else {
      forall g ensures Chained(Candidate(t, Update(id, row)), g) {
        assert Chained(t, g);
        var path :| IsChain(t, g, path);
        var path' := StatementKeepsChain(t, Update(id, row), g, path);
      }
    }
  }

  function Pended(g: Target, number: int, predecessor: Option<nat>, digest: string): Attempt {
    Attempt(g, number, predecessor, digest, Pending, false, None)
  }

  /** Attempts 1, 2 and 3 of a target; the second one's number and predecessor vary. */
  function ThreeAttempts(g: Target, number: int, second: nat, digest: string): Tables {
    Tables({g}, map[
      1 := Pended(g, 1, None, digest), 2 := Pended(g, number, Some(second), digest),
      3 := Pended(g, 3, Some(2), digest)])
  }

  lemma ThreeAreUnique(g: Target, number: int, second: nat, digest: string)
    requires second in {1, 3} && number in {2, 5}
    ensures NumbersUnique(ThreeAttempts(g, number, second, digest))
    ensures SuccessorsUnique(ThreeAttempts(g, number, second, digest))
  {
  }

  lemma ThreeMeetConstraints(g: Target, number: int, second: nat, digest: string)
    requires |digest| == 64 && second in {1, 3} && number in {2, 5}
    ensures Constraints(ThreeAttempts(g, number, second, digest))
  {
    ThreeAreUnique(g, number, second, digest);
    ThreeHavePredecessors(g, number, second, digest);
  }

  lemma ThreeHavePredecessors(g: Target, number: int, second: nat, digest: string)
    requires second in {1, 3}
    ensures PredecessorsExist(ThreeAttempts(g, number, second, digest))
  {
  }

  lemma ThreeAreChained(g: Target, number: int, digest: string)
    ensures IsChain(ThreeAttempts(g, number, 1, digest), g, [1, 2, 3])
    ensures AllChained(ThreeAttempts(g, number, 1, digest))
  {
    var t := ThreeAttempts(g, number, 1, digest);
    assert IsChain(t, g, [1, 2, 3]);
    forall h ensures Chained(t, h) {
      assert h != g ==> IsChain(t, h, []);
    }
  }

  lemma SecondRewired(g: Target, digest: string)
    ensures var line, update := ThreeAttempts(g, 2, 1, digest), Update(2, Pended(g, 2, Some(3), digest));
      Candidate(line, update) == ThreeAttempts(g, 2, 3, digest) && Rewires(line, update)
  {
    var row := Pended(g, 2, Some(3), digest);
    assert ThreeAttempts(g, 2, 1, digest).rows[2 := row] == ThreeAttempts(g, 2, 3, digest).rows;
  }

  /** Such an update: in the chain 1, 2, 3 the second attempt is made to succeed the third. */
  lemma RewiringMakesCycle(g: Target, digest: string)
    requires |digest| == 64
    ensures var line, update := ThreeAttempts(g, 2, 1, digest), Update(2, Pended(g, 2, Some(3), digest));
      && Constraints(line) && IsChain(line, g, [1, 2, 3])
      && Execute(line, update) == ThreeAttempts(g, 2, 3, digest) && !Chained(ThreeAttempts(g, 2, 3, digest), g)
  {
    ThreeMeetConstraints(g, 2, 1, digest);
    ThreeMeetConstraints(g, 2, 3, digest);
    ThreeAreChained(g, 2, digest);
    SecondRewired(g, digest);
    RewiringBreaksChain(ThreeAttempts(g, 2, 1, digest), 2, Pended(g, 2, Some(3), digest));
  }

  /** The constraints alone admit a cycle: two attempts that succeed each other. */
  lemma ConstraintsAdmitCycle(g: Target, digest: string)
    requires |digest| == 64
    ensures var t := Tables({g}, map[
        1 := Attempt(g, 2, Some(2), digest, Pending, false, None),
        2 := Attempt(g, 3, Some(1), digest, Pending, false, None)]);
      Constraints(t) && !Chained(t, g)
  {
    var t := Tables({g}, map[
      1 := Attempt(g, 2, Some(2), digest, Pending, false, None),
      2 := Attempt(g, 3, Some(1), digest, Pending, false, None)]);
    forall path ensures !IsChain(t, g, path) {
      assert 1 in t.rows;
      if path != [] && path[0] in t.rows {
        assert t.rows[path[0]].number != 1;
      }
    }
  }

  /** The numbers need not grow along the chain: 1, 5, 3. */
  lemma NumbersNeedNotGrow(g: Target, digest: string)
    requires |digest| == 64
    ensures var t := ThreeAttempts(g, 5, 1, digest);
      Constraints(t) && IsChain(t, g, [1, 2, 3]) && exists statements :: Reaches(statements, t)
  {
    ThreeMeetConstraints(g, 5, 1, digest);
    ThreeAreChained(g, 5, digest);
    ReachableExactlyChained(ThreeAttempts(g, 5, 1, digest));
  }
}

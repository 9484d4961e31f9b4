/** Which claims the grants of a world hold at one stage, and how moving a grant changes that. */
module RelayLedgers {
  import opened Wrappers
  import opened RelayIdentity
  import opened RelayGateway

  datatype Standing = AwaitsTicket | AtGateway

  predicate Stands(g: Grant, standing: Standing) {
    match standing
    case AwaitsTicket => g.stage.Owed?
    case AtGateway => g.stage.Admitted?
  }

  function Share(g: Grant, standing: Standing): multiset<Claims> {
    if Stands(g, standing) then multiset{g.claims} else multiset{}
  }

  function Ledger(grants: seq<Grant>, standing: Standing): multiset<Claims> {
    if grants == [] then multiset{}
    else Ledger(grants[..|grants| - 1], standing) + Share(grants[|grants| - 1], standing)
  }

  lemma LedgerSnoc(grants: seq<Grant>, g: Grant, standing: Standing)
    ensures Ledger(grants + [g], standing) == Ledger(grants, standing) + Share(g, standing)
  {
    assert (grants + [g])[..|grants|] == grants;
  }

  lemma AddBetween(
      a: multiset<Claims>, b: multiset<Claims>, c: multiset<Claims>, d: multiset<Claims>, x: multiset<Claims>)
    requires a + b == c + d
    ensures (a + x) + b == (c + x) + d
  {
    assert (a + x) + b == (a + b) + x;
    assert (c + x) + d == (c + d) + x;
  }

  lemma Commute(a: multiset<Claims>, b: multiset<Claims>, x: multiset<Claims>)
    ensures (x + a) + b == (x + b) + a
  {
  }

  /** An update takes the old entry's share out and puts the new one's in. */
  lemma {:induction false} LedgerUpdate(grants: seq<Grant>, i: nat, g: Grant, standing: Standing)
    requires i < |grants|
    ensures Ledger(grants[i := g], standing) + Share(grants[i], standing) ==
      Ledger(grants, standing) + Share(g, standing)
  {
    var front, last := grants[..|grants| - 1], grants[|grants| - 1];
    var updated := grants[i := g];
    if i == |grants| - 1 {
      assert updated[..i] == front && updated[i] == g;
      Commute(Share(g, standing), Share(last, standing), Ledger(front, standing));
    } else {
      LedgerUpdate(front, i, g, standing);
      assert updated[..|grants| - 1] == front[i := g] && updated[|grants| - 1] == last;
      AddBetween(Ledger(front[i := g], standing), Share(front[i], standing),
                 Ledger(front, standing), Share(g, standing), Share(last, standing));
    }
  }

  lemma {:induction false} LedgerFinds(grants: seq<Grant>, standing: Standing, claims: Claims) returns (i: nat)
    requires claims in Ledger(grants, standing)
    ensures i < |grants| && Stands(grants[i], standing) && grants[i].claims == claims
  {
    var last := grants[|grants| - 1];
    if Stands(last, standing) && last.claims == claims {
      i := |grants| - 1;
    } else {
      i := LedgerFinds(grants[..|grants| - 1], standing, claims);
    }
  }

  /** The world's grants stand where the clocked system says. */
  ghost predicate SameLedgers(w: World, owed: multiset<Claims>, admitted: multiset<Claims>) {
    Ledger(w.grants, AwaitsTicket) == owed && Ledger(w.grants, AtGateway) == admitted
  }

  lemma MovedLedgers(w: World, i: nat, stage: Stage, w': World)
    requires i < |w.grants| && w'.grants == w.grants[i := w.grants[i].(stage := stage)]
    ensures var g, g' := w.grants[i], w.grants[i].(stage := stage);
      && Ledger(w'.grants, AwaitsTicket) + Share(g, AwaitsTicket) ==
           Ledger(w.grants, AwaitsTicket) + Share(g', AwaitsTicket)
      && Ledger(w'.grants, AtGateway) + Share(g, AtGateway) ==
           Ledger(w.grants, AtGateway) + Share(g', AtGateway)
  {
    LedgerUpdate(w.grants, i, w.grants[i].(stage := stage), AwaitsTicket);
    LedgerUpdate(w.grants, i, w.grants[i].(stage := stage), AtGateway);
  }

  lemma TakenOut(a: multiset<Claims>, b: multiset<Claims>, claims: Claims)
    requires a + multiset{claims} == b + multiset{}
    ensures a == b - multiset{claims}
  {
    assert a == (a + multiset{claims}) - multiset{claims};
    assert b + multiset{} == b;
  }

  lemma NothingMoved(a: multiset<Claims>, b: multiset<Claims>)
    requires a + multiset{} == b + multiset{}
    ensures a == b
  {
    assert a + multiset{} == a && b + multiset{} == b;
  }
}

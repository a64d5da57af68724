// Where an accepted credential comes from: who issued it to whom, until when, and
// how it was looked up; and what issuing and claiming do to the stored rows.
module OneTimeHistory {
  import opened Prelude
  import opened OneTime

  // ------------------------------------------------ single steps, on the rows

  // Issuing a link adds one row and uses up the operator's others of that kind.
  lemma LinkIssued(t: Tables, kind: Kind, owner: int, id: int, secret: string, now: int,
                   expires: int)
    requires (kind, id) !in t.rows
    ensures
      var t' := IssuedLink(t, kind, owner, id, secret, now, expires);
      && t'.operators == t.operators && t'.issued == t.issued + 1
      && (forall i :: i in t'.rows <==> i in t.rows || i == (kind, id))
      && t'.rows[(kind, id)] == Credential(Some(owner), secret, NoBinding, Some(expires), None, t.issued)
      && forall i | i in t.rows ::
           t'.rows[i] == if i.0 == kind && t.rows[i].owner == Some(owner) && t.rows[i].used.None?
                         then t.rows[i].(used := Some(now)) else t.rows[i]
  {
  }

  lemma StateIssued(t: Tables, id: int, secret: string, binding: Binding, expires: int)
    requires (UaePassState, id) !in t.rows
    ensures
      var t' := IssuedState(t, id, secret, binding, expires);
      && t'.operators == t.operators && t'.issued == t.issued + 1
      && (forall i :: i in t'.rows <==> i in t.rows || i == (UaePassState, id))
      && t'.rows[(UaePassState, id)] == Credential(None, secret, binding, Some(expires), None, t.issued)
      && forall i | i in t.rows :: t'.rows[i] == t.rows[i]
  {
  }

  // Issuing codes replaces all of the operator's codes by the new ones.
  lemma CodesIssued(t: Tables, owner: int, ids: seq<int>, secrets: seq<string>)
    requires |ids| == |secrets| && Distinct(ids)
    requires forall n, i | i in t.rows && i == (BackupCode, n) && t.rows[i].owner != Some(owner) :: n !in ids
    ensures
      var t' := IssuedCodes(t, owner, ids, secrets);
      && t'.operators == t.operators && t'.issued == t.issued + |ids|
      && (forall i | i in t.rows && !(i.0 == BackupCode && t.rows[i].owner == Some(owner)) ::
            i in t'.rows && t'.rows[i] == t.rows[i])
      && (forall i | i in t'.rows && !(i in t.rows && !(i.0 == BackupCode && t.rows[i].owner == Some(owner))) ::
            i.0 == BackupCode && i.1 in ids)
      && forall k | 0 <= k < |ids| ::
           && (BackupCode, ids[k]) in t'.rows
           && t'.rows[(BackupCode, ids[k])] == Credential(Some(owner), secrets[k], NoBinding, None, None, t.issued + k)
  {
    CodesFrame(t.(rows := WithoutCodes(t, owner)), owner, ids, secrets);
  }

  // Claiming marks one row and does for its operator what the credential is for.
  lemma RowClaimed(t: Tables, id: RowId, now: int)
    requires id in t.rows && t.rows[id].used.None?
    ensures
      var t', owner := Claimed(t, id, now), t.rows[id].owner;
      && t'.issued == t.issued && t'.rows == t.rows[id := t.rows[id].(used := Some(now))]
      && t'.operators.Keys == t.operators.Keys
      && (forall o | o in t.operators && owner != Some(o) :: t'.operators[o] == t.operators[o])
      && forall o | o in t.operators && owner == Some(o) ::
           var before, after := t.operators[o], t'.operators[o];
           && (id.0 == Unlock ==> after == before.(failedLogins := 0, lockedUntil := None))
           && (id.0 == EmailVerify && before.emailVerifiedAt.None? ==> after == before.(emailVerifiedAt := Some(now)))
           && (id.0 == EmailVerify && before.emailVerifiedAt.Some? ==> after == before)
           && (id.0 == UaePassState || id.0 == BackupCode ==> after == before)
  {
  }

  // ------------------------------------------------ where a row comes from

  predicate IssuedBy(a: Action, row: RowId, c: Credential) {
    match a
    case IssueLink(kind, owner, id, secret, _, expires) =>
      && row == (kind, id) && c.secret == secret && c.owner == Some(owner) && c.expires == Some(expires)
    case IssueState(id, secret, binding, expires) =>
      && row == (UaePassState, id) && c.secret == secret && c.binding == binding && c.expires == Some(expires)
    case IssueCodes(owner, ids, secrets) =>
      && row.0 == BackupCode && c.owner == Some(owner)
      && exists k :: 0 <= k < |ids| && k < |secrets| && ids[k] == row.1 && secrets[k] == c.secret
    case _ => false
  }

  // Nothing but the mark of use ever changes in a row.
  ghost predicate SameButUsed(c: Credential, d: Credential) {
    d == c.(used := d.used)
  }

  lemma RowStep(s: State, a: Action, row: RowId)
    requires Enabled(s, a) && row in Step(s, a).tables.rows
    ensures
      var c := Step(s, a).tables.rows[row];
      if row in NewIds(a) then IssuedBy(a, row, c) else row in s.tables.rows && SameButUsed(s.tables.rows[row], c)
  {
    if a.IssueCodes? {
      CodesRow(s, a, row);
    }
  }

  lemma CodesRow(s: State, a: Action, row: RowId)
    requires a.IssueCodes? && Enabled(s, a) && row in Step(s, a).tables.rows
    ensures
      var c := Step(s, a).tables.rows[row];
      if row in NewIds(a) then IssuedBy(a, row, c) else row in s.tables.rows && s.tables.rows[row] == c
  {
    var t := s.tables.(rows := WithoutCodes(s.tables, a.owner));
    CodesFrame(t, a.owner, a.ids, a.secrets);
    if row !in t.rows {
      var k :| 0 <= k < |a.ids| && a.ids[k] == row.1;
      assert NewIds(a)[k] == row;
    }
    if row in NewIds(a) {
      var k :| 0 <= k < |a.ids| && NewIds(a)[k] == row;
      assert Step(s, a).tables.rows[(BackupCode, a.ids[k])] == Code(a.owner, a.secrets[k], t.issued + k);
    }
  }

  // Action i put the row there, and it was not put there anew before moment n.
  ghost predicate Origin(run: seq<State>, actions: seq<Action>, n: nat, row: RowId, i: int)
    requires n < |run| <= |actions| + 1 && row in run[n].tables.rows
  {
    && 0 <= i < n && IssuedBy(actions[i], row, run[n].tables.rows[row])
    && forall m | i < m < n :: row !in NewIds(actions[m])
  }

  lemma {:induction false} RowWasIssued(run: seq<State>, actions: seq<Action>, n: nat, row: RowId) returns (i: int)
    requires Run(run, actions) && n < |run| && row in run[n].tables.rows
    ensures Origin(run, actions, n, row, i)
  {
    if n == 0 {
      assert false;
    } else {
      assert Enabled(run[n - 1], actions[n - 1]) && run[n] == Step(run[n - 1], actions[n - 1]);
      RowStep(run[n - 1], actions[n - 1], row);
      if row in NewIds(actions[n - 1]) {
        i := n - 1;
      } else {
        i := RowWasIssued(run, actions, n - 1, row);
      }
    }
  }

  // ------------------------------------------------ how it was looked up

  // Links and states in time, states under their binding, codes by their operator,
  // unlock links while the operator is active.
  predicate Proper(t: Tables, row: RowId, secret: string, caller: Option<int>, binding: Binding, now: int) {
    && row in t.rows && t.rows[row].secret == secret && t.rows[row].used.None?
    && (row.0 != BackupCode ==> t.rows[row].expires.Some? && now <= t.rows[row].expires.value)
    && (row.0 == UaePassState ==> t.rows[row].binding == binding)
    && (row.0 == BackupCode ==> t.rows[row].owner == caller)
    && (row.0 == Unlock ==>
          && t.rows[row].owner.Some? && t.rows[row].owner.value in t.operators
          && t.operators[t.rows[row].owner.value].active)
  }

  // A lookup finds exactly that.
  lemma UsableExactly(t: Tables, row: RowId, secret: string, caller: Option<int>, binding: Binding,
                      now: int)
    ensures Usable(t, row, secret, caller, binding, now) <==> Proper(t, row, secret, caller, binding, now)
  {
  }

  // Lookup j, by redeemer r, found what r has in flight at moment n.
  ghost predicate FoundAt(run: seq<State>, actions: seq<Action>, n: nat, r: int, j: int)
    requires n < |run| == |actions| + 1 && r in run[n].pending
  {
    && 0 <= j < n && actions[j].Lookup? && actions[j].redeemer == r
    && actions[j].row == run[n].pending[r].id && actions[j].secret == run[n].pending[r].secret
    && Proper(run[j].tables, actions[j].row, actions[j].secret, actions[j].caller, actions[j].binding, actions[j].now)
  }

  lemma PendingStep(s: State, a: Action, r: int)
    requires Enabled(s, a) && r in Step(s, a).pending
    ensures
      var f := Step(s, a).pending[r];
      || (r in s.pending && s.pending[r] == f)
      || (&& a.Lookup? && a.redeemer == r && a.row == f.id && a.secret == f.secret
          && Proper(s.tables, a.row, a.secret, a.caller, a.binding, a.now))
  {
    if a.Lookup? {
      UsableExactly(s.tables, a.row, a.secret, a.caller, a.binding, a.now);
    }
  }

  lemma {:induction false} PendingWasFound(run: seq<State>, actions: seq<Action>, n: nat, r: int) returns (j: int)
    requires Run(run, actions) && n < |run| && r in run[n].pending
    ensures FoundAt(run, actions, n, r, j)
  {
    if n == 0 {
      assert false;
    } else {
      assert Enabled(run[n - 1], actions[n - 1]) && run[n] == Step(run[n - 1], actions[n - 1]);
      PendingStep(run[n - 1], actions[n - 1], r);
      if r in run[n - 1].pending && run[n - 1].pending[r] == run[n].pending[r] {
        j := PendingWasFound(run, actions, n - 1, r);
      } else {
        j := n - 1;
      }
    }
  }

  // ------------------------------------------------ every acceptance

  // Action i issued what lookup j found, and j came in time and from the right party.
  ghost predicate InOrder(issue: Action, lookup: Action)
  {
    && lookup.Lookup?
    && match issue
       case IssueLink(kind, owner, id, secret, _, expires) =>
         lookup.row == (kind, id) && lookup.secret == secret && lookup.now <= expires
       case IssueState(id, secret, binding, expires) =>
         && lookup.row == (UaePassState, id) && lookup.secret == secret && lookup.now <= expires
         && lookup.binding == binding
       case IssueCodes(owner, ids, secrets) =>
         && lookup.row.0 == BackupCode && lookup.caller == Some(owner)
         && exists k :: 0 <= k < |ids| && k < |secrets| && ids[k] == lookup.row.1 && secrets[k] == lookup.secret
       case _ => false
  }

  // Under every interleaving, a claim that is accepted follows a lookup by the same
  // redeemer, of the row that the latest issue under its id put there: a link or a
  // state no later than the expiry that issue gave it, a state under the binding it
  // was issued with, a code by the operator it was issued to.
  lemma AcceptedInOrder(run: seq<State>, actions: seq<Action>, k: nat) returns (i: int, j: int)
    requires Run(run, actions) && k < |actions| && run[k + 1].accepted != run[k].accepted
    ensures actions[k].ClaimRow? && 0 <= i < j < k
    ensures InOrder(actions[i], actions[j]) && actions[j].redeemer == actions[k].redeemer
    ensures forall m | i < m < j :: actions[j].row !in NewIds(actions[m])
    ensures run[k + 1].accepted == run[k].accepted + [(actions[j].row.0, actions[j].secret)]
  {
    assert Enabled(run[k], actions[k]) && run[k + 1] == Step(run[k], actions[k]);
    AcceptedByClaim(run[k], actions[k]);
    j := PendingWasFound(run, actions, k, actions[k].redeemer);
    i := RowWasIssued(run, actions, j, actions[j].row);
    OriginInOrder(run, actions, i, j);
  }

  lemma AcceptedByClaim(s: State, a: Action)
    requires Enabled(s, a) && Step(s, a).accepted != s.accepted
    ensures a.ClaimRow? && a.redeemer in s.pending
    ensures Step(s, a).accepted == s.accepted + [(s.pending[a.redeemer].id.0, s.pending[a.redeemer].secret)]
  {
  }

  lemma OriginInOrder(run: seq<State>, actions: seq<Action>, i: int, j: nat)
    requires Run(run, actions) && j < |actions| && actions[j].Lookup? && actions[j].row in run[j].tables.rows
    requires Origin(run, actions, j, actions[j].row, i)
    requires Proper(run[j].tables, actions[j].row, actions[j].secret, actions[j].caller, actions[j].binding,
                    actions[j].now)
    ensures InOrder(actions[i], actions[j])
  {
    assert Enabled(run[i], actions[i]);
  }

  // Conversely a lookup in order is accepted once claimed, if nothing came between
  // and, for an unlock link, the operator is active.
  lemma InOrderAccepted(s: State, issue: Action, lookup: Action, now: int)
    requires Enabled(s, issue) && InOrder(issue, lookup)
    requires issue.IssueLink? && issue.kind == Unlock ==>
      issue.owner in s.tables.operators && s.tables.operators[issue.owner].active
    ensures
      var found := Step(Step(s, issue), lookup);
      Step(found, ClaimRow(lookup.redeemer, now)).accepted == s.accepted + [(lookup.row.0, lookup.secret)]
  {
    var t := Step(s, issue).tables;
    match issue {
      case IssueLink(kind, owner, id, secret, at, expires) =>
        LinkIssued(s.tables, kind, owner, id, secret, at, expires);
      case IssueState(id, secret, binding, expires) =>
        StateIssued(s.tables, id, secret, binding, expires);
      case IssueCodes(owner, ids, secrets) =>
        CodesIssued(s.tables, owner, ids, secrets);
    }
    UsableExactly(t, lookup.row, lookup.secret, lookup.caller, lookup.binding, lookup.now);
  }

  // When every lookup comes after every expiry of the row it asks for, under another
  // binding, or from another operator, nothing is ever accepted.
  lemma {:induction false} NothingOutOfOrder(run: seq<State>, actions: seq<Action>, k: nat)
    requires Run(run, actions) && k < |run|
    requires forall i, j | 0 <= i < j < |actions| :: !InOrder(actions[i], actions[j])
    ensures run[k].accepted == []
  {
    if k > 0 {
      NothingOutOfOrder(run, actions, k - 1);
      if run[k].accepted != run[k - 1].accepted {
        var i, j := AcceptedInOrder(run, actions, k - 1);
      }
    }
  }

  // An unlock link that expires at 1000 and is looked up at 5000 is of no use.
  lemma ExpiredLinkRefused(owner: int, id: int, secret: string, run: seq<State>,
                           actions: seq<Action>)
    requires Run(run, actions)
    requires actions == [IssueLink(Unlock, owner, id, secret, 0, 1000),
                         Lookup(1, (Unlock, id), secret, None, NoBinding, 5000), ClaimRow(1, 5000)]
    ensures run[3].accepted == []
  {
    NothingOutOfOrder(run, actions, 3);
  }
}

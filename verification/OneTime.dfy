// Single-use credentials: unlock links, email-verification links, UAE PASS states
// and MFA backup codes. Redeeming one is a lookup followed by a conditional
// UPDATE; any number of redeemers may interleave with each other and with new
// credentials being issued.
module OneTime {
  import opened Prelude

  datatype Kind = Unlock | EmailVerify | UaePassState | BackupCode

  // What a UAE PASS state is bound to.
  datatype Binding = NoBinding | OperatorSso | CustomerVerification(org: Option<int>, customer: Option<int>)

  // A row of the table of one kind. The numbers of deleted rows may come back.
  type RowId = (Kind, int)

  // A secret as presented to the redeemer of one kind.
  type Token = (Kind, string)

  // secret: the hash of the raw credential, or the code an argon2 hash verifies.
  // serial numbers the insertions.
  datatype Credential = Credential(
    owner: Option<int>, secret: string, binding: Binding, expires: Option<int>, used: Option<int>, serial: nat)

  datatype Operator = Operator(active: bool, failedLogins: nat, lockedUntil: Option<int>, emailVerifiedAt: Option<int>)

  datatype Tables = Tables(rows: map<RowId, Credential>, operators: map<int, Operator>, issued: nat)

  // ------------------------------------------------ lookup

  predicate OwnerActive(t: Tables, c: Credential) {
    c.owner.Some? && c.owner.value in t.operators && t.operators[c.owner.value].active
  }

  // What the SELECT of each redeemer accepts.
  predicate Usable(t: Tables, id: RowId, secret: string, caller: Option<int>, binding: Binding, now: int) {
    && id in t.rows
    && var c := t.rows[id];
       && c.secret == secret && c.used.None?
       && match id.0
          case Unlock => OwnerActive(t, c) && c.expires.Some? && c.expires.value >= now
          case EmailVerify => c.expires.Some? && c.expires.value >= now
          case UaePassState => c.expires.Some? && c.expires.value >= now && c.binding == binding
          case BackupCode => c.owner == caller
  }

  // ------------------------------------------------ claim

  predicate Claimable(t: Tables, id: RowId) {
    id in t.rows && t.rows[id].used.None?
  }

  predicate IsLink(kind: Kind) {
    kind.Unlock? || kind.EmailVerify?
  }

  // What redeeming a credential does besides marking it used.
  function OperatorAfter(o: Operator, kind: Kind, now: int): Operator {
    match kind
    case Unlock => o.(failedLogins := 0, lockedUntil := None)
    case EmailVerify => if o.emailVerifiedAt.None? then o.(emailVerifiedAt := Some(now)) else o
    case UaePassState => o
    case BackupCode => o
  }

  function Claimed(t: Tables, id: RowId, now: int): Tables
    requires Claimable(t, id)
  {
    var c := t.rows[id];
    t.(rows := t.rows[id := c.(used := Some(now))],
       operators := if c.owner.Some? && c.owner.value in t.operators
                    then t.operators[c.owner.value := OperatorAfter(t.operators[c.owner.value], id.0, now)]
                    else t.operators)
  }

  // ------------------------------------------------ issue

  predicate SamePool(id: RowId, c: Credential, kind: Kind, owner: int) {
    id.0 == kind && c.owner == Some(owner)
  }

  function Voided(rows: map<RowId, Credential>, kind: Kind, owner: int, now: int): map<RowId, Credential> {
    map i | i in rows ::
      if SamePool(i, rows[i], kind, owner) && rows[i].used.None? then rows[i].(used := Some(now)) else rows[i]
  }

  // Unlock and email links: every earlier unused one of the operator is voided.
  function IssuedLink(t: Tables, kind: Kind, owner: int, id: int, secret: string, now: int, expires: int): Tables {
    t.(rows := Voided(t.rows, kind, owner, now)[(kind, id) :=
         Credential(Some(owner), secret, NoBinding, Some(expires), None, t.issued)],
       issued := t.issued + 1)
  }

  function IssuedState(t: Tables, id: int, secret: string, binding: Binding, expires: int): Tables {
    t.(rows := t.rows[(UaePassState, id) := Credential(None, secret, binding, Some(expires), None, t.issued)],
       issued := t.issued + 1)
  }

  // Backup codes: the operator's old rows are deleted, then new ones inserted.
  const BACKUP_CODES := 10

  function WithoutCodes(t: Tables, owner: int): map<RowId, Credential> {
    map i | i in t.rows && !SamePool(i, t.rows[i], BackupCode, owner) :: t.rows[i]
  }

  function Code(owner: int, secret: string, serial: nat): Credential {
    Credential(Some(owner), secret, NoBinding, None, None, serial)
  }

  function WithCode(t: Tables, owner: int, id: int, secret: string): Tables {
    t.(rows := t.rows[(BackupCode, id) := Code(owner, secret, t.issued)], issued := t.issued + 1)
  }

  function WithCodes(t: Tables, owner: int, ids: seq<int>, secrets: seq<string>): Tables
    requires |ids| == |secrets|
    decreases |ids|
  {
    if ids == [] then t else WithCodes(WithCode(t, owner, ids[0], secrets[0]), owner, ids[1..], secrets[1..])
  }

  function IssuedCodes(t: Tables, owner: int, ids: seq<int>, secrets: seq<string>): Tables
    requires |ids| == |secrets|
  {
    WithCodes(t.(rows := WithoutCodes(t, owner)), owner, ids, secrets)
  }

  // ------------------------------------------------ the store

  class CredentialStore {
    var rows: map<RowId, Credential>
    var operators: map<int, Operator>
    var issued: nat

    function View(): Tables
      reads this
    {
      Tables(rows, operators, issued)
    }

    constructor (operators: map<int, Operator>)
      ensures View() == Tables(map[], operators, 0)
    {
      rows, this.operators, issued := map[], operators, 0;
    }

    method CreateLink(kind: Kind, owner: int, id: int, secret: string, now: int, expires: int)
      requires IsLink(kind) && (kind, id) !in rows
      modifies this
      ensures View() == IssuedLink(old(View()), kind, owner, id, secret, now, expires)
    {
      ghost var before := View();
      rows := map i | i in rows ::
        if SamePool(i, rows[i], kind, owner) && rows[i].used.None? then rows[i].(used := Some(now)) else rows[i];
      assert rows == Voided(before.rows, kind, owner, now);
      rows := rows[(kind, id) := Credential(Some(owner), secret, NoBinding, Some(expires), None, issued)];
      issued := issued + 1;
    }

    method GenerateBackupCodes(owner: int, ids: seq<int>, secrets: seq<string>)
      requires |ids| == |secrets| == BACKUP_CODES
      modifies this
      ensures View() == IssuedCodes(old(View()), owner, ids, secrets)
    {
      ghost var before := View();
      ghost var target := IssuedCodes(before, owner, ids, secrets);
      rows := map i | i in rows && !SamePool(i, rows[i], BackupCode, owner) :: rows[i];
      assert rows == WithoutCodes(before, owner);
      assert ids[0..] == ids && secrets[0..] == secrets;
      var n := 0;
      while n < BACKUP_CODES
        invariant 0 <= n <= |ids|
        invariant WithCodes(View(), owner, ids[n..], secrets[n..]) == target
      {
        assert ids[n..][1..] == ids[n + 1..] && secrets[n..][1..] == secrets[n + 1..];
        rows := rows[(BackupCode, ids[n]) := Credential(Some(owner), secrets[n], NoBinding, None, None, issued)];
        issued := issued + 1;
        n := n + 1;
      }
    }

    // The redeemer's read: id is the row its WHERE clause selects.
    method Lookup(id: RowId, secret: string, caller: Option<int>, binding: Binding, now: int) returns (found: bool)
      requires id in rows && rows[id].secret == secret
      ensures found <==> Usable(View(), id, secret, caller, binding, now)
    {
      var c := rows[id];
      if c.used.Some? {
        return false;
      }
      if id.0.BackupCode? {
        return c.owner == caller;
      }
      if id.0.Unlock? && !(c.owner.Some? && c.owner.value in operators && operators[c.owner.value].active) {
        return false;
      }
      if c.expires.None? || c.expires.value < now {
        return false;
      }
      return !id.0.UaePassState? || c.binding == binding;
    }

    // A losing claimant changes nothing.
    method Claim(id: RowId, now: int) returns (won: bool)
      modifies this
      ensures won <==> Claimable(old(View()), id)
      ensures View() == if won then Claimed(old(View()), id, now) else old(View())
    {
      if !(id in rows && rows[id].used.None?) {
        return false;
      }
      var c := rows[id];
      rows := rows[id := c.(used := Some(now))];
      if c.owner.Some? && c.owner.value in operators {
        var o := operators[c.owner.value];
        if id.0.Unlock? {
          o := o.(failedLogins := 0, lockedUntil := None);
        } else if id.0.EmailVerify? && o.emailVerifiedAt.None? {
          o := o.(emailVerifiedAt := Some(now));
        }
        operators := operators[c.owner.value := o];
      }
      return true;
    }
  }

  // ------------------------------------------------ interleaved redeemers

  // A redeemer between its lookup and its claim.
  datatype InFlight = InFlight(id: RowId, secret: string) {
    function Presented(): Token {
      (id.0, secret)
    }
  }

  // redeemed: the serials, and accepted: the presented secrets, of all claims won.
  datatype State = State(tables: Tables, pending: map<int, InFlight>, redeemed: seq<nat>, accepted: seq<Token>)

  // Delete: a row that goes with its customer or operator (ON DELETE CASCADE).
  datatype Action =
    | IssueLink(kind: Kind, owner: int, id: int, secret: string, now: int, expires: int)
    | IssueState(id: int, secret: string, binding: Binding, expires: int)
    | IssueCodes(owner: int, ids: seq<int>, secrets: seq<string>)
    | Delete(row: RowId)
    | Lookup(redeemer: int, row: RowId, secret: string, caller: Option<int>, binding: Binding, now: int)
    | ClaimRow(redeemer: int, now: int)

  predicate Distinct<T(==)>(s: seq<T>) {
    forall i, j | 0 <= i < j < |s| :: s[i] != s[j]
  }

  // New rows take ids that no remaining row has.
  predicate Enabled(s: State, a: Action) {
    match a
    case IssueLink(kind, _, id, _, _, _) => IsLink(kind) && (kind, id) !in s.tables.rows
    case IssueState(id, _, _, _) => (UaePassState, id) !in s.tables.rows
    case IssueCodes(owner, ids, secrets) =>
      && |ids| == |secrets| == BACKUP_CODES && Distinct(ids)
      && forall i | i in ids :: (BackupCode, i) !in WithoutCodes(s.tables, owner)
    case Delete(_) => true
    case Lookup(_, _, _, _, _, _) => true
    case ClaimRow(_, _) => true
  }

  function Step(s: State, a: Action): State
    requires Enabled(s, a)
  {
    match a
    case IssueLink(kind, owner, id, secret, now, expires) =>
      s.(tables := IssuedLink(s.tables, kind, owner, id, secret, now, expires))
    case IssueState(id, secret, binding, expires) =>
      s.(tables := IssuedState(s.tables, id, secret, binding, expires))
    case IssueCodes(owner, ids, secrets) =>
      s.(tables := IssuedCodes(s.tables, owner, ids, secrets))
    case Delete(row) =>
      s.(tables := s.tables.(rows := s.tables.rows - {row}))
    case Lookup(r, row, secret, caller, binding, now) =>
      if Usable(s.tables, row, secret, caller, binding, now)
      then s.(pending := s.pending[r := InFlight(row, secret)]) else s
    case ClaimRow(r, now) =>
      if r !in s.pending then s
      else
        var f := s.pending[r];
        if Claimable(s.tables, f.id)
        then State(Claimed(s.tables, f.id, now), s.pending - {r},
                   s.redeemed + [s.tables.rows[f.id].serial], s.accepted + [f.Presented()])
        else s.(pending := s.pending - {r})
  }

  predicate Initial(s: State) {
    s.tables.rows == map[] && s.tables.issued == 0 && s.pending == map[] && s.redeemed == [] && s.accepted == []
  }

  ghost predicate Run(run: seq<State>, actions: seq<Action>) {
    && |run| == |actions| + 1 && Initial(run[0])
    && forall i | 0 <= i < |actions| :: Enabled(run[i], actions[i]) && run[i + 1] == Step(run[i], actions[i])
  }

  // ------------------------------------------------ what issuing codes does

  lemma TailIds(t: Tables, owner: int, ids: seq<int>, secrets: seq<string>)
    requires |ids| == |secrets| > 0 && Distinct(ids) && forall i | i in ids :: (BackupCode, i) !in t.rows
    ensures Distinct(ids[1..])
    ensures forall i | i in ids[1..] :: (BackupCode, i) !in WithCode(t, owner, ids[0], secrets[0]).rows
  {
    forall i | i in ids[1..]
      ensures i != ids[0] && i in ids
    {
      var k :| 0 <= k < |ids| - 1 && ids[1..][k] == i;
      assert ids[k + 1] == i && ids[0] != ids[k + 1];
    }
  }

  // New codes are unused rows under exactly the new ids; every other row stays.
  lemma {:induction false} CodesFrame(t: Tables, owner: int, ids: seq<int>, secrets: seq<string>)
    requires |ids| == |secrets| && Distinct(ids) && forall i | i in ids :: (BackupCode, i) !in t.rows
    ensures
      var t' := WithCodes(t, owner, ids, secrets);
      && t'.operators == t.operators && t'.issued == t.issued + |ids|
      && (forall i | i in t.rows :: i in t'.rows && t'.rows[i] == t.rows[i])
      && (forall i | i in t'.rows && i !in t.rows :: i.0 == BackupCode && i.1 in ids)
      && (forall k | 0 <= k < |ids| ::
            (BackupCode, ids[k]) in t'.rows && t'.rows[(BackupCode, ids[k])] == Code(owner, secrets[k], t.issued + k))
    decreases |ids|
  {
    if ids != [] {
      TailIds(t, owner, ids, secrets);
      var next := WithCode(t, owner, ids[0], secrets[0]);
      CodesFrame(next, owner, ids[1..], secrets[1..]);
      var t' := WithCodes(t, owner, ids, secrets);
      forall k | 0 <= k < |ids|
        ensures (BackupCode, ids[k]) in t'.rows &&
          t'.rows[(BackupCode, ids[k])] == Code(owner, secrets[k], t.issued + k)
      {
        if k > 0 {
          assert ids[1..][k - 1] == ids[k] && secrets[1..][k - 1] == secrets[k];
        }
      }
    }
  }

  // ------------------------------------------------ each row at most once

  ghost predicate Sound(t: Tables, redeemed: seq<nat>) {
    && (forall i | i in t.rows :: t.rows[i].serial < t.issued)
    && (forall i, j | i in t.rows && j in t.rows && i != j :: t.rows[i].serial != t.rows[j].serial)
    && Distinct(redeemed)
    && (forall n | n in redeemed :: n < t.issued)
    && (forall i | i in t.rows && t.rows[i].serial in redeemed :: t.rows[i].used.Some?)
  }

  lemma {:induction false} CodesKeepSound(t: Tables, owner: int, ids: seq<int>, secrets: seq<string>,
                                          redeemed: seq<nat>)
    requires |ids| == |secrets| && Distinct(ids) && forall i | i in ids :: (BackupCode, i) !in t.rows
    requires Sound(t, redeemed)
    ensures Sound(WithCodes(t, owner, ids, secrets), redeemed)
    decreases |ids|
  {
    if ids != [] {
      TailIds(t, owner, ids, secrets);
      CodesKeepSound(WithCode(t, owner, ids[0], secrets[0]), owner, ids[1..], secrets[1..], redeemed);
    }
  }

  lemma ClaimKeepsSound(s: State, id: RowId, now: int)
    requires Sound(s.tables, s.redeemed) && Claimable(s.tables, id)
    ensures Sound(Claimed(s.tables, id, now), s.redeemed + [s.tables.rows[id].serial])
  {
  }

  lemma StepKeepsSound(s: State, a: Action)
    requires Sound(s.tables, s.redeemed) && Enabled(s, a)
    ensures Sound(Step(s, a).tables, Step(s, a).redeemed)
  {
    match a
    case IssueCodes(owner, ids, secrets) =>
      CodesKeepSound(s.tables.(rows := WithoutCodes(s.tables, owner)), owner, ids, secrets, s.redeemed);
    case ClaimRow(r, now) =>
      if r in s.pending && Claimable(s.tables, s.pending[r].id) {
        ClaimKeepsSound(s, s.pending[r].id, now);
      }
    case _ =>
  }

  // Under every interleaving no stored credential is redeemed twice.
  lemma {:induction false} EachRowOnce(run: seq<State>, actions: seq<Action>, k: nat)
    requires Run(run, actions) && k < |run|
    ensures Sound(run[k].tables, run[k].redeemed) && Distinct(run[k].redeemed)
  {
    if k > 0 {
      EachRowOnce(run, actions, k - 1);
      assert run[k] == Step(run[k - 1], actions[k - 1]);
      StepKeepsSound(run[k - 1], actions[k - 1]);
    }
  }

  // ------------------------------------------------ one live link per operator

  ghost predicate OneLive(t: Tables) {
    forall i, j | && i in t.rows && j in t.rows && i != j && IsLink(i.0) && i.0 == j.0
                  && t.rows[i].owner == t.rows[j].owner ::
      t.rows[i].used.Some? || t.rows[j].used.Some?
  }

  // Issuing a link voids every earlier one, so at most one is ever live.
  lemma IssueVoidsEarlier(t: Tables, kind: Kind, owner: int, id: int, secret: string, now: int, expires: int)
    requires (kind, id) !in t.rows
    ensures forall i | i in t.rows && SamePool(i, t.rows[i], kind, owner) ::
      i in IssuedLink(t, kind, owner, id, secret, now, expires).rows
      && IssuedLink(t, kind, owner, id, secret, now, expires).rows[i].used.Some?
  {
  }

  // A step keeps at most one live, and never revives a used link.
  lemma StepKeepsOneLive(s: State, a: Action)
    requires OneLive(s.tables) && Enabled(s, a)
    ensures OneLive(Step(s, a).tables)
    ensures forall i | i in s.tables.rows && IsLink(i.0) && i in Step(s, a).tables.rows ::
      s.tables.rows[i].used.Some? ==> Step(s, a).tables.rows[i].used == s.tables.rows[i].used
  {
    match a
    case IssueCodes(owner, ids, secrets) =>
      CodesFrame(s.tables.(rows := WithoutCodes(s.tables, owner)), owner, ids, secrets);
    case _ =>
  }

  lemma {:induction false} AtMostOneLive(run: seq<State>, actions: seq<Action>, k: nat)
    requires Run(run, actions) && k < |run|
    ensures OneLive(run[k].tables)
  {
    if k > 0 {
      AtMostOneLive(run, actions, k - 1);
      assert run[k] == Step(run[k - 1], actions[k - 1]);
      StepKeepsOneLive(run[k - 1], actions[k - 1]);
    }
  }

  // ------------------------------------------------ each secret at most once

  // The secrets an action brings into the world.
  function NewSecrets(a: Action): seq<Token> {
    match a
    case IssueLink(kind, _, _, secret, _, _) => [(kind, secret)]
    case IssueState(_, secret, _, _) => [(UaePassState, secret)]
    case IssueCodes(_, _, secrets) => seq(|secrets|, i requires 0 <= i < |secrets| => (BackupCode, secrets[i]))
    case _ => []
  }

  function TokenAt(t: Tables, i: RowId): Token
    requires i in t.rows
  {
    (i.0, t.rows[i].secret)
  }

  // Neither stored, nor in flight, nor accepted so far.
  ghost predicate Unseen(s: State, x: Token) {
    && x !in s.accepted
    && (forall i | i in s.tables.rows :: TokenAt(s.tables, i) != x)
    && (forall r | r in s.pending :: s.pending[r].Presented() != x)
  }

  ghost predicate FreshSecrets(s: State, a: Action) {
    Distinct(NewSecrets(a)) && forall x | x in NewSecrets(a) :: Unseen(s, x)
  }

  function NewIds(a: Action): seq<RowId> {
    match a
    case IssueLink(kind, _, id, _, _, _) => [(kind, id)]
    case IssueState(id, _, _, _) => [(UaePassState, id)]
    case IssueCodes(_, ids, _) => seq(|ids|, i requires 0 <= i < |ids| => (BackupCode, ids[i]))
    case _ => []
  }

  // No new row takes the id that a redeemer is about to claim with a secret that
  // has been accepted already.
  ghost predicate SpentIdsFree(s: State, a: Action) {
    forall r | r in s.pending && s.pending[r].Presented() in s.accepted :: s.pending[r].id !in NewIds(a)
  }

  // Such a redeemer finds a used row or none.
  ghost predicate Safe(s: State) {
    forall r | r in s.pending && s.pending[r].Presented() in s.accepted :: !Claimable(s.tables, s.pending[r].id)
  }

  ghost predicate SecretsDistinct(t: Tables) {
    forall i, j | i in t.rows && j in t.rows && i != j :: TokenAt(t, i) != TokenAt(t, j)
  }

  ghost predicate PendingAgree(s: State) {
    forall r, q | r in s.pending && q in s.pending && s.pending[r].Presented() == s.pending[q].Presented() ::
      s.pending[r].id == s.pending[q].id
  }

  ghost predicate PendingFound(s: State) {
    forall r, i | r in s.pending && i in s.tables.rows && TokenAt(s.tables, i) == s.pending[r].Presented() ::
      i == s.pending[r].id
  }

  ghost predicate SpentUsed(s: State) {
    forall i | i in s.tables.rows && TokenAt(s.tables, i) in s.accepted :: s.tables.rows[i].used.Some?
  }

  // Every secret leads to one row, and to an unused one only before it is spent.
  ghost predicate Traced(s: State) {
    SecretsDistinct(s.tables) && PendingAgree(s) && PendingFound(s) && SpentUsed(s) && Distinct(s.accepted)
  }

  // A row of t' is an old one, perhaps voided, or a new one with an unseen secret.
  ghost predicate Carried(s: State, t': Tables, i: RowId)
    requires i in t'.rows
  {
    i in s.tables.rows && TokenAt(t', i) == TokenAt(s.tables, i)
    && (s.tables.rows[i].used.Some? ==> t'.rows[i].used.Some?)
  }

  ghost predicate New(s: State, t': Tables, i: RowId)
    requires i in t'.rows
  {
    t'.rows[i].used.None? && Unseen(s, TokenAt(t', i))
  }

  // What issuing does to the tables.
  ghost predicate Added(s: State, t': Tables, ids: seq<RowId>) {
    && (forall i | i in ids :: i in t'.rows && New(s, t', i))
    && (forall i | i in t'.rows && i !in ids :: Carried(s, t', i))
    && (forall i, j | i in ids && j in ids && i != j :: TokenAt(t', i) != TokenAt(t', j))
  }

  lemma AddedTraced(s: State, t': Tables, ids: seq<RowId>)
    requires Traced(s) && Added(s, t', ids)
    ensures Traced(s.(tables := t'))
  {
    forall i, j | i in t'.rows && j in t'.rows && i != j
      ensures TokenAt(t', i) != TokenAt(t', j)
    {
      if i !in ids && j !in ids {
        assert Carried(s, t', i) && Carried(s, t', j);
      } else if i !in ids {
        assert Carried(s, t', i) && New(s, t', j);
      } else if j !in ids {
        assert New(s, t', i) && Carried(s, t', j);
      }
    }
  }

  // It stays safe if and only if no new row takes a spent redeemer's id.
  lemma AddedSafeIff(s: State, t': Tables, ids: seq<RowId>)
    requires Safe(s) && Added(s, t', ids)
    ensures Safe(s.(tables := t'))
       <==> forall r | r in s.pending && s.pending[r].Presented() in s.accepted :: s.pending[r].id !in ids
  {
    forall r | r in s.pending && s.pending[r].Presented() in s.accepted
      ensures Claimable(t', s.pending[r].id) <==> s.pending[r].id in ids
    {
      var id := s.pending[r].id;
      if id in ids {
        assert New(s, t', id);
      } else if id in t'.rows {
        assert Carried(s, t', id) && !Claimable(s.tables, id);
      }
    }
  }

  lemma LinkAdded(s: State, a: Action)
    requires (a.IssueLink? || a.IssueState?) && Enabled(s, a) && FreshSecrets(s, a)
    ensures Added(s, Step(s, a).tables, NewIds(a))
  {
    assert NewSecrets(a)[0] in NewSecrets(a);
  }

  lemma CodeNew(s: State, a: Action, k: nat)
    requires a.IssueCodes? && Enabled(s, a) && FreshSecrets(s, a) && k < |a.ids|
    ensures
      var t', id := Step(s, a).tables, NewIds(a)[k];
      id in t'.rows && New(s, t', id) && TokenAt(t', id) == NewSecrets(a)[k]
  {
    CodesFrame(s.tables.(rows := WithoutCodes(s.tables, a.owner)), a.owner, a.ids, a.secrets);
    assert Step(s, a).tables.rows[(BackupCode, a.ids[k])] == Code(a.owner, a.secrets[k], s.tables.issued + k);
    assert NewSecrets(a)[k] in NewSecrets(a);
  }

  lemma OthersCarried(s: State, a: Action)
    requires a.IssueCodes? && Enabled(s, a)
    ensures forall i | i in Step(s, a).tables.rows && i !in NewIds(a) :: Carried(s, Step(s, a).tables, i)
  {
    CodesFrame(s.tables.(rows := WithoutCodes(s.tables, a.owner)), a.owner, a.ids, a.secrets);
    forall i | i in Step(s, a).tables.rows && i !in WithoutCodes(s.tables, a.owner)
      ensures i in NewIds(a)
    {
      var k :| 0 <= k < |a.ids| && a.ids[k] == i.1;
      assert NewIds(a)[k] == i;
    }
  }

  lemma CodesAdded(s: State, a: Action)
    requires a.IssueCodes? && Enabled(s, a) && FreshSecrets(s, a)
    ensures Added(s, Step(s, a).tables, NewIds(a))
  {
    var t', ids := Step(s, a).tables, NewIds(a);
    forall i | i in ids
      ensures exists k :: && 0 <= k < |ids| && ids[k] == i && i in t'.rows && New(s, t', i)
                          && TokenAt(t', i) == NewSecrets(a)[k]
    {
      var k :| 0 <= k < |ids| && ids[k] == i;
      CodeNew(s, a, k);
    }
    OthersCarried(s, a);
  }

  lemma WonTraced(s: State, r: int, now: int)
    requires Traced(s) && Safe(s) && r in s.pending && Claimable(s.tables, s.pending[r].id)
    ensures Traced(Step(s, ClaimRow(r, now))) && Safe(Step(s, ClaimRow(r, now)))
  {
    var f, s' := s.pending[r], Step(s, ClaimRow(r, now));
    assert f.Presented() !in s.accepted;
    forall i | i in s'.tables.rows
      ensures i in s.tables.rows && TokenAt(s'.tables, i) == TokenAt(s.tables, i)
      ensures i == f.id ==> s'.tables.rows[i].used.Some?
      ensures i != f.id ==> s'.tables.rows[i] == s.tables.rows[i]
    {
    }
    assert SecretsDistinct(s'.tables) && PendingAgree(s') && PendingFound(s') && SpentUsed(s');
    forall q | q in s'.pending && s'.pending[q].Presented() in s'.accepted
      ensures !Claimable(s'.tables, s'.pending[q].id)
    {
      assert q in s.pending && s.pending[q] == s'.pending[q];
      if s.pending[q].Presented() == f.Presented() {
        assert s.pending[q].id == f.id;
      } else {
        assert !Claimable(s.tables, s.pending[q].id);
      }
    }
  }

  lemma ClaimTraced(s: State, r: int, now: int)
    requires Traced(s) && Safe(s)
    ensures Traced(Step(s, ClaimRow(r, now))) && Safe(Step(s, ClaimRow(r, now)))
  {
    if r in s.pending && Claimable(s.tables, s.pending[r].id) {
      WonTraced(s, r, now);
    }
  }

  lemma LookupTraced(s: State, a: Action)
    requires Traced(s) && Safe(s) && a.Lookup?
    ensures Traced(Step(s, a)) && Safe(Step(s, a))
  {
    if Usable(s.tables, a.row, a.secret, a.caller, a.binding, a.now) {
      assert TokenAt(s.tables, a.row) == InFlight(a.row, a.secret).Presented();
    }
  }

  // One step keeps one-time acceptance if and only if its new rows avoid the ids
  // of spent redeemers.
  lemma StepSafeIff(s: State, a: Action)
    requires Traced(s) && Safe(s) && Enabled(s, a) && FreshSecrets(s, a)
    ensures Traced(Step(s, a))
    ensures Safe(Step(s, a)) <==> SpentIdsFree(s, a)
  {
    match a
    case IssueLink(_, _, _, _, _, _) =>
      LinkAdded(s, a);
      AddedTraced(s, Step(s, a).tables, NewIds(a));
      AddedSafeIff(s, Step(s, a).tables, NewIds(a));
    case IssueState(_, _, _, _) =>
      LinkAdded(s, a);
      AddedTraced(s, Step(s, a).tables, NewIds(a));
      AddedSafeIff(s, Step(s, a).tables, NewIds(a));
    case IssueCodes(_, _, _) =>
      CodesAdded(s, a);
      AddedTraced(s, Step(s, a).tables, NewIds(a));
      AddedSafeIff(s, Step(s, a).tables, NewIds(a));
    case Delete(_) =>
    case Lookup(_, _, _, _, _, _) => LookupTraced(s, a);
    case ClaimRow(r, now) => ClaimTraced(s, r, now);
  }

  // Where it is not safe, the next claim of that redeemer accepts its secret twice.
  lemma UnsafeDoubles(s: State, r: int, now: int)
    requires r in s.pending && s.pending[r].Presented() in s.accepted && Claimable(s.tables, s.pending[r].id)
    ensures !Distinct(Step(s, ClaimRow(r, now)).accepted)
  {
    var x := s.pending[r].Presented();
    var i :| 0 <= i < |s.accepted| && s.accepted[i] == x;
    var after := Step(s, ClaimRow(r, now)).accepted;
    assert after[i] == after[|s.accepted|];
  }

  ghost predicate FreshRun(run: seq<State>, actions: seq<Action>) {
    Run(run, actions) && forall i | 0 <= i < |actions| :: FreshSecrets(run[i], actions[i])
  }

  lemma {:induction false} TracedUpTo(run: seq<State>, actions: seq<Action>, k: nat)
    requires FreshRun(run, actions) && k < |run|
    requires forall i | 0 <= i < k :: SpentIdsFree(run[i], actions[i])
    ensures Traced(run[k]) && Safe(run[k])
  {
    if k > 0 {
      TracedUpTo(run, actions, k - 1);
      assert run[k] == Step(run[k - 1], actions[k - 1]);
      assert FreshSecrets(run[k - 1], actions[k - 1]) && SpentIdsFree(run[k - 1], actions[k - 1]);
      StepSafeIff(run[k - 1], actions[k - 1]);
    }
  }

  // Whoever claims next, at any moment, no secret is accepted a second time.
  ghost predicate OneTime(run: seq<State>) {
    forall k, r, now | 0 <= k < |run| :: Distinct(Step(run[k], ClaimRow(r, now)).accepted)
  }

  // Under every interleaving, every secret is accepted at most once, whoever
  // claims next, if and only if no new row ever took a spent redeemer's id.
  lemma AcceptedOnceIff(run: seq<State>, actions: seq<Action>)
    requires FreshRun(run, actions)
    ensures OneTime(run) <==> forall i | 0 <= i < |actions| :: SpentIdsFree(run[i], actions[i])
  {
    if forall i | 0 <= i < |actions| :: SpentIdsFree(run[i], actions[i]) {
      forall k, r, now | 0 <= k < |run|
        ensures Distinct(Step(run[k], ClaimRow(r, now)).accepted)
      {
        TracedUpTo(run, actions, k);
        ClaimTraced(run[k], r, now);
      }
    } else {
      var i := FirstViolation(run, actions);
      TracedUpTo(run, actions, i);
      assert run[i + 1] == Step(run[i], actions[i]) && FreshSecrets(run[i], actions[i]);
      StepSafeIff(run[i], actions[i]);
      var s := run[i + 1];
      var r :| r in s.pending && s.pending[r].Presented() in s.accepted && Claimable(s.tables, s.pending[r].id);
      UnsafeDoubles(s, r, 0);
    }
  }

  lemma FirstViolation(run: seq<State>, actions: seq<Action>) returns (i: nat)
    requires Run(run, actions) && exists j :: 0 <= j < |actions| && !SpentIdsFree(run[j], actions[j])
    ensures i < |actions| && !SpentIdsFree(run[i], actions[i])
    ensures forall j | 0 <= j < i :: SpentIdsFree(run[j], actions[j])
  {
    i := 0;
    while SpentIdsFree(run[i], actions[i])
      invariant i < |actions| && forall j | 0 <= j < i :: SpentIdsFree(run[j], actions[j])
      decreases |actions| - i
    {
      i := i + 1;
    }
  }

  // What then holds in every state of the run.
  lemma EachSecretOnce(run: seq<State>, actions: seq<Action>, k: nat)
    requires FreshRun(run, actions) && k < |run|
    requires forall i | 0 <= i < k :: SpentIdsFree(run[i], actions[i])
    ensures Distinct(run[k].accepted)
  {
    TracedUpTo(run, actions, k);
  }

  // ------------------------------------------------ links need no condition

  ghost predicate LinksTraced(s: State) {
    && (forall i, j | i in s.tables.rows && j in s.tables.rows && IsLink(i.0) && i != j ::
          TokenAt(s.tables, i) != TokenAt(s.tables, j))
    && (forall r | r in s.pending && IsLink(s.pending[r].id.0) ::
          s.pending[r].id in s.tables.rows && TokenAt(s.tables, s.pending[r].id) == s.pending[r].Presented())
    && (forall i | i in s.tables.rows && IsLink(i.0) && TokenAt(s.tables, i) in s.accepted ::
        s.tables.rows[i].used.Some?)
    && (forall i, j | 0 <= i < j < |s.accepted| && IsLink(s.accepted[i].0) :: s.accepted[i] != s.accepted[j])
  }

  lemma IssueLinksTraced(s: State, a: Action)
    requires LinksTraced(s) && a.IssueLink? && Enabled(s, a) && FreshSecrets(s, a)
    ensures LinksTraced(Step(s, a))
  {
    var id: RowId := (a.kind, a.id);
    var t' := Step(s, a).tables;
    assert (a.kind, a.secret) in NewSecrets(a);
    assert Unseen(s, TokenAt(t', id));
    forall i | i in t'.rows && i != id
      ensures Carried(s, t', i)
    {
    }
  }

  lemma ClaimLinksTraced(s: State, r: int, now: int)
    requires LinksTraced(s)
    ensures LinksTraced(Step(s, ClaimRow(r, now)))
  {
    var s' := Step(s, ClaimRow(r, now));
    forall i | i in s'.tables.rows
      ensures i in s.tables.rows && TokenAt(s'.tables, i) == TokenAt(s.tables, i)
      ensures s.tables.rows[i].used.Some? ==> s'.tables.rows[i].used.Some?
    {
    }
  }

  // Only the rows of other kinds change.
  lemma OtherKindsLinksTraced(s: State, t': Tables)
    requires LinksTraced(s)
    requires forall i: RowId | IsLink(i.0) :: i in t'.rows <==> i in s.tables.rows
    requires forall i: RowId | IsLink(i.0) && i in t'.rows :: t'.rows[i] == s.tables.rows[i]
    ensures LinksTraced(s.(tables := t'))
  {
    forall i | i in t'.rows && IsLink(i.0)
      ensures TokenAt(t', i) == TokenAt(s.tables, i)
    {
    }
  }

  lemma StepLinksTraced(s: State, a: Action)
    requires LinksTraced(s) && Enabled(s, a) && FreshSecrets(s, a) && !(a.Delete? && IsLink(a.row.0))
    ensures LinksTraced(Step(s, a))
  {
    match a
    case IssueLink(_, _, _, _, _, _) => IssueLinksTraced(s, a);
    case IssueCodes(owner, ids, secrets) =>
      CodesFrame(s.tables.(rows := WithoutCodes(s.tables, owner)), owner, ids, secrets);
      OtherKindsLinksTraced(s, Step(s, a).tables);
    case IssueState(_, _, _, _) => OtherKindsLinksTraced(s, Step(s, a).tables);
    case Delete(_) => OtherKindsLinksTraced(s, Step(s, a).tables);
    case Lookup(_, _, _, _, _, _) =>
    case ClaimRow(r, now) => ClaimLinksTraced(s, r, now);
  }

  // Rows of unlock and email links are never deleted while their operator stays,
  // so each link is accepted at most once, whatever happens to the other tables.
  lemma {:induction false} EachLinkOnce(run: seq<State>, actions: seq<Action>, k: nat)
    requires FreshRun(run, actions) && k < |run|
    requires forall i | 0 <= i < |actions| :: !(actions[i].Delete? && IsLink(actions[i].row.0))
    ensures LinksTraced(run[k])
    ensures forall i, j | 0 <= i < j < |run[k].accepted| && IsLink(run[k].accepted[i].0) ::
      run[k].accepted[i] != run[k].accepted[j]
  {
    if k > 0 {
      EachLinkOnce(run, actions, k - 1);
      assert run[k] == Step(run[k - 1], actions[k - 1]);
      assert FreshSecrets(run[k - 1], actions[k - 1]);
      StepLinksTraced(run[k - 1], actions[k - 1]);
    }
  }

  // ------------------------------------------------ the condition can fail

  lemma Extend(run: seq<State>, actions: seq<Action>, a: Action) returns (run': seq<State>, actions': seq<Action>)
    requires FreshRun(run, actions) && Enabled(run[|actions|], a) && FreshSecrets(run[|actions|], a)
    ensures FreshRun(run', actions') && |actions'| == |actions| + 1
    ensures run'[|actions'|] == Step(run[|actions|], a)
  {
    run', actions' := run + [Step(run[|actions|], a)], actions + [a];
    forall i | 0 <= i < |actions'|
      ensures Enabled(run'[i], actions'[i]) && FreshSecrets(run'[i], actions'[i]) &&
        run'[i + 1] == Step(run'[i], actions'[i])
    {
    }
  }

  // Only the given operator's codes are stored, the first of them in row n.
  ghost predicate JustIssued(t: Tables, owner: int, n: int, secrets: seq<string>, serial: nat) {
    && t.issued == serial + BACKUP_CODES && secrets != []
    && (BackupCode, n) in t.rows && t.rows[(BackupCode, n)] == Code(owner, secrets[0], serial)
    && forall i | i in t.rows :: SamePool(i, t.rows[i], BackupCode, owner) && t.rows[i].secret in secrets
  }

  lemma IssueTen(s: State, owner: int, ids: seq<int>, secrets: seq<string>)
    requires |ids| == |secrets| == BACKUP_CODES && Distinct(ids)
    requires forall i | i in s.tables.rows :: SamePool(i, s.tables.rows[i], BackupCode, owner)
    ensures Enabled(s, IssueCodes(owner, ids, secrets))
    ensures JustIssued(IssuedCodes(s.tables, owner, ids, secrets), owner, ids[0], secrets, s.tables.issued)
  {
    var emptied := s.tables.(rows := WithoutCodes(s.tables, owner));
    assert emptied.rows == map[];
    CodesFrame(emptied, owner, ids, secrets);
    var t := IssuedCodes(s.tables, owner, ids, secrets);
    forall i | i in t.rows
      ensures SamePool(i, t.rows[i], BackupCode, owner) && t.rows[i].secret in secrets
    {
      var k :| 0 <= k < |ids| && ids[k] == i.1;
      assert t.rows[(BackupCode, ids[k])] == Code(owner, secrets[k], s.tables.issued + k);
    }
  }

  lemma CodesFresh(s: State, owner: int, ids: seq<int>, secrets: seq<string>)
    requires |ids| == |secrets| && Distinct(secrets)
    requires forall i | i in s.tables.rows :: s.tables.rows[i].secret !in secrets
    requires forall x | x in s.accepted :: x.1 !in secrets
    requires forall r | r in s.pending :: s.pending[r].secret !in secrets
    ensures FreshSecrets(s, IssueCodes(owner, ids, secrets))
  {
    var a := IssueCodes(owner, ids, secrets);
    forall x | x in NewSecrets(a)
      ensures x.1 in secrets
    {
    }
  }

  // Two lookups of one stored code follow each other, and one claims it.
  lemma UsedWhileAnotherWaits(run: seq<State>, actions: seq<Action>, owner: int, n: int, codes: seq<string>)
    returns (run': seq<State>, actions': seq<Action>)
    requires FreshRun(run, actions) && JustIssued(run[|actions|].tables, owner, n, codes, 0)
    requires run[|actions|].pending == map[] && run[|actions|].accepted == [] && run[|actions|].redeemed == []
    ensures FreshRun(run', actions')
    ensures
      var s := run'[|actions'|];
      && s.pending == map[20 := InFlight((BackupCode, n), codes[0])] && s.tables.issued == BACKUP_CODES
      && (forall i | i in s.tables.rows ::
            SamePool(i, s.tables.rows[i], BackupCode, owner) && s.tables.rows[i].secret in codes)
      && s.accepted == [(BackupCode, codes[0])] && s.redeemed == [0]
  {
    var f := InFlight((BackupCode, n), codes[0]);
    run', actions' := Extend(run, actions, Lookup(10, (BackupCode, n), codes[0], Some(owner), NoBinding, 0));
    run', actions' := Extend(run', actions', Lookup(20, (BackupCode, n), codes[0], Some(owner), NoBinding, 0));
    assert run'[|actions'|].pending == map[10 := f, 20 := f];
    run', actions' := Extend(run', actions', ClaimRow(10, 0));
    assert run'[|actions'|].pending == map[20 := f];
  }

  // Backup codes are deleted before new ones are inserted. For any ten old codes,
  // ten new ones and ten row ids: two lookups of one code are in flight, one
  // claims it, the new codes take the old ids, and the other claim is accepted too.
  lemma ReusedIdDoublesSecret(owner: int, ids: seq<int>, earlier: seq<string>, later: seq<string>)
    returns (run: seq<State>, actions: seq<Action>)
    requires |ids| == |earlier| == |later| == BACKUP_CODES
    requires Distinct(ids) && Distinct(earlier) && Distinct(later) && forall x | x in earlier :: x !in later
    ensures FreshRun(run, actions)
    ensures var first := (BackupCode, earlier[0]);
      run[|actions|].accepted == [first, first] && run[|actions|].redeemed == [0, 10]
  {
    var s0 := State(Tables(map[], map[], 0), map[], [], []);
    run, actions := [s0], [];
    IssueTen(s0, owner, ids, earlier);
    CodesFresh(s0, owner, ids, earlier);
    run, actions := Extend(run, actions, IssueCodes(owner, ids, earlier));
    run, actions := UsedWhileAnotherWaits(run, actions, owner, ids[0], earlier);
    var s := run[|actions|];
    assert earlier[0] in earlier;
    IssueTen(s, owner, ids, later);
    CodesFresh(s, owner, ids, later);
    run, actions := Extend(run, actions, IssueCodes(owner, ids, later));
    run, actions := Extend(run, actions, ClaimRow(20, 0));
  }

  // Such codes and ids: the letters a to j, then k to t, in rows 1 to 10.
  lemma ReusedIdExample() returns (run: seq<State>, actions: seq<Action>)
    ensures FreshRun(run, actions) && !Distinct(run[|actions|].accepted)
  {
    var earlier := seq(10, i requires 0 <= i < 10 => [('a' as int + i) as char]);
    var later := seq(10, i requires 0 <= i < 10 => [('k' as int + i) as char]);
    assert forall i, j | 0 <= i < j < 10 :: earlier[i][0] != earlier[j][0] && later[i][0] != later[j][0];
    assert forall i, j | 0 <= i < 10 && 0 <= j < 10 :: earlier[i][0] != later[j][0];
    run, actions := ReusedIdDoublesSecret(7, seq(10, i => i + 1), earlier, later);
    var accepted := run[|actions|].accepted;
    assert accepted[0] == accepted[1];
  }
}

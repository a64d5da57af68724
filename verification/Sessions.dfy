// The session cap: signing in revokes the oldest live session once the operator
// has reached the limit. Stored instants are whole seconds.
module Sessions {
  import opened Prelude
  import opened Clock

  const LIFETIME_SECONDS := 14 * 24 * 60 * 60
  const SESSION_LIFETIME := LIFETIME_SECONDS * SECOND

  datatype Session = Session(operator: int, createdAt: int, expiresAt: int, revoked: bool)

  type Table = map<int, Session>

  predicate IsLive(s: Session, operator: int, at: int) {
    s.operator == operator && !s.revoked && s.expiresAt > at
  }

  function Live(t: Table, operator: int, at: int): set<int> {
    set i | i in t && IsLive(t[i], operator, at)
  }

  // A session no live one of the operator was created before.
  predicate IsOldest(t: Table, operator: int, at: int, id: int) {
    id in Live(t, operator, at) && forall i | i in Live(t, operator, at) :: t[id].createdAt <= t[i].createdAt
  }

  // ------------------------------------------------ one sign-in

  // checkedAt: the clock when live sessions are counted; createdAt: the clock
  // when the new row is written.
  ghost predicate Created(t: Table, t': Table, operator: int, id: int, checkedAt: int, createdAt: int, limit: int) {
    var at := TruncateToSecond(checkedAt);
    && id !in t
    && if |Live(t, operator, at)| >= limit && Live(t, operator, at) != {}
       then exists first :: IsOldest(t, operator, at, first)
                            && t' == Revoked(t, first)[id := NewSession(operator, createdAt)]
       else t' == t[id := NewSession(operator, createdAt)]
  }

  function NewSession(operator: int, createdAt: int): Session {
    Session(operator, TruncateToSecond(createdAt), TruncateToSecond(createdAt + SESSION_LIFETIME), false)
  }

  function Revoked(t: Table, id: int): Table {
    if id in t then t[id := t[id].(revoked := true)] else t
  }

  class SessionStore {
    var sessions: Table

    constructor ()
      ensures sessions == map[]
    {
      sessions := map[];
    }

    // ORDER BY created_at ASC LIMIT 1, over the live sessions.
    method Oldest(operator: int, at: int) returns (oldest: Option<int>)
      ensures oldest.None? <==> Live(sessions, operator, at) == {}
      ensures oldest.Some? ==> IsOldest(sessions, operator, at, oldest.value)
    {
      var rest := Live(sessions, operator, at);
      oldest := None;
      ghost var all := rest;
      while rest != {}
        invariant rest <= all == Live(sessions, operator, at)
        invariant oldest.Some? ==> oldest.value in all - rest
        invariant oldest.Some? ==> forall i | i in all - rest ::
          sessions[oldest.value].createdAt <= sessions[i].createdAt
        invariant oldest.None? ==> rest == all
        decreases rest
      {
        ghost var any := Pick(rest);
        var i :| i in rest;
        if oldest.None? || sessions[i].createdAt < sessions[oldest.value].createdAt {
          oldest := Some(i);
        }
        rest := rest - {i};
      }
    }

    method EnforceLimit(operator: int, checkedAt: int, limit: int) returns (evicted: bool)
      modifies this
      ensures
        var at := TruncateToSecond(checkedAt);
        var live := Live(old(sessions), operator, at);
        && (evicted <==> |live| >= limit && live != {})
        && (evicted ==> exists id :: IsOldest(old(sessions), operator, at, id)
                          && sessions == old(sessions)[id := old(sessions)[id].(revoked := true)])
        && (!evicted ==> sessions == old(sessions))
    {
      var at := TruncateToSecond(checkedAt);
      if |Live(sessions, operator, at)| >= limit {
        var oldest := Oldest(operator, at);
        if oldest.Some? {
          sessions := sessions[oldest.value := sessions[oldest.value].(revoked := true)];
          return true;
        }
      }
      return false;
    }

    method CreateSession(operator: int, id: int, checkedAt: int, createdAt: int, limit: int)
      requires id !in sessions
      modifies this
      ensures Created(old(sessions), sessions, operator, id, checkedAt, createdAt, limit)
    {
      var evicted := EnforceLimit(operator, checkedAt, limit);
      sessions := sessions[id := Session(operator, TruncateToSecond(createdAt),
                                         TruncateToSecond(createdAt + SESSION_LIFETIME), false)];
    }

    method Revoke(id: int)
      modifies this
      ensures sessions == Revoked(old(sessions), id)
    {
      if id in sessions {
        sessions := sessions[id := sessions[id].(revoked := true)];
      }
    }
  }

  // ------------------------------------------------ runs

  // clock: the latest instant reached.
  datatype State = State(sessions: Table, clock: int)

  ghost predicate Next(s: State, s': State, limit: int) {
    || (exists operator: int, id: int, checkedAt: int ::
          s.clock <= checkedAt <= s'.clock
          && Created(s.sessions, s'.sessions, operator, id, checkedAt, s'.clock, limit))
    || (exists id: int :: s'.sessions == Revoked(s.sessions, id) && s'.clock == s.clock)
    || (s'.sessions == s.sessions && s.clock <= s'.clock)
  }

  ghost predicate Run(run: seq<State>, limit: int) {
    && |run| > 0 && run[0].sessions == map[]
    && forall i | 0 <= i < |run| - 1 :: Next(run[i], run[i + 1], limit)
  }

  // At most max(1, limit) live sessions per operator, as of the current second;
  // no session created after it.
  ghost predicate Capped(s: State, limit: int) {
    && (forall operator: int :: |Live(s.sessions, operator, TruncateToSecond(s.clock))| <= Max(1, limit))
    && (forall i | i in s.sessions :: s.sessions[i].createdAt <= TruncateToSecond(s.clock))
  }

  // Live sessions only get fewer as time passes.
  lemma LiveShrinks(t: Table, operator: int, at: int, later: int)
    requires at <= later
    ensures Live(t, operator, later) <= Live(t, operator, at)
    ensures |Live(t, operator, later)| <= |Live(t, operator, at)|
  {
    forall i | i in Live(t, operator, later)
      ensures i in Live(t, operator, at)
    {
      assert IsLive(t[i], operator, at);
    }
    SubsetSize(Live(t, operator, later), Live(t, operator, at));
  }

  // A session just created outlives the current second, and is the newest.
  lemma NewSessionLive(operator: int, createdAt: int)
    ensures IsLive(NewSession(operator, createdAt), operator, createdAt)
    ensures NewSession(operator, createdAt).createdAt == TruncateToSecond(createdAt)
  {
  }

  // Live means signed in by this operator, not revoked, and expiring strictly later.
  lemma LiveExactly(t: Table, operator: int, at: int, id: int)
    ensures id in Live(t, operator, at) <==>
      id in t && t[id].operator == operator && !t[id].revoked && at < t[id].expiresAt
  {
  }

  // A new session runs for fourteen days, counted in whole seconds.
  lemma NewSessionExactly(operator: int, createdAt: int)
    ensures
      var s := NewSession(operator, createdAt);
      && s.operator == operator && !s.revoked
      && s.createdAt == TruncateToSecond(createdAt) && s.expiresAt == s.createdAt + 14 * 86_400 * SECOND
  {
    TruncateShift(createdAt, LIFETIME_SECONDS);
  }

  // Revoking ends one session and leaves every other as it was.
  lemma RevokedExactly(t: Table, id: int)
    ensures forall i :: i in Revoked(t, id) <==> i in t
    ensures forall i | i in t ::
      Revoked(t, id)[i] == if i == id then Session(t[i].operator, t[i].createdAt, t[i].expiresAt, true) else t[i]
  {
  }

  // A sign-in adds its session and revokes at most one: exactly when the operator
  // has a live one and no fewer than the limit, one of its oldest.
  lemma CreatedExactly(t: Table, t': Table, operator: int, id: int,
                       checkedAt: int, createdAt: int, limit: int)
    requires Created(t, t', operator, id, checkedAt, createdAt, limit)
    ensures
      var live := set i | i in t && t[i].operator == operator && !t[i].revoked
                          && TruncateToSecond(checkedAt) < t[i].expiresAt;
      && t'.Keys == t.Keys + {id} && t'[id] == NewSession(operator, createdAt)
      && (if |live| >= limit && live != {}
          then exists e :: e in live && (forall i | i in live :: t[e].createdAt <= t[i].createdAt)
                           && t'[e] == t[e].(revoked := true) && forall i | i in t && i != e :: t'[i] == t[i]
          else forall i | i in t :: t'[i] == t[i])
  {
    var at := TruncateToSecond(checkedAt);
    var live := set i | i in t && t[i].operator == operator && !t[i].revoked && at < t[i].expiresAt;
    forall i: int
      ensures i in live <==> i in Live(t, operator, at)
    {
      LiveExactly(t, operator, at, i);
    }
    assert live == Live(t, operator, at);
  }

  // Adding one live session to those of `base`.
  lemma LiveWithNew(base: Table, operator: int, id: int, createdAt: int, at: int)
    requires id !in base && at <= TruncateToSecond(createdAt)
    ensures
      var t' := base[id := NewSession(operator, createdAt)];
      var end := TruncateToSecond(createdAt);
      && |Live(t', operator, end)| <= |Live(base, operator, at)| + 1
      && Live(t', operator, end) <= Live(base, operator, at) + {id}
      && forall other: int, any: int | other != operator :: Live(t', other, any) == Live(base, other, any)
  {
    var t' := base[id := NewSession(operator, createdAt)];
    var end := TruncateToSecond(createdAt);
    forall i | i in Live(t', operator, end)
      ensures i in Live(base, operator, at) + {id}
    {
      assert IsLive(t'[i], operator, end);
    }
    SubsetSize(Live(t', operator, end), Live(base, operator, at) + {id});
  }

  lemma LiveWithoutOldest(t: Table, operator: int, first: int, at: int)
    requires IsOldest(t, operator, at, first)
    ensures Live(Revoked(t, first), operator, at) == Live(t, operator, at) - {first}
    ensures |Live(Revoked(t, first), operator, at)| == |Live(t, operator, at)| - 1
    ensures forall other: int, any: int | other != operator ::
      Live(Revoked(t, first), other, any) == Live(t, other, any)
  {
  }

  // One sign-in: the new session is live; an evicted one belongs to the operator
  // and was created no later than every session that stays live; the cap holds;
  // other operators are untouched.
  lemma CreateKeepsCap(t: Table, t': Table, operator: int, id: int, checkedAt: int, createdAt: int, limit: int)
    requires Created(t, t', operator, id, checkedAt, createdAt, limit) && checkedAt <= createdAt
    requires forall i | i in t :: t[i].createdAt <= TruncateToSecond(createdAt)
    requires |Live(t, operator, TruncateToSecond(checkedAt))| <= Max(1, limit)
    ensures id in t' && IsLive(t'[id], operator, createdAt)
    ensures |Live(t', operator, TruncateToSecond(createdAt))| <= Max(1, limit)
    ensures forall i | i in t && !t[i].revoked && t'[i].revoked ::
      t[i].operator == operator
      && forall j | j in Live(t', operator, TruncateToSecond(createdAt)) :: t[i].createdAt <= t'[j].createdAt
    ensures forall i | i in t' && i != id :: i in t && t'[i].createdAt == t[i].createdAt
    ensures t'[id].createdAt == TruncateToSecond(createdAt)
    ensures forall other: int, at: int | other != operator :: Live(t', other, at) == Live(t, other, at)
  {
    var at := TruncateToSecond(checkedAt);
    TruncateMonotone(checkedAt, createdAt);
    NewSessionLive(operator, createdAt);
    var live := Live(t, operator, at);
    if |live| >= limit && live != {} {
      var first :| IsOldest(t, operator, at, first) && t' == Revoked(t, first)[id := NewSession(operator, createdAt)];
      LiveWithoutOldest(t, operator, first, at);
      LiveWithNew(Revoked(t, first), operator, id, createdAt, at);
    } else {
      assert live == {} ==> |live| == 0;
      LiveWithNew(t, operator, id, createdAt, at);
    }
  }

  lemma NextKeepsCap(s: State, s': State, limit: int)
    requires Capped(s, limit) && Next(s, s', limit)
    ensures Capped(s', limit)
  {
    if operator: int, id: int, checkedAt: int :|
         s.clock <= checkedAt <= s'.clock
         && Created(s.sessions, s'.sessions, operator, id, checkedAt, s'.clock, limit)
    {
      TruncateMonotone(s.clock, checkedAt);
      TruncateMonotone(s.clock, s'.clock);
      LiveShrinks(s.sessions, operator, TruncateToSecond(s.clock), TruncateToSecond(checkedAt));
      CreateKeepsCap(s.sessions, s'.sessions, operator, id, checkedAt, s'.clock, limit);
      forall other: int | other != operator
        ensures |Live(s'.sessions, other, TruncateToSecond(s'.clock))| <= Max(1, limit)
      {
        LiveShrinks(s.sessions, other, TruncateToSecond(s.clock), TruncateToSecond(s'.clock));
      }
    } else if id: int :| s'.sessions == Revoked(s.sessions, id) && s'.clock == s.clock {
      forall operator: int
        ensures |Live(s'.sessions, operator, TruncateToSecond(s'.clock))| <= Max(1, limit)
      {
        SubsetSize(Live(s'.sessions, operator, TruncateToSecond(s.clock)),
                   Live(s.sessions, operator, TruncateToSecond(s.clock)));
      }
    } else {
      TruncateMonotone(s.clock, s'.clock);
      forall operator: int
        ensures |Live(s'.sessions, operator, TruncateToSecond(s'.clock))| <= Max(1, limit)
      {
        LiveShrinks(s.sessions, operator, TruncateToSecond(s.clock), TruncateToSecond(s'.clock));
      }
    }
  }

  lemma {:induction false} RunCapped(run: seq<State>, limit: int, k: nat)
    requires Run(run, limit) && k < |run|
    ensures Capped(run[k], limit)
  {
    if k == 0 {
      assert forall operator: int :: Live(run[0].sessions, operator, TruncateToSecond(run[0].clock)) == {};
    } else {
      RunCapped(run, limit, k - 1);
      assert Next(run[k - 1], run[k], limit);
      NextKeepsCap(run[k - 1], run[k], limit);
    }
  }

  // The session cap. At any instant from a state's clock on, until the next
  // change, no operator has more than max(1, limit) unrevoked sessions whose
  // expiry lies strictly ahead.
  lemma SessionCap(run: seq<State>, limit: int, k: nat, operator: int, instant: int)
    requires Run(run, limit) && k < |run| && run[k].clock <= instant
    ensures |Live(run[k].sessions, operator, instant)| <= Max(1, limit)
  {
    RunCapped(run, limit, k);
    LiveShrinks(run[k].sessions, operator, TruncateToSecond(run[k].clock), instant);
  }
}

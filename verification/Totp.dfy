// One-time acceptance of TOTP codes (section 5.2 of RFC 6238): a verifier first
// reads the last accepted time-step and finds a matching newer one, then claims
// it with a conditional UPDATE. Any number of verifiers may interleave.
module Totp {
  import opened Prelude

  // The code of every time-step, for the enrolled secret.
  type Generator = int -> string

  // ------------------------------------------------ finding a step

  predicate Acceptable(otp: Generator, last: Option<int>, step: int, code: string) {
    step > (if last.Some? then last.value else -1) && otp(step) == code
  }

  predicate InWindow(step: int, clock: int) {
    clock - 1 <= step <= clock + 1
  }

  // The earliest acceptable step within one of the verifier's clock.
  method FindStep(otp: Generator, last: Option<int>, clock: int, code: string) returns (found: Option<int>)
    ensures found == Candidate(otp, last, clock, code)
    ensures found.Some? ==> InWindow(found.value, clock) && Acceptable(otp, last, found.value, code)
    ensures found.Some? ==> forall s | clock - 1 <= s < found.value :: !Acceptable(otp, last, s, code)
    ensures found.None? ==> forall s | InWindow(s, clock) :: !Acceptable(otp, last, s, code)
  {
    var step := clock - 1;
    while step <= clock + 1
      invariant clock - 1 <= step <= clock + 2
      invariant forall s | clock - 1 <= s < step :: !Acceptable(otp, last, s, code)
    {
      var floor := if last.Some? then last.value else -1;
      if step > floor && otp(step) == code {
        return Some(step);
      }
      step := step + 1;
    }
    return None;
  }

  function Candidate(otp: Generator, last: Option<int>, clock: int, code: string): Option<int> {
    if Acceptable(otp, last, clock - 1, code) then Some(clock - 1)
    else if Acceptable(otp, last, clock, code) then Some(clock)
    else if Acceptable(otp, last, clock + 1, code) then Some(clock + 1)
    else None
  }

  // Of the steps up to one away from the clock that give the code and are newer
  // than the last accepted one (not below zero if there is none), the earliest.
  lemma CandidateExactly(otp: Generator, last: Option<int>, clock: int, code: string)
    ensures
      var found := Candidate(otp, last, clock, code);
      && (found.None? ==> forall s | clock - 1 <= s <= clock + 1 ::
            otp(s) == code ==> if last.Some? then s <= last.value else s < 0)
      && (found.Some? ==>
            var s := found.value;
            && clock - 1 <= s <= clock + 1 && otp(s) == code && (if last.Some? then last.value < s else 0 <= s)
            && forall e | clock - 1 <= e < s :: otp(e) == code ==> if last.Some? then e <= last.value else e < 0)
  {
  }

  // ------------------------------------------------ the stored row

  class MfaSecret {
    var lastStep: Option<int>

    constructor ()
      ensures lastStep == None
    {
      lastStep := None;
    }

    // UPDATE ... SET last_step=? WHERE last_step IS NULL OR last_step < ?
    method Claim(step: int) returns (accepted: bool)
      modifies this
      ensures accepted <==> old(lastStep).None? || old(lastStep).value < step
      ensures lastStep == if accepted then Some(step) else old(lastStep)
    {
      accepted := lastStep.None? || lastStep.value < step;
      if accepted {
        lastStep := Some(step);
      }
    }

    // With no one else in between, a verification succeeds exactly when a step
    // newer than the last accepted one matches.
    method Verify(otp: Generator, clock: int, code: string) returns (accepted: bool)
      modifies this
      ensures accepted <==> exists s :: InWindow(s, clock) && Acceptable(otp, old(lastStep), s, code)
      ensures accepted ==> lastStep.Some? && InWindow(lastStep.value, clock) && otp(lastStep.value) == code
      ensures old(lastStep).Some? ==> lastStep.Some? && old(lastStep).value <= lastStep.value
      ensures accepted && old(lastStep).Some? ==> old(lastStep).value < lastStep.value
      ensures !accepted ==> lastStep == old(lastStep)
    {
      var found := FindStep(otp, lastStep, clock, code);
      if found.None? {
        return false;
      }
      accepted := Claim(found.value);
    }
  }

  // ------------------------------------------------ interleaved verifications

  datatype Found = Found(step: int, clock: int, code: string)

  datatype Action =
    | Read(verifier: int, clock: int, code: string)
    | ClaimStep(verifier: int)

  // pending: what each verifier found in its read phase; accepted: successes so far.
  datatype State = State(lastStep: Option<int>, pending: map<int, Found>, accepted: seq<Found>)

  function Step(s: State, a: Action, otp: Generator): State {
    match a
    case Read(v, clock, code) =>
      var found := Candidate(otp, s.lastStep, clock, code);
      if found.Some? then s.(pending := s.pending[v := Found(found.value, clock, code)]) else s
    case ClaimStep(v) =>
      if v !in s.pending then s
      else
        var f := s.pending[v];
        if s.lastStep.None? || s.lastStep.value < f.step
        then State(Some(f.step), s.pending - {v}, s.accepted + [f])
        else s.(pending := s.pending - {v})
  }

  function Run(s: State, actions: seq<Action>, otp: Generator): State
    decreases |actions|
  {
    if actions == [] then s else Run(Step(s, actions[0], otp), actions[1..], otp)
  }

  ghost predicate OneTime(s: State, otp: Generator) {
    && (forall i, j | 0 <= i < j < |s.accepted| :: s.accepted[i].step < s.accepted[j].step)
    && (forall i | 0 <= i < |s.accepted| :: InWindow(s.accepted[i].step, s.accepted[i].clock))
    && (forall i | 0 <= i < |s.accepted| :: s.lastStep.Some? && s.accepted[i].step <= s.lastStep.value)
    && (s.accepted != [] ==> s.lastStep == Some(s.accepted[|s.accepted| - 1].step))
    && (forall v | v in s.pending :: InWindow(s.pending[v].step, s.pending[v].clock))
  }

  lemma StepKeepsOneTime(s: State, a: Action, otp: Generator)
    requires OneTime(s, otp)
    ensures OneTime(Step(s, a, otp), otp)
    ensures s.lastStep.Some? ==> Step(s, a, otp).lastStep.Some? && s.lastStep.value <= Step(s, a, otp).lastStep.value
  {
  }

  // Under every interleaving the accepted steps are strictly increasing, so none
  // is accepted twice, and each lies within one step of its verifier's clock.
  lemma {:induction false} AcceptedOnce(s: State, actions: seq<Action>, otp: Generator)
    requires OneTime(s, otp)
    ensures
      var end := Run(s, actions, otp);
      && (forall i, j | 0 <= i < j < |end.accepted| :: end.accepted[i].step < end.accepted[j].step)
      && (forall i | 0 <= i < |end.accepted| :: InWindow(end.accepted[i].step, end.accepted[i].clock))
      && s.accepted <= end.accepted
      && (s.lastStep.Some? ==> forall i | |s.accepted| <= i < |end.accepted| :: end.accepted[i].step > s.lastStep.value)
    decreases |actions|
  {
    if actions != [] {
      var next := Step(s, actions[0], otp);
      StepKeepsOneTime(s, actions[0], otp);
      AcceptedOnce(next, actions[1..], otp);
      var end := Run(s, actions, otp);
      if s.lastStep.Some? {
        forall i | |s.accepted| <= i < |end.accepted|
          ensures end.accepted[i].step > s.lastStep.value
        {
          if i < |next.accepted| {
            assert end.accepted[i] == next.accepted[i];
          }
        }
      }
    }
  }

  // f is what some verifier read: a code it was given, matched at its clock.
  ghost predicate FoundBy(f: Found, actions: seq<Action>, otp: Generator) {
    && f.clock - 1 <= f.step <= f.clock + 1 && otp(f.step) == f.code
    && exists v :: Read(v, f.clock, f.code) in actions
  }

  // From no pending verification on, everything accepted was presented: its code
  // is the one of its step, and that step was within one of the clock it was read at.
  lemma {:induction false} AcceptedWasPresented(s: State, actions: seq<Action>, otp: Generator, i: nat)
    requires s.pending == map[] && |s.accepted| <= i < |Run(s, actions, otp).accepted|
    ensures FoundBy(Run(s, actions, otp).accepted[i], actions, otp)
  {
    RunFound(s, actions, otp);
  }

  // Undisturbed, a code is accepted exactly if a step within one of the clock gives it
  // and is newer than the last accepted one; otherwise everything stays as it was.
  lemma ReadThenClaim(s: State, v: int, clock: int, code: string, otp: Generator)
    requires v !in s.pending
    ensures
      var end := Step(Step(s, Read(v, clock, code), otp), ClaimStep(v), otp);
      if exists e :: clock - 1 <= e <= clock + 1 && otp(e) == code
                     && (if s.lastStep.Some? then s.lastStep.value < e else 0 <= e)
      then exists e :: clock - 1 <= e <= clock + 1 && otp(e) == code
                       && end.lastStep == Some(e) && end.accepted == s.accepted + [Found(e, clock, code)]
      else end == s
  {
    CandidateExactly(otp, s.lastStep, clock, code);
    var found := Candidate(otp, s.lastStep, clock, code);
    if found.Some? {
      assert otp(found.value) == code;
    }
  }

  lemma {:induction false} RunFound(s: State, actions: seq<Action>, otp: Generator)
    requires s.pending == map[]
    ensures
      var end := Run(s, actions, otp);
      && |s.accepted| <= |end.accepted|
      && (forall v | v in end.pending :: FoundBy(end.pending[v], actions, otp))
      && (forall i | |s.accepted| <= i < |end.accepted| :: FoundBy(end.accepted[i], actions, otp))
    decreases |actions|
  {
    if actions != [] {
      var before, last := actions[..|actions| - 1], actions[|actions| - 1];
      RunFound(s, before, otp);
      RunSplit(s, before, last, otp);
      assert actions == before + [last];
      forall f | FoundBy(f, before, otp)
        ensures FoundBy(f, actions, otp)
      {
        var v :| Read(v, f.clock, f.code) in before;
        assert Read(v, f.clock, f.code) in actions;
      }
      if last.Read? {
        var found := Candidate(otp, Run(s, before, otp).lastStep, last.clock, last.code);
        if found.Some? {
          assert Read(last.verifier, last.clock, last.code) in actions;
          assert FoundBy(Found(found.value, last.clock, last.code), actions, otp);
        }
      }
    }
  }

  lemma {:induction false} RunSplit(s: State, before: seq<Action>, last: Action, otp: Generator)
    ensures Run(s, before + [last], otp) == Step(Run(s, before, otp), last, otp)
    decreases |before|
  {
    if before != [] {
      assert (before + [last])[1..] == before[1..] + [last];
      RunSplit(Step(s, before[0], otp), before[1..], last, otp);
    } else {
      assert before + [last] == [last];
    }
  }
}

// The lockout of mfa_check_code: five consecutive misses lock the challenge for
// fifteen minutes. Lock and clock are both compared as whole seconds.
module MfaLockout {
  import opened Prelude
  import opened Clock

  const MFA_MAX_FAILURES := 5
  const LOCK_SECONDS := 15 * 60
  const MFA_LOCKOUT := LOCK_SECONDS * SECOND

  datatype Challenge = Challenge(failed: nat, lockedUntil: Option<int>)

  datatype Check = Check(checkedAt: int, writtenAt: int, codeOk: bool)

  datatype Outcome = Refused | Accepted | Missed | MissedAndLocked

  predicate IsLocked(c: Challenge, at: int) {
    c.lockedUntil.Some? && c.lockedUntil.value > TruncateToSecond(at)
  }

  predicate IsMiss(o: Outcome) {
    o.Missed? || o.MissedAndLocked?
  }

  function OutcomeOf(c: Challenge, t: Check): Outcome {
    if IsLocked(c, t.checkedAt) then Refused
    else if t.codeOk then Accepted
    else if c.failed + 1 >= MFA_MAX_FAILURES then MissedAndLocked
    else Missed
  }

  function After(c: Challenge, t: Check): Challenge {
    match OutcomeOf(c, t)
    case Refused => c
    case Accepted => Challenge(0, None)
    case Missed => Challenge(c.failed + 1, None)
    case MissedAndLocked => Challenge(0, Some(TruncateToSecond(t.writtenAt + MFA_LOCKOUT)))
  }

  class MfaRow {
    var failedAttempts: nat
    var lockedUntil: Option<int>

    function View(): Challenge
      reads this
    {
      Challenge(failedAttempts, lockedUntil)
    }

    constructor ()
      ensures View() == Challenge(0, None)
    {
      failedAttempts, lockedUntil := 0, None;
    }

    method CheckCode(t: Check) returns (outcome: Outcome)
      modifies this
      ensures View() == After(old(View()), t)
      ensures outcome == OutcomeOf(old(View()), t)
    {
      if lockedUntil.Some? && lockedUntil.value > TruncateToSecond(t.checkedAt) {
        return Refused;
      }
      if t.codeOk {
        failedAttempts, lockedUntil := 0, None;
        return Accepted;
      }
      var failures := failedAttempts + 1;
      var until: Option<int> := None;
      if failures >= MFA_MAX_FAILURES {
        until := Some(TruncateToSecond(t.writtenAt + MFA_LOCKOUT));
      }
      failedAttempts := if until.Some? then 0 else failures;
      lockedUntil := until;
      return if until.Some? then MissedAndLocked else Missed;
    }
  }

  function Outcomes(c: Challenge, ts: seq<Check>): (os: seq<Outcome>)
    ensures |os| == |ts|
    decreases |ts|
  {
    if ts == [] then [] else [OutcomeOf(c, ts[0])] + Outcomes(After(c, ts[0]), ts[1..])
  }

  function Misses(os: seq<Outcome>): nat {
    if os == [] then 0 else (if IsMiss(os[0]) then 1 else 0) + Misses(os[1..])
  }

  // One check, on the stored row: what it comes to, and what it leaves.
  lemma CheckExactly(c: Challenge, t: Check)
    ensures
      var locked := c.lockedUntil.Some? && c.lockedUntil.value > TruncateToSecond(t.checkedAt);
      && (OutcomeOf(c, t) == Refused <==> locked) && (locked ==> After(c, t) == c)
      && (OutcomeOf(c, t) == Accepted <==> !locked && t.codeOk)
      && (!locked && t.codeOk ==> After(c, t) == Challenge(0, None))
      && (OutcomeOf(c, t) == MissedAndLocked <==> !locked && !t.codeOk && c.failed >= 4)
      && (!locked && !t.codeOk && c.failed >= 4 ==>
            After(c, t) == Challenge(0, Some(TruncateToSecond(t.writtenAt + 900 * SECOND))))
      && (!locked && !t.codeOk && c.failed < 4 ==> After(c, t) == Challenge(c.failed + 1, None))
  {
  }

  // Misses since the last acceptance or lock, n of them before.
  function Streak(n: nat, os: seq<Outcome>): nat
    decreases |os|
  {
    if os == [] then n else Streak(if os[0] == Missed then n + 1 else if os[0] == Refused then n else 0, os[1..])
  }

  // In any run from an empty count, a check locks if and only if it is the fifth miss
  // in a row, with no acceptance and no lock in between.
  lemma {:induction false} LockedAfterFiveIff(c: Challenge, n: nat, ts: seq<Check>, i: nat)
    requires c.failed == n < 5 && i < |ts|
    ensures Outcomes(c, ts)[i] == MissedAndLocked <==>
      IsMiss(Outcomes(c, ts)[i]) && Streak(n, Outcomes(c, ts)[..i]) == 4
    decreases |ts|
  {
    var os := Outcomes(c, ts);
    if i == 0 {
      assert os[..0] == [];
    } else {
      assert os[..i][1..] == os[1..][..i - 1] && os[..i][0] == os[0];
      LockedAfterFiveIff(After(c, ts[0]), After(c, ts[0]).failed, ts[1..], i - 1);
    }
  }

  predicate Sequential(ts: seq<Check>) {
    && (forall i | 0 <= i < |ts| :: ts[i].checkedAt <= ts[i].writtenAt)
    && (forall i, j | 0 <= i < j < |ts| :: ts[i].writtenAt <= ts[j].checkedAt)
  }

  // State after v misses, counted from an empty count; the first one this run
  // saw happened in second `first`.
  ghost predicate Paced(c: Challenge, v: nat, first: int, clock: int) {
    && (v > 0 ==> TruncateToSecond(clock) >= first + (v - 1) / MFA_MAX_FAILURES * MFA_LOCKOUT)
    && if v % MFA_MAX_FAILURES == 0
       then c.failed == 0 && c.lockedUntil.Some? && c.lockedUntil.value >= first + v / MFA_MAX_FAILURES * MFA_LOCKOUT
       else c.failed == v % MFA_MAX_FAILURES && c.lockedUntil.None?
  }

  lemma PacedStep(c: Challenge, v: nat, first: int, clock: int, t: Check)
    requires v > 0 && Paced(c, v, first, clock) && clock <= t.checkedAt <= t.writtenAt
    requires OutcomeOf(c, t) != Accepted
    ensures IsMiss(OutcomeOf(c, t)) ==>
      && TruncateToSecond(t.checkedAt) >= first + v / MFA_MAX_FAILURES * MFA_LOCKOUT
      && Paced(After(c, t), v + 1, first, t.writtenAt)
    ensures OutcomeOf(c, t) == Refused ==> After(c, t) == c && Paced(c, v, first, t.writtenAt)
  {
    TruncateMonotone(clock, t.checkedAt);
    TruncateMonotone(t.checkedAt, t.writtenAt);
    TruncateShift(t.writtenAt, LOCK_SECONDS);
    var q, r := v / MFA_MAX_FAILURES, v % MFA_MAX_FAILURES;
    assert v == MFA_MAX_FAILURES * q + r;
    if IsMiss(OutcomeOf(c, t)) {
      if r + 1 == MFA_MAX_FAILURES {
        assert (v + 1) / MFA_MAX_FAILURES == q + 1 && (v + 1) % MFA_MAX_FAILURES == 0;
        assert (q + 1) * MFA_LOCKOUT == q * MFA_LOCKOUT + MFA_LOCKOUT;
      } else {
        assert (v + 1) / MFA_MAX_FAILURES == q && (v + 1) % MFA_MAX_FAILURES == r + 1;
      }
    }
  }

  lemma {:induction false} PacedRun(c: Challenge, v: nat, first: int, clock: int, ts: seq<Check>, i: nat)
    requires v > 0 && Paced(c, v, first, clock) && Sequential(ts) && i < |ts|
    requires clock <= ts[0].checkedAt
    requires Accepted !in Outcomes(c, ts)[..i] && IsMiss(Outcomes(c, ts)[i])
    ensures TruncateToSecond(ts[i].checkedAt)
         >= first + (v + Misses(Outcomes(c, ts)[..i])) / MFA_MAX_FAILURES * MFA_LOCKOUT
    decreases i
  {
    var os := Outcomes(c, ts);
    PacedStepIfNotLast(c, v, first, clock, ts, i);
    if i > 0 {
      var rest := ts[1..];
      assert os[..i][0] == os[0];
      assert os[1..] == Outcomes(After(c, ts[0]), rest);
      assert os[..i][1..] == Outcomes(After(c, ts[0]), rest)[..i - 1];
      PacedRun(After(c, ts[0]), if IsMiss(os[0]) then v + 1 else v, first, ts[0].writtenAt, rest, i - 1);
    }
  }

  lemma {:induction false} PacedStepIfNotLast(c: Challenge, v: nat, first: int, clock: int, ts: seq<Check>, i: nat)
    requires v > 0 && Paced(c, v, first, clock) && Sequential(ts) && i < |ts| && clock <= ts[0].checkedAt
    requires Accepted !in Outcomes(c, ts)[..i] && IsMiss(Outcomes(c, ts)[i])
    ensures var o := Outcomes(c, ts)[0];
      if IsMiss(o)
      then
        && TruncateToSecond(ts[0].checkedAt) >= first + v / MFA_MAX_FAILURES * MFA_LOCKOUT
        && Paced(After(c, ts[0]), v + 1, first, ts[0].writtenAt)
      else o == Refused && Paced(After(c, ts[0]), v, first, ts[0].writtenAt)
  {
    if i > 0 {
      assert Outcomes(c, ts)[..i][0] == Outcomes(c, ts)[0];
    }
    PacedStep(c, v, first, clock, ts[0]);
  }

  // The outcomes after the first check are those of the run that follows it.
  lemma {:induction false} OutcomesTail(c: Challenge, ts: seq<Check>, i: nat)
    requires 0 < i < |ts|
    ensures Outcomes(c, ts)[1..] == Outcomes(After(c, ts[0]), ts[1..])
    ensures Outcomes(c, ts)[..i][1..] == Outcomes(After(c, ts[0]), ts[1..])[..i - 1]
    ensures Misses(Outcomes(c, ts)[..i])
         == (if IsMiss(OutcomeOf(c, ts[0])) then 1 else 0) + Misses(Outcomes(After(c, ts[0]), ts[1..])[..i - 1])
    ensures Accepted !in Outcomes(c, ts)[..i] ==> Accepted !in Outcomes(After(c, ts[0]), ts[1..])[..i - 1]
  {
  }

  // Guessing rate, measured in the whole seconds the code compares: a miss at
  // index i that follows m earlier ones comes at least floor((failed + m) / 5)
  // lockouts of 900 seconds after the first miss, at index k.
  lemma {:induction false} GuessingRate(c: Challenge, ts: seq<Check>, k: nat, i: nat)
    requires c.failed < MFA_MAX_FAILURES && Sequential(ts) && k <= i < |ts|
    requires Accepted !in Outcomes(c, ts)[..i]
    requires forall j | 0 <= j < k :: !IsMiss(Outcomes(c, ts)[j])
    requires IsMiss(Outcomes(c, ts)[k]) && IsMiss(Outcomes(c, ts)[i])
    ensures TruncateToSecond(ts[i].checkedAt) - TruncateToSecond(ts[k].checkedAt)
         >= (c.failed + Misses(Outcomes(c, ts)[..i])) / MFA_MAX_FAILURES * MFA_LOCKOUT
    decreases k
  {
    if k == 0 {
      RateFromFirst(c, ts, i);
    } else {
      OutcomesTail(c, ts, i);
      assert Outcomes(c, ts)[0] in Outcomes(c, ts)[..i];
      QuietStep(c, ts, k);
      GuessingRate(c, ts[1..], k - 1, i - 1);
    }
  }

  lemma {:induction false} RateFromFirst(c: Challenge, ts: seq<Check>, i: nat)
    requires c.failed < MFA_MAX_FAILURES && Sequential(ts) && i < |ts|
    requires Accepted !in Outcomes(c, ts)[..i]
    requires IsMiss(Outcomes(c, ts)[0]) && IsMiss(Outcomes(c, ts)[i])
    ensures TruncateToSecond(ts[i].checkedAt) - TruncateToSecond(ts[0].checkedAt)
         >= (c.failed + Misses(Outcomes(c, ts)[..i])) / MFA_MAX_FAILURES * MFA_LOCKOUT
  {
    if i == 0 {
      assert Misses(Outcomes(c, ts)[..0]) == 0;
    } else {
      var first := TruncateToSecond(ts[0].checkedAt);
      OutcomesTail(c, ts, i);
      FirstMiss(c, ts[0]);
      PacedRun(After(c, ts[0]), c.failed + 1, first, ts[0].writtenAt, ts[1..], i - 1);
    }
  }

  lemma {:induction false} QuietStep(c: Challenge, ts: seq<Check>, k: nat)
    requires 0 < k < |ts| && Outcomes(c, ts)[0] != Accepted
    requires forall j | 0 <= j < k :: !IsMiss(Outcomes(c, ts)[j])
    ensures After(c, ts[0]) == c
    ensures forall j | 0 <= j < k - 1 :: !IsMiss(Outcomes(c, ts[1..])[j])
  {
    var os := Outcomes(c, ts);
    assert !IsMiss(os[0]);
    assert os[1..] == Outcomes(c, ts[1..]);
    assert forall j | 0 <= j < k - 1 :: os[1..][j] == os[j + 1];
  }

  lemma FirstMiss(c: Challenge, t: Check)
    requires c.failed < MFA_MAX_FAILURES && IsMiss(OutcomeOf(c, t)) && t.checkedAt <= t.writtenAt
    ensures Paced(After(c, t), c.failed + 1, TruncateToSecond(t.checkedAt), t.writtenAt)
  {
  }

  // In microseconds the same bound can miss by less than one second, in all.
  lemma {:induction false} GuessingRateExactClock(c: Challenge, ts: seq<Check>, k: nat, i: nat)
    requires c.failed < MFA_MAX_FAILURES && Sequential(ts) && k <= i < |ts|
    requires Accepted !in Outcomes(c, ts)[..i]
    requires forall j | 0 <= j < k :: !IsMiss(Outcomes(c, ts)[j])
    requires IsMiss(Outcomes(c, ts)[k]) && IsMiss(Outcomes(c, ts)[i])
    ensures ts[i].checkedAt - ts[k].checkedAt
          > (c.failed + Misses(Outcomes(c, ts)[..i])) / MFA_MAX_FAILURES * MFA_LOCKOUT - SECOND
  {
    GuessingRate(c, ts, k, i);
  }

  // From a miss on a whole second the bound is exact in microseconds.
  lemma {:induction false} GuessingRateFromWholeSecond(c: Challenge, ts: seq<Check>, k: nat, i: nat)
    requires c.failed < MFA_MAX_FAILURES && Sequential(ts) && k <= i < |ts|
    requires Accepted !in Outcomes(c, ts)[..i]
    requires forall j | 0 <= j < k :: !IsMiss(Outcomes(c, ts)[j])
    requires IsMiss(Outcomes(c, ts)[k]) && IsMiss(Outcomes(c, ts)[i])
    requires ts[k].checkedAt % SECOND == 0
    ensures ts[i].checkedAt - ts[k].checkedAt
         >= (c.failed + Misses(Outcomes(c, ts)[..i])) / MFA_MAX_FAILURES * MFA_LOCKOUT
  {
    GuessingRate(c, ts, k, i);
  }

  // From any other instant it is not: five misses at once, and the sixth is heard
  // as soon as the lock, cut to whole seconds, has lapsed.
  lemma FallsShort(at: int)
    requires at % SECOND != 0
    ensures
      var sixth := TruncateToSecond(at + MFA_LOCKOUT);
      var ts := Repeated(Check(at, at, false), MFA_MAX_FAILURES) + [Check(sixth, sixth, false)];
      && Sequential(ts) && (forall i | 0 <= i <= MFA_MAX_FAILURES :: IsMiss(Outcomes(Challenge(0, None), ts)[i]))
      && sixth - at < MFA_LOCKOUT
  {
    var sixth := TruncateToSecond(at + MFA_LOCKOUT);
    TruncateShift(at, LOCK_SECONDS);
    assert sixth == TruncateToSecond(at) + MFA_LOCKOUT && at - SECOND < TruncateToSecond(at);
    var last := [Check(sixth, sixth, false)];
    assert TruncateToSecond(sixth) == sixth;
    assert IsMiss(Outcomes(Challenge(0, Some(sixth)), last)[0]);
    MissesAtOnce(Challenge(0, None), MFA_MAX_FAILURES, at, sixth, last);
  }

  function Repeated(t: Check, n: nat): (ts: seq<Check>)
    ensures |ts| == n && forall i | 0 <= i < n :: ts[i] == t
  {
    if n == 0 then [] else [t] + Repeated(t, n - 1)
  }

  // n misses at one instant that end in a lock, and what follows them.
  lemma {:induction false} MissesAtOnce(c: Challenge, n: nat, at: int, lapse: int, rest: seq<Check>)
    requires c.failed + n == MFA_MAX_FAILURES && c.lockedUntil.None? && n > 0 &&
      lapse == TruncateToSecond(at + MFA_LOCKOUT)
    requires forall i | 0 <= i < |rest| :: IsMiss(Outcomes(Challenge(0, Some(lapse)), rest)[i])
    ensures forall i | 0 <= i < n + |rest| ::
      IsMiss(Outcomes(c, Repeated(Check(at, at, false), n) + rest)[i])
    decreases n
  {
    var miss := Check(at, at, false);
    var ts := Repeated(miss, n) + rest;
    var next := After(c, miss);
    assert ts[0] == miss && ts[1..] == Repeated(miss, n - 1) + rest;
    if n == 1 {
      assert ts[1..] == rest;
    } else {
      MissesAtOnce(next, n - 1, at, lapse, rest);
    }
    forall i | 0 <= i < n + |rest|
      ensures IsMiss(Outcomes(c, ts)[i])
    {
      assert i > 0 ==> Outcomes(c, ts)[i] == Outcomes(next, ts[1..])[i - 1];
    }
  }

  // The 900 seconds are not exact: five misses late in one second, and the sixth
  // is heard 899.000001 seconds later.
  lemma NotExactInMicroseconds()
    ensures
      var five := [Check(999_999, 999_999, false), Check(999_999, 999_999, false), Check(999_999, 999_999, false),
                   Check(999_999, 999_999, false), Check(999_999, 999_999, false)];
      var sixth := Check(900_000_000, 900_000_000, false);
      sixth.checkedAt - five[0].checkedAt < MFA_LOCKOUT && IsMiss(Outcomes(Challenge(0, None), five + [sixth])[5])
  {
    var bad := Check(999_999, 999_999, false);
    FallsShort(999_999);
    assert [bad, bad, bad, bad, bad] == Repeated(bad, MFA_MAX_FAILURES);
  }
}

// The password lockout of login(): eight consecutive wrong passwords lock the
// account for fifteen minutes. Times are microseconds; the stored lock is
// truncated to whole seconds.
module Login {
  import opened Prelude
  import opened Clock

  const MAX_FAILED_LOGINS := 8
  const LOCKOUT := 15 * 60 * SECOND

  datatype Account = Account(failed: nat, lockedUntil: Option<int>, usable: bool, emailVerified: bool)

  // checkedAt: the clock when the lock is checked; writtenAt: the clock when a
  // failure is recorded, after the password hash has been computed.
  datatype Attempt = Attempt(checkedAt: int, writtenAt: int, passwordOk: bool)

  datatype Outcome = Locked | NoCredentials | WrongPassword | EmailUnverified | Success

  // ------------------------------------------------ one attempt

  predicate IsLocked(a: Account, at: int) {
    a.lockedUntil.Some? && a.lockedUntil.value > at
  }

  // The account once an expired lock has been cleared.
  function Window(a: Account): Account {
    if a.lockedUntil.Some? then a.(failed := 0, lockedUntil := None) else a
  }

  function Recorded(a: Account, at: int): Account {
    var failed := a.failed + 1;
    a.(failed := failed,
       lockedUntil := if failed >= MAX_FAILED_LOGINS then Some(TruncateToSecond(at + LOCKOUT)) else a.lockedUntil)
  }

  function After(a: Account, t: Attempt): Account {
    match OutcomeOf(a, t)
    case Locked => a
    case NoCredentials => Window(a)
    case WrongPassword => Recorded(Window(a), t.writtenAt)
    case EmailUnverified => Window(a)
    case Success => a.(failed := 0, lockedUntil := None)
  }

  function OutcomeOf(a: Account, t: Attempt): Outcome {
    if IsLocked(a, t.checkedAt) then Locked
    else if !a.usable then NoCredentials
    else if !t.passwordOk then WrongPassword
    else if !a.emailVerified then EmailUnverified
    else Success
  }

  class Operator {
    var failedLoginCount: nat
    var lockedUntil: Option<int>
    var usable: bool
    var emailVerified: bool

    function View(): Account
      reads this
    {
      Account(failedLoginCount, lockedUntil, usable, emailVerified)
    }

    constructor (usable: bool, emailVerified: bool)
      ensures View() == Account(0, None, usable, emailVerified)
    {
      failedLoginCount, lockedUntil := 0, None;
      this.usable, this.emailVerified := usable, emailVerified;
    }

    method Login(t: Attempt) returns (outcome: Outcome)
      modifies this
      ensures View() == After(old(View()), t)
      ensures outcome == OutcomeOf(old(View()), t)
      ensures outcome == Locked ==> View() == old(View())
    {
      var failedSoFar := failedLoginCount;
      if lockedUntil.Some? {
        if lockedUntil.value > t.checkedAt {
          return Locked;
        }
        failedLoginCount, lockedUntil := 0, None;
        failedSoFar := 0;
      }
      if !usable {
        return NoCredentials;
      }
      if !t.passwordOk {
        var failed := failedSoFar + 1;
        failedLoginCount := failed;
        if failed >= MAX_FAILED_LOGINS {
          lockedUntil := Some(TruncateToSecond(t.writtenAt + LOCKOUT));
        }
        return WrongPassword;
      }
      if !emailVerified {
        return EmailUnverified;
      }
      failedLoginCount, lockedUntil := 0, None;
      return Success;
    }
  }

  // One attempt, on the stored row: what it comes to, and what it leaves.
  lemma AttemptExactly(a: Account, t: Attempt)
    ensures
      var locked := a.lockedUntil.Some? && a.lockedUntil.value > t.checkedAt;
      var expired := a.lockedUntil.Some? && !locked;
      var count := if expired then 0 else a.failed;
      var after := After(a, t);
      && after.usable == a.usable && after.emailVerified == a.emailVerified
      && (OutcomeOf(a, t) == Locked <==> locked) && (locked ==> after == a)
      && (!locked && !a.usable ==>
            OutcomeOf(a, t) == NoCredentials && after.failed == count && after.lockedUntil.None?)
      && (!locked && a.usable && !t.passwordOk ==>
            && OutcomeOf(a, t) == WrongPassword && after.failed == count + 1
            && after.lockedUntil == if count + 1 >= 8 then Some(TruncateToSecond(t.writtenAt + 900 * SECOND)) else None)
      && (!locked && a.usable && t.passwordOk && !a.emailVerified ==>
            OutcomeOf(a, t) == EmailUnverified && after.failed == count && after.lockedUntil.None?)
      && (!locked && a.usable && t.passwordOk && a.emailVerified ==>
            OutcomeOf(a, t) == Success && after.failed == 0 && after.lockedUntil.None?)
  {
  }

  // ------------------------------------------------ runs of attempts

  function Outcomes(a: Account, ts: seq<Attempt>): (os: seq<Outcome>)
    ensures |os| == |ts|
    decreases |ts|
  {
    if ts == [] then [] else [OutcomeOf(a, ts[0])] + Outcomes(After(a, ts[0]), ts[1..])
  }

  function Final(a: Account, ts: seq<Attempt>): Account
    decreases |ts|
  {
    if ts == [] then a else Final(After(a, ts[0]), ts[1..])
  }

  function Count(os: seq<Outcome>, o: Outcome): nat {
    if os == [] then 0 else (if os[0] == o then 1 else 0) + Count(os[1..], o)
  }

  // One attempt after another, on a clock that never goes back.
  predicate Sequential(ts: seq<Attempt>) {
    && (forall i | 0 <= i < |ts| :: ts[i].checkedAt <= ts[i].writtenAt)
    && (forall i, j | 0 <= i < j < |ts| :: ts[i].writtenAt <= ts[j].checkedAt)
  }

  // A count below the limit and, unless it is 0, no lock.
  predicate Fresh(a: Account) {
    a.failed < MAX_FAILED_LOGINS && (a.failed > 0 ==> a.lockedUntil.None?)
  }

  // What one whole lock window is worth after truncation.
  const WINDOW := LOCKOUT - SECOND

  // State after v wrong passwords, counted from an empty count, the first one
  // that this run saw at `first`; `clock` is the time reached.
  ghost predicate Paced(a: Account, v: nat, first: int, clock: int)
  {
    && (v > 0 ==> clock >= first + (v - 1) / MAX_FAILED_LOGINS * WINDOW)
    && if v % MAX_FAILED_LOGINS != 0 then a.failed == v % MAX_FAILED_LOGINS && a.lockedUntil.None?
       else
         || (a.failed == MAX_FAILED_LOGINS && a.lockedUntil.Some?
             && a.lockedUntil.value >= first + v / MAX_FAILED_LOGINS * WINDOW)
         || (a.failed == 0 && a.lockedUntil.None? && clock >= first + v / MAX_FAILED_LOGINS * WINDOW)
  }

  lemma PacedStep(a: Account, v: nat, first: int, clock: int, t: Attempt)
    requires v > 0 && Paced(a, v, first, clock) && clock <= t.checkedAt <= t.writtenAt
    requires OutcomeOf(a, t) != Success
    ensures OutcomeOf(a, t) == WrongPassword ==>
      t.checkedAt >= first + v / MAX_FAILED_LOGINS * WINDOW && Paced(After(a, t), v + 1, first, t.writtenAt)
    ensures OutcomeOf(a, t) != WrongPassword ==> Paced(After(a, t), v, first, t.writtenAt)
  {
  }

  lemma {:induction false} PacedRun(a: Account, v: nat, first: int, clock: int, ts: seq<Attempt>, i: nat)
    requires v > 0 && Paced(a, v, first, clock) && Sequential(ts) && i < |ts|
    requires clock <= ts[0].checkedAt
    requires Success !in Outcomes(a, ts)[..i] && Outcomes(a, ts)[i] == WrongPassword
    ensures ts[i].checkedAt >= first + (v + Count(Outcomes(a, ts)[..i], WrongPassword)) / MAX_FAILED_LOGINS * WINDOW
    decreases i
  {
    var os := Outcomes(a, ts);
    if i == 0 {
      PacedStep(a, v, first, clock, ts[0]);
    } else {
      var rest := ts[1..];
      assert os[..i][0] == os[0];
      PacedStep(a, v, first, clock, ts[0]);
      assert os[1..] == Outcomes(After(a, ts[0]), rest);
      assert os[..i][1..] == Outcomes(After(a, ts[0]), rest)[..i - 1];
      forall o | o in os[..i][1..]
        ensures o in os[..i]
      {
      }
      PacedRun(After(a, ts[0]), if os[0] == WrongPassword then v + 1 else v, first, ts[0].writtenAt, rest, i - 1);
    }
  }

  // Guessing rate. Whatever happens before the first wrong password at index k,
  // a wrong password at index i that follows m earlier ones comes at least
  // floor((count + m) / 8) lock windows after the first; m is n - 1 for the n-th.
  lemma {:induction false} GuessingRate(a: Account, ts: seq<Attempt>, k: nat, i: nat)
    requires Fresh(a) && Sequential(ts) && k <= i < |ts|
    requires Success !in Outcomes(a, ts)[..i]
    requires WrongPassword !in Outcomes(a, ts)[..k]
    requires Outcomes(a, ts)[k] == WrongPassword == Outcomes(a, ts)[i]
    ensures ts[i].checkedAt - ts[k].checkedAt
         >= (a.failed + Count(Outcomes(a, ts)[..i], WrongPassword)) / MAX_FAILED_LOGINS * (LOCKOUT - SECOND)
    decreases i
  {
    if k == 0 {
      RateFromFirst(a, ts, i);
    } else {
      OutcomesTail(a, ts, i);
      assert Outcomes(a, ts)[0] in Outcomes(a, ts)[..i] && Outcomes(a, ts)[0] in Outcomes(a, ts)[..k];
      QuietStep(a, ts, k);
      GuessingRate(a, ts[1..], k - 1, i - 1);
    }
  }

  lemma {:induction false} OutcomesTail(a: Account, ts: seq<Attempt>, i: nat)
    requires 0 < i < |ts|
    ensures Outcomes(a, ts)[1..] == Outcomes(After(a, ts[0]), ts[1..])
    ensures Count(Outcomes(a, ts)[..i], WrongPassword)
         == (if OutcomeOf(a, ts[0]) == WrongPassword then 1 else 0)
            + Count(Outcomes(After(a, ts[0]), ts[1..])[..i - 1], WrongPassword)
    ensures Success !in Outcomes(a, ts)[..i] ==> Success !in Outcomes(After(a, ts[0]), ts[1..])[..i - 1]
  {
    var os := Outcomes(a, ts);
    assert os[1..] == Outcomes(After(a, ts[0]), ts[1..]);
    assert os[..i][1..] == os[1..][..i - 1];
    assert os[..i][0] == OutcomeOf(a, ts[0]);
    assert forall o | o in os[..i][1..] :: o in os[..i];
  }

  lemma {:induction false} RateFromFirst(a: Account, ts: seq<Attempt>, i: nat)
    requires Fresh(a) && Sequential(ts) && i < |ts|
    requires Success !in Outcomes(a, ts)[..i]
    requires Outcomes(a, ts)[0] == WrongPassword == Outcomes(a, ts)[i]
    ensures ts[i].checkedAt - ts[0].checkedAt
         >= (a.failed + Count(Outcomes(a, ts)[..i], WrongPassword)) / MAX_FAILED_LOGINS * (LOCKOUT - SECOND)
  {
    if i == 0 {
      assert Count(Outcomes(a, ts)[..0], WrongPassword) == 0;
    } else {
      OutcomesTail(a, ts, i);
      FirstWrong(a, ts[0]);
      PacedRun(After(a, ts[0]), a.failed + 1, ts[0].checkedAt, ts[0].writtenAt, ts[1..], i - 1);
    }
  }

  lemma {:induction false} QuietStep(a: Account, ts: seq<Attempt>, k: nat)
    requires Fresh(a) && 0 < k < |ts| && Outcomes(a, ts)[0] != Success
    requires WrongPassword !in Outcomes(a, ts)[..k]
    ensures var next := After(a, ts[0]);
      Fresh(next) && next.failed == a.failed && WrongPassword !in Outcomes(next, ts[1..])[..k - 1]
  {
    var os := Outcomes(a, ts);
    assert os[0] in os[..k];
    assert os[1..] == Outcomes(After(a, ts[0]), ts[1..]);
    assert os[..k][1..] == os[1..][..k - 1];
    assert forall o | o in os[..k][1..] :: o in os[..k];
  }

  lemma FirstWrong(a: Account, t: Attempt)
    requires Fresh(a) && OutcomeOf(a, t) == WrongPassword && t.checkedAt <= t.writtenAt
    ensures Paced(After(a, t), a.failed + 1, t.checkedAt, t.writtenAt)
  {
  }

  // Attempts refused during a lock change neither the count nor the lock.
  lemma {:induction false} RefusedChangesNothing(a: Account, ts: seq<Attempt>)
    requires forall i | 0 <= i < |ts| :: IsLocked(a, ts[i].checkedAt)
    ensures forall i | 0 <= i < |ts| :: Outcomes(a, ts)[i] == Locked
    ensures Final(a, ts) == a
    decreases |ts|
  {
    if ts != [] {
      assert After(a, ts[0]) == a;
      RefusedChangesNothing(a, ts[1..]);
    }
  }

  // Wrong passwords since the last success, n of them before.
  function Streak(n: nat, os: seq<Outcome>): nat
    decreases |os|
  {
    if os == [] then n
    else Streak(if os[0] == Success then 0 else if os[0] == WrongPassword then n + 1 else n, os[1..])
  }

  lemma {:induction false} FinalNext(a: Account, ts: seq<Attempt>, i: nat)
    requires i < |ts|
    ensures Final(a, ts[..i + 1]) == After(Final(a, ts[..i]), ts[i])
    ensures Outcomes(a, ts)[i] == OutcomeOf(Final(a, ts[..i]), ts[i])
    decreases |ts|
  {
    if i == 0 {
      assert ts[..1][1..] == [];
    } else {
      assert ts[..i][1..] == ts[1..][..i - 1] && ts[..i + 1][1..] == ts[1..][..i];
      FinalNext(After(a, ts[0]), ts[1..], i - 1);
    }
  }

  lemma {:induction false} StreakNext(n: nat, os: seq<Outcome>, i: nat)
    requires i < |os|
    ensures
      var before := Streak(n, os[..i]);
      Streak(n, os[..i + 1]) == if os[i] == Success then 0 else if os[i] == WrongPassword then before + 1 else before
    decreases |os|
  {
    if i == 0 {
      assert os[..1][1..] == [];
    } else {
      assert os[..i][1..] == os[1..][..i - 1] && os[..i + 1][1..] == os[1..][..i];
      StreakNext(if os[0] == Success then 0 else if os[0] == WrongPassword then n + 1 else n, os[1..], i - 1);
    }
  }

  // The stored count never exceeds the wrong passwords since the last success.
  lemma {:induction false} CountWithinStreak(a: Account, ts: seq<Attempt>, i: nat)
    requires i <= |ts|
    ensures Final(a, ts[..i]).failed <= Streak(a.failed, Outcomes(a, ts)[..i])
  {
    if i > 0 {
      CountWithinStreak(a, ts, i - 1);
      FinalNext(a, ts, i - 1);
      StreakNext(a.failed, Outcomes(a, ts), i - 1);
    }
  }

  // In any run from an empty count, a lock is written only by a wrong password, and
  // only after eight of them with no success in between.
  lemma {:induction false} LockedAfterEight(a: Account, ts: seq<Attempt>, i: nat)
    requires a.failed == 0 && i < |ts|
    requires var before, after := Final(a, ts[..i]).lockedUntil, Final(a, ts[..i + 1]).lockedUntil;
      after.Some? && after != before
    ensures Outcomes(a, ts)[i] == WrongPassword && Streak(0, Outcomes(a, ts)[..i + 1]) >= 8
  {
    FinalNext(a, ts, i);
    CountWithinStreak(a, ts, i);
    StreakNext(0, Outcomes(a, ts), i);
    AttemptExactly(Final(a, ts[..i]), ts[i]);
  }

  // A lock holds for the whole fifteen minutes exactly when it is recorded on a
  // whole second.
  lemma LockHoldsIff(a: Account, at: int)
    requires a.failed + 1 >= MAX_FAILED_LOGINS
    ensures (forall t | at <= t < at + LOCKOUT :: IsLocked(Recorded(a, at), t)) <==> at % SECOND == 0
  {
    TruncateShift(at, 15 * 60);
    assert TruncateToSecond(at + LOCKOUT) == TruncateToSecond(at) + LOCKOUT;
    var lapse := TruncateToSecond(at + LOCKOUT);
    if at % SECOND != 0 {
      assert at <= lapse < at + LOCKOUT && !IsLocked(Recorded(a, at), lapse);
    }
  }

  // The second lost to truncation is real: a lock set at the last microsecond
  // of a second lapses 999_999 microseconds short of fifteen minutes.
  lemma TruncationIsReal()
    ensures
      var at := 999_999;
      var a := Recorded(Account(7, None, true, true), at);
      !IsLocked(a, at + LOCKOUT - 999_999) && IsLocked(a, at + LOCKOUT - SECOND)
  {
  }
}

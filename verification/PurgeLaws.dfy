// When a customer can be purged at all, in any run.
module PurgeLaws {
  import opened Prelude
  import opened Calendar
  import opened Purge

  // What eligibility means: the stored date and the policy window have both
  // passed, and nothing is left open.
  lemma EligibleMeans(s: Store, org: int, today: Date, c: int)
    requires Eligible(s, org, today, c)
    ensures c in s.customers && s.customers[c].org == org && s.customers[c].closed
    ensures s.customers[c].until.Some? && Before(s.customers[c].until.value, today)
    ensures
      var exit := s.customers[c].exitDate;
      exit.Some? && RetentionFrom(exit.value).Some? ==> Before(RetentionFrom(exit.value).value, today)
    ensures forall f | f in s.freezes && s.freezes[f].customer == c && s.freezes[f].org == org ::
      s.freezes[f].status == "resolved"
    ensures forall n: int | (Reports, n) in s.rows && OwnsRow(s.rows[(Reports, n)], org, {c}) ::
      s.rows[(Reports, n)].status == "submitted"
    ensures forall a | a in s.alerts && OwnsAlert(s.screenings, s.alerts[a], org, {c}) :: !Pending(s.alerts[a].status)
    ensures forall n: int | (TransactionAlerts, n) in s.rows && OwnsRow(s.rows[(TransactionAlerts, n)], org, {c}) ::
      !Pending(s.rows[(TransactionAlerts, n)].status)
  {
    var r := s.customers[c];
    IsoOrder(r.until.value, today);
    if r.exitDate.Some? && RetentionFrom(r.exitDate.value).Some? {
      IsoOrder(RetentionFrom(r.exitDate.value).value, today);
    }
    assert !HasFreeze(s, org, c) && !HasReport(s, org, c) && !HasAlert(s, org, c);
  }

  // ------------------------------------------------ work left open

  datatype Work =
    | FreezeWork(freeze: int)
    | ReportWork(report: int)
    | AlertWork(alert: int)
    | TransactionWork(alert: int)

  predicate Open(s: Store, org: int, c: int, w: Work) {
    match w
    case FreezeWork(f) =>
      f in s.freezes && s.freezes[f].customer == c && s.freezes[f].org == org && s.freezes[f].status != "resolved"
    case ReportWork(n) =>
      (Reports, n) in s.rows && OwnsRow(s.rows[(Reports, n)], org, {c}) && s.rows[(Reports, n)].status != "submitted"
    case AlertWork(a) =>
      a in s.alerts && s.alerts[a].org == org && Raises(s, s.alerts[a], c) && Pending(s.alerts[a].status)
    case TransactionWork(n) =>
      (TransactionAlerts, n) in s.rows && OwnsRow(s.rows[(TransactionAlerts, n)], org, {c})
      && Pending(s.rows[(TransactionAlerts, n)].status)
  }

  // Some reason is given exactly when some work is left open.
  lemma BlockedByWork(s: Store, org: int, c: int)
    ensures Blockers(s, org, c) != [] <==> exists w :: Open(s, org, c, w)
  {
    if HasFreeze(s, org, c) {
      var f :| f in s.freezes && s.freezes[f].customer == c && s.freezes[f].org == org &&
          s.freezes[f].status != "resolved";
      assert Open(s, org, c, FreezeWork(f));
    }
    if HasReport(s, org, c) {
      var r :| r in s.rows && r.0.Reports? && s.rows[r].customer == c && s.rows[r].org == org &&
          s.rows[r].status != "submitted";
      assert Open(s, org, c, ReportWork(r.1));
    }
    if a :| a in s.alerts && s.alerts[a].org == org && Raises(s, s.alerts[a], c) && Pending(s.alerts[a].status) {
      assert Open(s, org, c, AlertWork(a));
    } else if r :| r in s.rows && r.0.TransactionAlerts? && s.rows[r].customer == c && s.rows[r].org == org
                   && Pending(s.rows[r].status) {
      assert Open(s, org, c, TransactionWork(r.1));
    }
    if w :| Open(s, org, c, w) {
      WorkBlocks(s, org, c, w);
    }
  }

  lemma WorkBlocks(s: Store, org: int, c: int, w: Work)
    requires Open(s, org, c, w)
    ensures Blockers(s, org, c) != []
  {
    match w
    case FreezeWork(f) => assert HasFreeze(s, org, c);
    case ReportWork(n) => assert (Reports, n) in s.rows && HasReport(s, org, c);
    case AlertWork(a) => assert HasAlert(s, org, c);
    case TransactionWork(n) => assert (TransactionAlerts, n) in s.rows && HasAlert(s, org, c);
  }

  // ------------------------------------------------ runs

  // A purge reads who is eligible once, then deletes one customer after another
  // without looking again. left: those it has not come to yet.
  datatype Sweep = Sweep(org: int, today: Date, left: set<int>)

  datatype State = State(store: Store, sweeps: map<int, Sweep>)

  datatype Step =
    | CloseCustomer(customer: int, day: Date, until: Date)
    | ReactivateCustomer(customer: int, until: Date)
    | ReadEligible(sweep: int, org: int, today: Date)
    | DeleteNext(sweep: int, customer: int)
    | SkipNext(sweep: int, customer: int)
    | WorkOpened(org: int, client: int, work: Work)
    | WorkSettled(org: int, client: int, work: Work)
    | OtherWork

  // Neither removes a customer nor changes who is closed since when.
  ghost predicate CustomersStay(s: Store, s': Store) {
    forall c | c in s.customers ::
      && c in s'.customers && s'.customers[c].org == s.customers[c].org
      && s'.customers[c].closed == s.customers[c].closed && s'.customers[c].exitDate == s.customers[c].exitDate
  }

  // Opens and settles nothing, except perhaps one piece of work.
  ghost predicate WorkStays(s: Store, s': Store, but: set<(int, int, Work)>) {
    forall org: int, c: int, w: Work | (org, c, w) !in but :: Open(s', org, c, w) <==> Open(s, org, c, w)
  }

  // Any number of purges may be under way, between each other and other work.
  // WorkOpened and WorkSettled are one freeze, report or alert being opened or
  // settled: a freeze identified or resolved, a report drafted or submitted, an
  // alert raised, decided or taken up again. OtherWork is anything else that removes
  // no customer and closes none: onboarding, transactions, steps of work that stays
  // open, recomputed retention dates.
  ghost predicate Next(s: State, step: Step, s': State) {
    var customers := s.store.customers;
    match step
    case CloseCustomer(c, day, until) =>
      && c in customers && !customers[c].closed && RetentionFrom(day).Some?
      && s' == s.(store := s.store.(customers :=
           customers[c := customers[c].(closed := true, exitDate := Some(day), until := Some(until))]))
    case ReactivateCustomer(c, until) =>
      && c in customers && customers[c].closed
      && s' == s.(store := s.store.(customers :=
           customers[c := customers[c].(closed := false, exitDate := None, until := Some(until))]))
    case ReadEligible(id, org, today) =>
      && id !in s.sweeps
      && s' == s.(sweeps := s.sweeps[id := Sweep(org, today, EligibleSet(s.store, org, today))])
    case DeleteNext(id, c) =>
      && id in s.sweeps && c in s.sweeps[id].left
      && s' == State(Without(s.store, s.sweeps[id].org, {c}), Passed(s.sweeps, id, c))
    case SkipNext(id, c) =>
      && id in s.sweeps && c in s.sweeps[id].left
      && s' == s.(sweeps := Passed(s.sweeps, id, c))
    case WorkOpened(org, c, w) =>
      && s'.sweeps == s.sweeps && CustomersStay(s.store, s'.store)
      && Open(s'.store, org, c, w) && WorkStays(s.store, s'.store, {(org, c, w)})
    case WorkSettled(org, c, w) =>
      && s'.sweeps == s.sweeps && CustomersStay(s.store, s'.store)
      && !Open(s'.store, org, c, w) && WorkStays(s.store, s'.store, {(org, c, w)})
    case OtherWork =>
      s'.sweeps == s.sweeps && CustomersStay(s.store, s'.store) && WorkStays(s.store, s'.store, {})
  }

  function Passed(sweeps: map<int, Sweep>, id: int, c: int): map<int, Sweep>
    requires id in sweeps
  {
    sweeps[id := sweeps[id].(left := sweeps[id].left - {c})]
  }

  ghost predicate Run(run: seq<State>, steps: seq<Step>) {
    && |run| == |steps| + 1 && run[0].sweeps == map[]
    && forall i | 0 <= i < |steps| :: Next(run[i], steps[i], run[i + 1])
  }

  predicate There(run: seq<State>, i: nat, k: nat, c: int) {
    i <= k < |run| && forall j | i <= j <= k :: c in run[j].store.customers
  }

  // ------------------------------------------------ what every deletion goes back to

  // Step j read who is eligible, for the purge that step k belongs to.
  ghost predicate ReadAt(run: seq<State>, steps: seq<Step>, j: int, k: nat, id: int)
    requires Run(run, steps) && k < |run|
  {
    && 0 <= j < k && id in run[k].sweeps && steps[j] == ReadEligible(id, run[k].sweeps[id].org, run[k].sweeps[id].today)
    && run[k].sweeps[id].left <= EligibleSet(run[j].store, run[k].sweeps[id].org, run[k].sweeps[id].today)
  }

  lemma {:induction false} SweepWasRead(run: seq<State>, steps: seq<Step>, k: nat, id: int) returns (j: nat)
    requires Run(run, steps) && k < |run| && id in run[k].sweeps
    ensures ReadAt(run, steps, j, k, id)
  {
    if k == 0 {
      assert false;
    } else {
      var s, step := run[k - 1], steps[k - 1];
      assert Next(s, step, run[k]);
      if step.ReadEligible? && step.sweep == id {
        j := k - 1;
      } else {
        j := SweepWasRead(run, steps, k - 1, id);
      }
    }
  }

  // A customer leaves only by a deletion, and was eligible when the purge read.
  lemma DeletedWasEligible(run: seq<State>, steps: seq<Step>, k: nat, c: int) returns (j: nat)
    requires Run(run, steps) && k < |steps| && c in run[k].store.customers && c !in run[k + 1].store.customers
    ensures steps[k].DeleteNext? && steps[k].customer == c && ReadAt(run, steps, j, k, steps[k].sweep)
    ensures var w := run[k].sweeps[steps[k].sweep];
      Eligible(run[j].store, w.org, w.today, c) && run[k].store.customers[c].org == w.org
  {
    assert Next(run[k], steps[k], run[k + 1]);
    WithoutExactlyIfDeletion(run[k], steps[k]);
    j := SweepWasRead(run, steps, k, steps[k].sweep);
  }

  lemma WithoutExactlyIfDeletion(s: State, step: Step)
    ensures step.DeleteNext? && step.sweep in s.sweeps ==>
      forall c | c in s.store.customers ::
        c in Without(s.store, s.sweeps[step.sweep].org, {step.customer}).customers
        <==> !(c == step.customer && s.store.customers[c].org == s.sweeps[step.sweep].org)
  {
    if step.DeleteNext? && step.sweep in s.sweeps {
      WithoutExactly(s.store, s.sweeps[step.sweep].org, {step.customer});
    }
  }

  // One step on a customer that is there before and after.
  lemma StepOnCustomer(s: State, step: Step, s': State, c: int)
    requires Next(s, step, s') && c in s.store.customers && c in s'.store.customers
    ensures
      var before, after := s.store.customers[c], s'.store.customers[c];
      if step.CloseCustomer? && step.customer == c then after.closed && after.exitDate == Some(step.day)
      else if step.ReactivateCustomer? && step.customer == c then !after.closed
      else after.closed == before.closed && after.exitDate == before.exitDate
  {
    if step.DeleteNext? {
      WithoutExactly(s.store, s.sweeps[step.sweep].org, {step.customer});
    }
  }

  // Still there and not reactivated: still closed on that day.
  lemma {:induction false} StaysClosed(run: seq<State>, steps: seq<Step>, i: nat, k: nat, c: int, day: Date)
    requires Run(run, steps) && There(run, i, k, c)
    requires run[i].store.customers[c].closed && run[i].store.customers[c].exitDate == Some(day)
    requires forall j | i <= j < k :: !(steps[j].ReactivateCustomer? && steps[j].customer == c)
    ensures run[k].store.customers[c].closed && run[k].store.customers[c].exitDate == Some(day)
    decreases k - i
  {
    if i < k {
      StaysClosed(run, steps, i, k - 1, c, day);
      assert Next(run[k - 1], steps[k - 1], run[k]);
      assert c in run[k - 1].store.customers && c in run[k].store.customers;
      StepOnCustomer(run[k - 1], steps[k - 1], run[k], c);
      assert !(steps[k - 1].CloseCustomer? && steps[k - 1].customer == c);
    }
  }

  // The days on which customers are closed and purges read never go back.
  ghost predicate Timed(steps: seq<Step>) {
    forall i, j | 0 <= i < j < |steps| && DayOf(steps[i]).Some? && DayOf(steps[j]).Some? ::
      !Before(DayOf(steps[j]).value, DayOf(steps[i]).value)
  }

  function DayOf(step: Step): Option<Date> {
    match step
    case CloseCustomer(_, day, _) => Some(day)
    case ReadEligible(_, _, today) => Some(today)
    case _ => None
  }

  // Purge safety. A customer closed on day D and not reactivated since leaves only
  // by a purge, and when that read who is eligible after the closure, it read
  // after the retention date of D.
  lemma NeverPurgedEarly(run: seq<State>, steps: seq<Step>, i: nat, k: nat, c: int, day: Date) returns (j: nat)
    requires Run(run, steps) && k < |steps| && There(run, i, k, c)
    requires run[i].store.customers[c].closed && run[i].store.customers[c].exitDate == Some(day)
    requires forall n | i <= n < k :: !(steps[n].ReactivateCustomer? && steps[n].customer == c)
    requires c !in run[k + 1].store.customers
    ensures steps[k].DeleteNext? && steps[k].customer == c && ReadAt(run, steps, j, k, steps[k].sweep)
    ensures var w := run[k].sweeps[steps[k].sweep]; Eligible(run[j].store, w.org, w.today, c)
    ensures i <= j && RetentionFrom(day).Some? ==> Before(RetentionFrom(day).value, steps[j].today)
  {
    assert c in run[k].store.customers;
    j := DeletedWasEligible(run, steps, k, c);
    var w := run[k].sweeps[steps[k].sweep];
    if i <= j {
      StaysClosed(run, steps, i, j, c, day);
      EligibleMeans(run[j].store, w.org, w.today, c);
    }
  }

  // A customer closed during the run and not reactivated since: the purge that
  // deletes it read after the retention date of that closure if and only if it read
  // after the closure.
  lemma PurgedOnTimeIff(run: seq<State>, steps: seq<Step>, i: nat, k: nat, c: int) returns (j: nat)
    requires Run(run, steps) && Timed(steps) && i < k < |steps| && There(run, i + 1, k, c)
    requires steps[i].CloseCustomer? && steps[i].customer == c
    requires forall n | i < n < k :: !(steps[n].ReactivateCustomer? && steps[n].customer == c)
    requires c !in run[k + 1].store.customers
    ensures steps[k].DeleteNext? && steps[k].customer == c && ReadAt(run, steps, j, k, steps[k].sweep)
    ensures RetentionFrom(steps[i].day).Some?
    ensures Before(RetentionFrom(steps[i].day).value, steps[j].today) <==> i < j
  {
    var day := steps[i].day;
    assert Next(run[i], steps[i], run[i + 1]);
    j := NeverPurgedEarly(run, steps, i + 1, k, c, day);
    if j < i {
      assert j < i && DayOf(steps[j]) == Some(steps[j].today) && DayOf(steps[i]) == Some(day);
    }
  }

  // ------------------------------------------------ what may happen in between

  // A customer is no longer closed when it is deleted if and only if it was
  // reactivated after the purge read, and not closed again.
  lemma {:induction false} ActiveAtDeletionIff(run: seq<State>, steps: seq<Step>, j: nat, k: nat, c: int)
    requires Run(run, steps) && There(run, j, k, c) && run[j].store.customers[c].closed
    ensures !run[k].store.customers[c].closed <==>
      exists m :: j <= m < k && steps[m].ReactivateCustomer? && steps[m].customer == c
        && forall n | m < n < k :: !(steps[n].CloseCustomer? && steps[n].customer == c)
    decreases k - j
  {
    if j < k {
      var last := steps[k - 1];
      assert Next(run[k - 1], last, run[k]) && c in run[k - 1].store.customers && c in run[k].store.customers;
      StepOnCustomer(run[k - 1], last, run[k], c);
      ActiveAtDeletionIff(run, steps, j, k - 1, c);
      if !run[k - 1].store.customers[c].closed && !run[k].store.customers[c].closed {
        var m :| j <= m < k - 1 && steps[m].ReactivateCustomer? && steps[m].customer == c
          && forall n | m < n < k - 1 :: !(steps[n].CloseCustomer? && steps[n].customer == c);
        assert forall n | m < n < k :: !(steps[n].CloseCustomer? && steps[n].customer == c);
      }
    }
  }

  // Deleting another customer, of whatever organisation, leaves it alone.
  lemma DeletionKeepsWork(s: Store, org: int, other: int, d: int, c: int, w: Work)
    requires c in s.customers && d != c
    ensures Open(Without(s, other, {d}), org, c, w) <==> Open(s, org, c, w)
  {
    WithoutExactly(s, other, {d});
  }

  // Whether a piece of work of a customer that stays is open is decided by the step
  // that opens or settles it; every other step leaves it as it was.
  lemma WorkStep(s: State, step: Step, s': State, org: int, c: int, w: Work)
    requires Next(s, step, s') && c in s.store.customers && !(step.DeleteNext? && step.customer == c)
    ensures Open(s'.store, org, c, w) <==>
      step == WorkOpened(org, c, w) || (Open(s.store, org, c, w) && step != WorkSettled(org, c, w))
  {
    if step.DeleteNext? {
      var other := s.sweeps[step.sweep].org;
      DeletionKeepsWork(s.store, org, other, step.customer, c, w);
    } else if step.WorkOpened? || step.WorkSettled? {
      assert (org, c, w) != (step.org, step.client, step.work) ==> (org, c, w) !in {(step.org, step.client, step.work)};
    } else if step.OtherWork? {
      assert (org, c, w) !in {};
    }
  }

  // Step m opened it and no later one settled it.
  predicate OpenedBy(steps: seq<Step>, m: int, k: nat, org: int, c: int, w: Work)
    requires k <= |steps|
  {
    && 0 <= m < k && steps[m] == WorkOpened(org, c, w)
    && forall n | m < n < k :: steps[n] != WorkSettled(org, c, w)
  }

  lemma {:induction false} OpenIff(run: seq<State>, steps: seq<Step>, j: nat, k: nat, org: int, c: int, w: Work)
    requires Run(run, steps) && There(run, j, k, c) && !Open(run[j].store, org, c, w)
    requires forall n | j <= n < k :: !(steps[n].DeleteNext? && steps[n].customer == c)
    ensures Open(run[k].store, org, c, w) <==> exists m :: j <= m && OpenedBy(steps, m, k, org, c, w)
    decreases k - j
  {
    if j < k {
      var last := steps[k - 1];
      assert Next(run[k - 1], last, run[k]) && c in run[k - 1].store.customers && c in run[k].store.customers;
      OpenIff(run, steps, j, k - 1, org, c, w);
      WorkStep(run[k - 1], last, run[k], org, c, w);
      if last == WorkOpened(org, c, w) {
        assert OpenedBy(steps, k - 1, k, org, c, w);
      } else if Open(run[k].store, org, c, w) {
        var m :| j <= m && OpenedBy(steps, m, k - 1, org, c, w);
        assert OpenedBy(steps, m, k, org, c, w);
      }
      if m :| j <= m && OpenedBy(steps, m, k, org, c, w) {
        assert m < k - 1 ==> OpenedBy(steps, m, k - 1, org, c, w);
      }
    }
  }

  // A customer is deleted with work left open if and only if, after the purge read,
  // some step opened work of that customer that no later step settled. (No other
  // purge came to the customer in between.)
  lemma DeletedWithWorkIff(run: seq<State>, steps: seq<Step>, j: nat, k: nat, c: int)
    requires Run(run, steps) && k < |steps| && steps[k].DeleteNext? && steps[k].customer == c
    requires ReadAt(run, steps, j, k, steps[k].sweep) && There(run, j, k, c)
    requires forall n | j <= n < k :: !(steps[n].DeleteNext? && steps[n].customer == c)
    ensures var org := run[k].sweeps[steps[k].sweep].org;
      Blockers(run[k].store, org, c) != [] <==> exists w, m :: j <= m && OpenedBy(steps, m, k, org, c, w)
  {
    assert Next(run[k], steps[k], run[k + 1]) && c in run[j].store.customers;
    var org := run[k].sweeps[steps[k].sweep].org;
    assert Eligible(run[j].store, org, run[k].sweeps[steps[k].sweep].today, c);
    BlockedByWork(run[j].store, org, c);
    BlockedByWork(run[k].store, org, c);
    forall w
      ensures Open(run[k].store, org, c, w) <==> exists m :: j <= m && OpenedBy(steps, m, k, org, c, w)
    {
      OpenIff(run, steps, j, k, org, c, w);
    }
    if w, m :| j <= m && OpenedBy(steps, m, k, org, c, w) {
      assert Open(run[k].store, org, c, w);
    }
    if w :| Open(run[k].store, org, c, w) {
      var m :| j <= m && OpenedBy(steps, m, k, org, c, w);
    }
  }

  // A purge that reads, is overtaken by one step, and deletes.
  lemma Overtaken(s: Store, org: int, today: Date, c: int, between: Step, later: Store)
    returns (run: seq<State>, steps: seq<Step>)
    requires Eligible(s, org, today, c) && c in later.customers && later.customers[c].org == org
    requires Next(State(s, FirstSweep(s, org, today)), between, State(later, FirstSweep(s, org, today)))
    ensures Run(run, steps) && |steps| == 3 && run[0].store == s && run[2].store == later
    ensures c !in run[3].store.customers
  {
    run, steps := OneRead(s, org, today);
    run, steps := Extended(run, steps, between, State(later, FirstSweep(s, org, today)));
    var last := State(Without(later, org, {c}), Passed(FirstSweep(s, org, today), 1, c));
    WithoutExactly(later, org, {c});
    run, steps := Extended(run, steps, DeleteNext(1, c), last);
  }

  function FirstSweep(s: Store, org: int, today: Date): map<int, Sweep> {
    map[1 := Sweep(org, today, EligibleSet(s, org, today))]
  }

  lemma OneRead(s: Store, org: int, today: Date) returns (run: seq<State>, steps: seq<Step>)
    ensures Run(run, steps) && run == [State(s, map[]), State(s, FirstSweep(s, org, today))]
    ensures steps == [ReadEligible(1, org, today)]
  {
    run, steps := [State(s, map[]), State(s, FirstSweep(s, org, today))], [ReadEligible(1, org, today)];
  }

  lemma Extended(run: seq<State>, steps: seq<Step>, step: Step, next: State)
    returns (run': seq<State>, steps': seq<Step>)
    requires Run(run, steps) && Next(run[|steps|], step, next)
    ensures Run(run', steps') && run' == run + [next] && steps' == steps + [step]
  {
    run', steps' := run + [next], steps + [step];
    forall i | 0 <= i < |steps'|
      ensures Next(run'[i], steps'[i], run'[i + 1])
    {
    }
  }

  // Both can happen: an eligible customer is reactivated, or given a freeze, after
  // the purge read, and deleted all the same.
  lemma ActiveCustomerDeleted(s: Store, org: int, today: Date, c: int, until: Date)
    returns (run: seq<State>, steps: seq<Step>)
    requires Eligible(s, org, today, c)
    ensures Run(run, steps) && |steps| == 3 && run[0].store == s
    ensures c in run[2].store.customers && !run[2].store.customers[c].closed && c !in run[3].store.customers
  {
    var active := s.customers[c].(closed := false, exitDate := None, until := Some(until));
    var later := s.(customers := s.customers[c := active]);
    run, steps := Overtaken(s, org, today, c, ReactivateCustomer(c, until), later);
  }

  lemma FrozenCustomerDeleted(s: Store, org: int, today: Date, c: int, f: int)
    returns (run: seq<State>, steps: seq<Step>)
    requires Eligible(s, org, today, c) && f !in s.freezes
    ensures Run(run, steps) && |steps| == 3 && run[0].store == s
    ensures HasFreeze(run[2].store, org, c) && c in run[2].store.customers && c !in run[3].store.customers
  {
    var later := s.(freezes := s.freezes[f := Freeze(org, c, "pending_execution")]);
    assert f in later.freezes && later.freezes[f] == Freeze(org, c, "pending_execution");
    forall o: int, d: int, w: Work | (o, d, w) !in {(org, c, FreezeWork(f))}
      ensures Open(later, o, d, w) <==> Open(s, o, d, w)
    {
    }
    run, steps := Overtaken(s, org, today, c, WorkOpened(org, c, FreezeWork(f)), later);
  }

  lemma ReactivatedAndClosed(s: Store, org: int, today: Date, c: int, until: Date, later: Store)
    returns (run: seq<State>, steps: seq<Step>)
    requires Eligible(s, org, today, c) && RetentionFrom(today).Some?
    requires later == s.(customers := s.customers[c :=
      s.customers[c].(closed := true, exitDate := Some(today), until := Some(until))])
    ensures Run(run, steps) && |steps| == 3 && run[0].store == s
    ensures steps == [ReadEligible(1, org, today), ReactivateCustomer(c, until), CloseCustomer(c, today, until)]
    ensures run[3] == State(later, FirstSweep(s, org, today))
  {
    var active := s.customers[c].(closed := false, exitDate := None, until := Some(until));
    var between := s.(customers := s.customers[c := active]);
    run, steps := OneRead(s, org, today);
    run, steps := Extended(run, steps, ReactivateCustomer(c, until), State(between, FirstSweep(s, org, today)));
    assert later.customers == between.customers[c := later.customers[c]];
    run, steps := Extended(run, steps, CloseCustomer(c, today, until), State(later, FirstSweep(s, org, today)));
  }

  // One that is reactivated and closed again after the read is deleted on the very
  // day of that closure, years before its retention date.
  lemma DeletedOnClosure(s: Store, org: int, today: Date, c: int, until: Date)
    returns (run: seq<State>, steps: seq<Step>)
    requires Eligible(s, org, today, c) && RetentionFrom(today).Some?
    ensures Run(run, steps) && Timed(steps) && |steps| == 4 && run[0].store == s
    ensures steps[2] == CloseCustomer(c, today, until) && c in run[3].store.customers
    ensures steps[3] == DeleteNext(1, c) && c !in run[4].store.customers
    ensures !Before(RetentionFrom(today).value, today)
  {
    var closed := s.customers[c].(closed := true, exitDate := Some(today), until := Some(until));
    var later := s.(customers := s.customers[c := closed]);
    run, steps := ReactivatedAndClosed(s, org, today, c, until, later);
    WithoutExactly(later, org, {c});
    var last := State(Without(later, org, {c}), Passed(FirstSweep(s, org, today), 1, c));
    run, steps := Extended(run, steps, DeleteNext(1, c), last);
  }

  // Such a customer: closed in 2010, kept until 2020, nothing open in 2026.
  lemma EligibleExample()
    ensures
      var gone := Customer(1, true, Some(Day(2010, 1, 1)), Some(Day(2020, 1, 1)));
      Eligible(Store(map[7 := gone], map[], map[], map[], map[], map[]), 1, Day(2026, 1, 1), 7)
  {
    IsoOrder(Day(2020, 1, 1), Day(2026, 1, 1));
  }
}

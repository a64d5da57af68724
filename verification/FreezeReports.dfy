// The lifecycle of a freeze obligation and of the CNMR report (internally FFR)
// that discharges it: two linked state machines that must never contradict each
// other.
module FreezeReports {
  import opened Prelude

  const OBLIGATION_TYPES := {"sanctions", "proliferation", "terrorism"}
  const RISK_CATEGORIES := {"high", "critical"}

  datatype Status = PendingExecution | ExecutedPendingReport | Reported | Resolved

  datatype Reason = Delisted | FalsePositive | AuthorityClearance

  datatype Freeze = Freeze(
    org: int, customer: int, alertId: Option<int>, obligation: string, risk: string, status: Status,
    executedAt: Option<int>, reportedAt: Option<int>, reportId: Option<int>,
    resolvedAt: Option<int>, reason: Option<Reason>)

  datatype ReportStatus = Draft | Submitted

  datatype Report = Report(
    org: int, customer: int, kind: string, status: ReportStatus, submittedAt: Option<int>, payload: string)

  datatype Alert = Alert(org: int, status: string)

  datatype Desk = Desk(freezes: map<int, Freeze>, reports: map<int, Report>, alerts: map<int, Alert>)

  // Fresh ids are what the database assigns to inserted rows.
  datatype Op =
    | Create(id: int, org: int, customer: int, alertId: Option<int>, obligation: string, risk: string)
    | Execute(id: int, org: int, now: int)
    | FileCnmr(id: int, org: int, newReport: int, nameBlank: bool, payload: Option<string>)
    | Submit(reportId: int, org: int, exportable: bool, now: int)
    | Resolve(id: int, org: int, why: string, authorityRef: string, notes: string, now: int)
    | SaveNew(newReport: int, org: int, customer: int, kind: string, content: string)
    | SaveDraft(reportId: int, org: int, content: string)
    | Dispositions(alerts: map<int, Alert>)  // alerts raised or dispositioned meanwhile

  datatype Outcome = Done(id: int) | Refused

  // ------------------------------------------------ what each operation does

  function ReasonOf(why: string): Option<Reason> {
    if why == "delisted" then Some(Delisted)
    else if why == "false_positive" then Some(FalsePositive)
    else if why == "authority_clearance" then Some(AuthorityClearance)
    else None
  }

  predicate OwnFreeze(d: Desk, id: int, org: int) {
    id in d.freezes && d.freezes[id].org == org
  }

  predicate OwnReport(d: Desk, id: int, org: int) {
    id in d.reports && d.reports[id].org == org
  }

  predicate LinkedReport(d: Desk, f: Freeze) {
    f.reportId.Some? && OwnReport(d, f.reportId.value, f.org)
  }

  predicate ConfirmedMatch(d: Desk, f: Freeze) {
    && f.alertId.Some? && f.alertId.value in d.alerts && d.alerts[f.alertId.value].org == f.org
    && d.alerts[f.alertId.value].status == "true_positive"
  }

  predicate MayExecute(d: Desk, id: int, org: int) {
    OwnFreeze(d, id, org) && d.freezes[id].executedAt.None? && !d.freezes[id].status.Resolved?
  }

  predicate MayResolve(d: Desk, id: int, org: int, why: string, authorityRef: string, notes: string) {
    && ReasonOf(why).Some?
    && (why == "authority_clearance" ==> authorityRef != "")
    && (why == "false_positive" ==> |notes| >= 20)
    && OwnFreeze(d, id, org)
    && var f := d.freezes[id];
       && !(LinkedReport(d, f) && d.reports[f.reportId.value].status == Draft)
       && (why != "false_positive" ==> f.executedAt.Some?)
       && !f.status.Resolved?
       && !(why == "false_positive" && ConfirmedMatch(d, f))
  }

  // Freezes waiting for exactly this report.
  predicate Awaits(f: Freeze, reportId: int, org: int) {
    f.reportId == Some(reportId) && f.org == org && f.status.ExecutedPendingReport?
  }

  function Marked(freezes: map<int, Freeze>, reportId: int, org: int, now: int): map<int, Freeze> {
    map i | i in freezes ::
      if Awaits(freezes[i], reportId, org) then freezes[i].(status := Reported, reportedAt := Some(now)) else freezes[i]
  }

  predicate Accepted(d: Desk, op: Op) {
    match op
    case Create(_, _, _, _, obligation, risk) => obligation in OBLIGATION_TYPES && risk in RISK_CATEGORIES
    case Execute(id, org, _) => MayExecute(d, id, org)
    case FileCnmr(id, org, _, nameBlank, payload) =>
      && OwnFreeze(d, id, org) && d.freezes[id].status.ExecutedPendingReport?
      && (LinkedReport(d, d.freezes[id]) || (!nameBlank && payload.Some?))
    case Submit(reportId, org, exportable, _) =>
      OwnReport(d, reportId, org) && d.reports[reportId].status != Submitted && exportable
    case Resolve(id, org, why, authorityRef, notes, _) => MayResolve(d, id, org, why, authorityRef, notes)
    case SaveNew(_, _, _, _, _) => true
    case SaveDraft(reportId, org, _) => OwnReport(d, reportId, org) && d.reports[reportId].status == Draft
    case Dispositions(_) => true
  }

  function After(d: Desk, op: Op): Desk
    requires Accepted(d, op)
  {
    match op
    case Create(id, org, customer, alertId, obligation, risk) =>
      d.(freezes := d.freezes[id :=
        Freeze(org, customer, alertId, obligation, risk, PendingExecution, None, None, None, None, None)])
    case Execute(id, org, now) =>
      d.(freezes := d.freezes[id := d.freezes[id].(status := ExecutedPendingReport, executedAt := Some(now))])
    case FileCnmr(id, org, newReport, _, payload) =>
      if LinkedReport(d, d.freezes[id]) then d
      else
        d.(reports := d.reports[newReport := Report(org, d.freezes[id].customer, "FFR", Draft, None, payload.value)],
           freezes := d.freezes[id := d.freezes[id].(reportId := Some(newReport))])
    case Submit(reportId, org, _, now) =>
      d.(reports := d.reports[reportId := d.reports[reportId].(status := Submitted, submittedAt := Some(now))],
         freezes := Marked(d.freezes, reportId, org, now))
    case Resolve(id, org, why, _, _, now) =>
      d.(freezes := d.freezes[id :=
        d.freezes[id].(status := Resolved, resolvedAt := Some(now), reason := ReasonOf(why))])
    case SaveNew(newReport, org, customer, kind, content) =>
      d.(reports := d.reports[newReport := Report(org, customer, kind, Draft, None, content)])
    case SaveDraft(reportId, org, content) =>
      d.(reports := d.reports[reportId := d.reports[reportId].(payload := content)])
    case Dispositions(alerts) => d.(alerts := alerts)
  }

  function Step(d: Desk, op: Op): Desk {
    if Accepted(d, op) then After(d, op) else d
  }

  predicate Fresh(d: Desk, op: Op) {
    match op
    case Create(id, _, _, _, _, _) => id !in d.freezes
    case FileCnmr(_, _, newReport, _, _) => newReport !in d.reports
    case SaveNew(newReport, _, _, _, _) => newReport !in d.reports
    case _ => true
  }

  class FreezeDesk {
    var freezes: map<int, Freeze>
    var reports: map<int, Report>
    var alerts: map<int, Alert>

    function View(): Desk
      reads this
    {
      Desk(freezes, reports, alerts)
    }

    constructor (alerts: map<int, Alert>)
      ensures View() == Desk(map[], map[], alerts)
    {
      freezes, reports, this.alerts := map[], map[], alerts;
    }

    method CreateFreeze(id: int, org: int, customer: int, alertId: Option<int>, obligation: string, risk: string)
      returns (outcome: Outcome)
      requires id !in freezes
      modifies this
      ensures View() == Step(old(View()), Create(id, org, customer, alertId, obligation, risk))
      ensures outcome.Done? <==> Accepted(old(View()), Create(id, org, customer, alertId, obligation, risk))
    {
      if obligation != "sanctions" && obligation != "proliferation" && obligation != "terrorism" {
        return Refused;
      }
      if risk != "high" && risk != "critical" {
        return Refused;
      }
      freezes := freezes[id :=
        Freeze(org, customer, alertId, obligation, risk, PendingExecution, None, None, None, None, None)];
      return Done(id);
    }

    method ExecuteFreeze(id: int, org: int, now: int) returns (outcome: Outcome)
      modifies this
      ensures View() == Step(old(View()), Execute(id, org, now))
      ensures outcome.Done? <==> Accepted(old(View()), Execute(id, org, now))
    {
      if !(id in freezes && freezes[id].org == org) {
        return Refused;
      }
      var row := freezes[id];
      if row.executedAt.Some? {
        return Refused;
      }
      if row.status == Resolved {
        return Refused;
      }
      freezes := freezes[id := row.(status := ExecutedPendingReport, executedAt := Some(now))];
      return Done(id);
    }

    // payload is None where the export raises. Returns the linked report's id.
    method FileReport(id: int, org: int, newReport: int, nameBlank: bool, payload: Option<string>)
      returns (outcome: Outcome)
      requires newReport !in reports
      modifies this
      ensures View() == Step(old(View()), FileCnmr(id, org, newReport, nameBlank, payload))
      ensures outcome.Done? <==> Accepted(old(View()), FileCnmr(id, org, newReport, nameBlank, payload))
      ensures outcome.Done? ==> freezes[id].reportId == Some(outcome.id) && OwnReport(View(), outcome.id, org)
    {
      if !(id in freezes && freezes[id].org == org) {
        return Refused;
      }
      var freeze := freezes[id];
      if freeze.status != ExecutedPendingReport {
        return Refused;
      }
      if freeze.reportId.Some? && freeze.reportId.value in reports && reports[freeze.reportId.value].org == org {
        return Done(freeze.reportId.value);
      }
      if nameBlank || payload.None? {
        return Refused;
      }
      reports := reports[newReport := Report(org, freeze.customer, "FFR", Draft, None, payload.value)];
      freezes := freezes[id := freeze.(reportId := Some(newReport))];
      return Done(newReport);
    }

    // mark_freeze_reported: every freeze pending on this report, one by one.
    method MarkFreezeReported(reportId: int, org: int, now: int)
      modifies `freezes
      ensures freezes == Marked(old(freezes), reportId, org, now)
    {
      ghost var before := freezes;
      var ids := set i | i in freezes && Awaits(freezes[i], reportId, org);
      ghost var all := ids;
      while ids != {}
        invariant ids <= all && freezes.Keys == before.Keys
        invariant forall i | i in all - ids :: freezes[i] == before[i].(status := Reported, reportedAt := Some(now))
        invariant forall i | i in before && i !in all - ids :: freezes[i] == before[i]
        decreases ids
      {
        ghost var any := Pick(ids);
        var i :| i in ids;
        freezes := freezes[i := freezes[i].(reportedAt := Some(now), status := Reported)];
        ids := ids - {i};
      }
      forall i | i in before
        ensures freezes[i] == Marked(before, reportId, org, now)[i]
      {
        assert i in all <==> Awaits(before[i], reportId, org);
      }
      assert freezes == Marked(before, reportId, org, now);
    }

    // Report and freeze change in one transaction.
    method SubmitReport(reportId: int, org: int, exportable: bool, now: int) returns (outcome: Outcome)
      modifies this
      ensures View() == Step(old(View()), Submit(reportId, org, exportable, now))
      ensures outcome.Done? <==> Accepted(old(View()), Submit(reportId, org, exportable, now))
    {
      if !(reportId in reports && reports[reportId].org == org) {
        return Refused;
      }
      if reports[reportId].status == Submitted || !exportable {
        return Refused;
      }
      reports := reports[reportId := reports[reportId].(status := Submitted, submittedAt := Some(now))];
      MarkFreezeReported(reportId, org, now);
      return Done(reportId);
    }

    method ResolveFreeze(id: int, org: int, why: string, authorityRef: string, notes: string, now: int)
      returns (outcome: Outcome)
      modifies this
      ensures View() == Step(old(View()), Resolve(id, org, why, authorityRef, notes, now))
      ensures outcome.Done? <==> Accepted(old(View()), Resolve(id, org, why, authorityRef, notes, now))
    {
      if why != "delisted" && why != "false_positive" && why != "authority_clearance" {
        return Refused;
      }
      if why == "authority_clearance" && authorityRef == "" {
        return Refused;
      }
      if why == "false_positive" && |notes| < 20 {
        return Refused;
      }
      if !(id in freezes && freezes[id].org == org) {
        return Refused;
      }
      var row := freezes[id];
      if row.reportId.Some? && row.reportId.value in reports && reports[row.reportId.value].org == row.org
         && reports[row.reportId.value].status == Draft {
        return Refused;
      }
      if why != "false_positive" && row.executedAt.None? {
        return Refused;
      }
      if row.status == Resolved {
        return Refused;
      }
      if why == "false_positive" && row.alertId.Some? && row.alertId.value in alerts
         && alerts[row.alertId.value].org == row.org && alerts[row.alertId.value].status == "true_positive" {
        return Refused;
      }
      freezes := freezes[id := row.(status := Resolved, resolvedAt := Some(now), reason := ReasonOf(why))];
      return Done(id);
    }

    // A finalised report is never overwritten.
    method SaveReport(reportId: Option<int>, newReport: int, org: int, customer: int, kind: string, content: string)
      returns (outcome: Outcome)
      requires newReport !in reports
      modifies this
      ensures
        var op := if reportId.Some? then SaveDraft(reportId.value, org, content)
                  else SaveNew(newReport, org, customer, kind, content);
        View() == Step(old(View()), op) && (outcome.Done? <==> Accepted(old(View()), op))
    {
      if reportId.Some? {
        var rid := reportId.value;
        if !(rid in reports && reports[rid].org == org) || reports[rid].status != Draft {
          return Refused;
        }
        reports := reports[rid := reports[rid].(payload := content)];
        return Done(rid);
      }
      reports := reports[newReport := Report(org, customer, kind, Draft, None, content)];
      return Done(newReport);
    }

    // The UPDATE of one disagreeing pair; a report already finalised for another
    // freeze is left alone.
    method FinaliseOne(i: int, now: int, ghost before: Desk, ghost done: set<int>)
      requires i in before.freezes && done <= before.freezes.Keys && Disagrees(before, i)
      requires freezes == before.freezes && AllFixed(before, reports, done, now)
      modifies `reports
      ensures AllFixed(before, reports, done + {i}, now)
    {
      var f := freezes[i];
      var r := f.reportId.value;
      var time := if f.reportedAt.Some? then f.reportedAt.value else now;
      FixOneEverywhere(before, reports, done, i, now);
      if reports[r].status == Draft {
        reports := reports[r := reports[r].(status := Submitted, submittedAt := Some(time))];
      }
    }

    // The one-off fix for freezes marked reported while their CNMR was a draft.
    method FinaliseLegacyDrafts(now: int)
      modifies `reports
      ensures Finalised(old(View()), View(), now)
    {
      ghost var before := View();
      var ids := Disagreeing(View());
      ghost var done: set<int> := {};
      NothingFixed(before, now);
      while ids != {}
        invariant done + ids == Disagreeing(before)
        invariant freezes == before.freezes && AllFixed(before, reports, done, now)
        decreases ids
      {
        ghost var any := Pick(ids);
        var i :| i in ids;
        FinaliseOne(i, now, before, done);
        done, ids := done + {i}, ids - {i};
      }
      assert done == Disagreeing(before);
    }
  }

  // ------------------------------------------------ the legacy fix

  // A freeze already reported whose CNMR, in its own organisation, is a draft.
  predicate Disagrees(d: Desk, i: int)
    requires i in d.freezes
  {
    var f := d.freezes[i];
    f.status.Reported? && LinkedReport(d, f)
    && d.reports[f.reportId.value].status == Draft && d.reports[f.reportId.value].kind == "FFR"
  }

  // Report r, finalised on behalf of freeze i.
  ghost predicate Witness(d: Desk, i: int, r: int, after: Report, now: int)
    requires r in d.reports && i in d.freezes
  {
    Disagrees(d, i) && d.freezes[i].reportId == Some(r)
    && after == d.reports[r].(status := Submitted,
         submittedAt := Some(if d.freezes[i].reportedAt.Some? then d.freezes[i].reportedAt.value else now))
  }

  // What has become of report r once the freezes `done` have been looked at.
  ghost predicate FixedReport(d: Desk, r: int, after: Report, done: set<int>, now: int)
    requires r in d.reports && done <= d.freezes.Keys
  {
    if exists i :: i in done && Disagrees(d, i) && d.freezes[i].reportId == Some(r)
    then exists i :: i in done && Witness(d, i, r, after, now)
    else after == d.reports[r]
  }

  ghost predicate AllFixed(d: Desk, reports: map<int, Report>, done: set<int>, now: int)
    requires done <= d.freezes.Keys
  {
    reports.Keys == d.reports.Keys && forall r | r in d.reports :: FixedReport(d, r, reports[r], done, now)
  }

  lemma NothingFixed(d: Desk, now: int)
    ensures AllFixed(d, d.reports, {}, now)
  {
  }

  // Looking at one freeze more: its report is finalised unless it was already.
  lemma FixOneEverywhere(d: Desk, reports: map<int, Report>, done: set<int>, i: int, now: int)
    requires i in d.freezes && done <= d.freezes.Keys && Disagrees(d, i) && AllFixed(d, reports, done, now)
    ensures
      var r := d.freezes[i].reportId.value;
      var time := if d.freezes[i].reportedAt.Some? then d.freezes[i].reportedAt.value else now;
      && r in reports
      && AllFixed(d, if reports[r].status == Draft
                     then reports[r := reports[r].(status := Submitted, submittedAt := Some(time))] else reports,
                  done + {i}, now)
  {
  }

  function Disagreeing(d: Desk): set<int> {
    set i | i in d.freezes && Disagrees(d, i)
  }

  ghost predicate Finalised(d: Desk, d': Desk, now: int) {
    d' == d.(reports := d'.reports) && AllFixed(d, d'.reports, Disagreeing(d), now)
  }

  // Afterwards reported implies submitted for every such pair, and running the
  // fix again changes nothing.
  lemma FixAgrees(d: Desk, d': Desk, now: int)
    requires Finalised(d, d', now)
    ensures forall i | i in d'.freezes :: !Disagrees(d', i)
    ensures forall d'': Desk, later: int :: Finalised(d', d'', later) ==> d'' == d'
  {
    var all := Disagreeing(d);
    forall i | i in d'.freezes
      ensures !Disagrees(d', i)
    {
      if LinkedReport(d', d'.freezes[i]) {
        var r := d'.freezes[i].reportId.value;
        assert FixedReport(d, r, d'.reports[r], all, now);
        if Disagrees(d, i) {
          assert i in all;
        }
      }
    }
    forall d'': Desk, later: int | Finalised(d', d'', later)
      ensures d'' == d'
    {
      var none := Disagreeing(d');
      forall r | r in d'.reports
        ensures d''.reports[r] == d'.reports[r]
      {
        assert FixedReport(d', r, d''.reports[r], none, later);
      }
      assert d''.reports == d'.reports;
    }
  }

  // ------------------------------------------------ the invariant

  ghost predicate Recorded(d: Desk, f: Freeze) {
    && (f.status.PendingExecution? ==> f.executedAt.None? && f.reportedAt.None? && f.reportId.None?)
    && (f.status.ExecutedPendingReport? ==> f.executedAt.Some? && f.reportedAt.None?)
    && (f.status.Reported? ==> f.executedAt.Some? && f.reportedAt.Some?)
    && (f.status.Resolved? ==> f.resolvedAt.Some? && f.reason.Some?)
    && (f.status.Resolved? && f.executedAt.None? ==> f.reason == Some(FalsePositive))
    // a linked report is this organisation's CNMR
    && (f.status.Reported? ==> f.reportId.Some?)
    && (f.reportId.Some? ==>
         && f.executedAt.Some? && LinkedReport(d, f) && d.reports[f.reportId.value].kind == "FFR"
         && (d.reports[f.reportId.value].status == Submitted ==> f.status.Reported? || f.status.Resolved?))
  }

  // The two states agree: a draft belongs to a freeze that waits for it.
  ghost predicate Consistent(d: Desk, f: Freeze) {
    && Recorded(d, f)
    && (f.reportId.Some? && d.reports[f.reportId.value].status == Draft ==> f.status.ExecutedPendingReport?)
  }

  ghost predicate Inv(d: Desk) {
    && (forall i | i in d.freezes :: Consistent(d, d.freezes[i]))
    && (forall i, j | i in d.freezes && j in d.freezes && i != j && d.freezes[i].reportId.Some? ::
          d.freezes[i].reportId != d.freezes[j].reportId)
  }

  lemma FreezeStaysConsistent(d: Desk, op: Op, i: int)
    requires Inv(d) && Fresh(d, op) && Accepted(d, op) && i in After(d, op).freezes
    ensures Consistent(After(d, op), After(d, op).freezes[i])
  {
    if i in d.freezes {
      assert Consistent(d, d.freezes[i]);
    }
  }

  lemma ReportsStayUnshared(d: Desk, op: Op, i: int, j: int)
    requires Inv(d) && Fresh(d, op) && Accepted(d, op)
    requires i in After(d, op).freezes && j in After(d, op).freezes && i != j
    ensures After(d, op).freezes[i].reportId.Some? ==>
      After(d, op).freezes[i].reportId != After(d, op).freezes[j].reportId
  {
    if i in d.freezes && j in d.freezes {
      assert Consistent(d, d.freezes[i]) && Consistent(d, d.freezes[j]);
    }
  }

  // Every operation keeps the two machines in agreement.
  lemma StepKeepsInv(d: Desk, op: Op)
    requires Inv(d) && Fresh(d, op)
    ensures Inv(Step(d, op))
  {
    if Accepted(d, op) {
      var freezes := After(d, op).freezes;
      forall i | i in freezes
        ensures Consistent(After(d, op), freezes[i])
      {
        FreezeStaysConsistent(d, op, i);
      }
      forall i, j | i in freezes && j in freezes && i != j && freezes[i].reportId.Some?
        ensures freezes[i].reportId != freezes[j].reportId
      {
        ReportsStayUnshared(d, op, i, j);
      }
    }
  }

  function Rank(s: Status): int {
    match s
    case PendingExecution => 0
    case ExecutedPendingReport => 1
    case Reported => 2
    case Resolved => 3
  }

  ghost predicate ForwardFreeze(f: Freeze, g: Freeze) {
    && Rank(f.status) <= Rank(g.status)
    && (f.executedAt.Some? ==> g.executedAt == f.executedAt)
    && (f.reportedAt.Some? ==> g.reportedAt == f.reportedAt)
    && (f.reportId.Some? ==> g.reportId == f.reportId)
    && (f.status.Resolved? ==> g == f)
  }

  // Forward only: a status never goes back, a stage's record is never rewritten,
  // and a submitted report is final.
  ghost predicate Forward(d: Desk, d': Desk) {
    && (forall i | i in d.freezes :: i in d'.freezes && ForwardFreeze(d.freezes[i], d'.freezes[i]))
    && (forall r | r in d.reports ::
         && r in d'.reports
         && (d.reports[r].status == Submitted ==> d'.reports[r] == d.reports[r]))
  }

  lemma StepForward(d: Desk, op: Op)
    requires Inv(d) && Fresh(d, op)
    ensures Forward(d, Step(d, op))
  {
    if Accepted(d, op) {
      var d' := After(d, op);
      forall i | i in d.freezes
        ensures i in d'.freezes && ForwardFreeze(d.freezes[i], d'.freezes[i])
      {
        assert Consistent(d, d.freezes[i]);
      }
    }
  }

  ghost predicate Run(run: seq<Desk>, ops: seq<Op>) {
    && |run| == |ops| + 1
    && run[0].freezes == map[]
    && forall i | 0 <= i < |ops| :: Fresh(run[i], ops[i]) && run[i + 1] == Step(run[i], ops[i])
  }

  // Over every run of freeze and report operations the invariant holds, and
  // between any two moments everything has only moved forward.
  lemma {:induction false} RunConsistent(run: seq<Desk>, ops: seq<Op>, i: nat, k: nat)
    requires Run(run, ops) && i <= k < |run|
    ensures Inv(run[k]) && Forward(run[i], run[k])
    decreases k
  {
    if k > 0 {
      RunConsistent(run, ops, if i < k then i else k - 1, k - 1);
      assert run[k] == Step(run[k - 1], ops[k - 1]);
      StepKeepsInv(run[k - 1], ops[k - 1]);
      StepForward(run[k - 1], ops[k - 1]);
      if i < k {
        ForwardTransitive(run[i], run[k - 1], run[k]);
      }
    }
  }

  lemma ForwardTransitive(a: Desk, b: Desk, c: Desk)
    requires Forward(a, b) && Forward(b, c)
    ensures Forward(a, c)
  {
  }

  // ------------------------------------------------ from legacy data

  // The invariant except that a freeze may have been reported, and even resolved,
  // while its CNMR stayed a draft.
  ghost predicate LegacyInv(d: Desk) {
    && (forall i | i in d.freezes :: Recorded(d, d.freezes[i]))
    && (forall i, j | i in d.freezes && j in d.freezes && i != j && d.freezes[i].reportId.Some? ::
          d.freezes[i].reportId != d.freezes[j].reportId)
  }

  predicate ResolvedWithDraft(d: Desk, f: Freeze) {
    f.status.Resolved? && LinkedReport(d, f) && d.reports[f.reportId.value].status == Draft
  }

  // The fix looks at reported freezes only. It turns such data into data every
  // later run keeps consistent if and only if no freeze was resolved with its
  // CNMR still a draft.
  lemma FixEstablishesInvIff(d: Desk, d': Desk, now: int)
    requires LegacyInv(d) && Finalised(d, d', now)
    ensures Inv(d') <==> forall i | i in d.freezes :: !ResolvedWithDraft(d, d.freezes[i])
  {
    forall i | i in d.freezes
      ensures Consistent(d', d'.freezes[i]) <==> !ResolvedWithDraft(d, d.freezes[i])
    {
      FixedFreeze(d, d', i, now);
    }
  }

  lemma FixedFreeze(d: Desk, d': Desk, i: int, now: int)
    requires LegacyInv(d) && Finalised(d, d', now) && i in d.freezes
    ensures Consistent(d', d'.freezes[i]) <==> !ResolvedWithDraft(d, d.freezes[i])
  {
    var f, all := d.freezes[i], Disagreeing(d);
    assert Recorded(d, f);
    if f.reportId.Some? {
      var r := f.reportId.value;
      assert FixedReport(d, r, d'.reports[r], all, now);
      assert forall j | j in all && d.freezes[j].reportId == Some(r) :: j == i;
      if Disagrees(d, i) {
        assert i in all;
      } else {
        assert d'.reports[r] == d.reports[r];
      }
    }
  }

  // Such a freeze, the only one: reported, then resolved, its CNMR still a draft.
  // The fix leaves it as it is, and the invariant does not hold.
  lemma ResolvedDraftStays(now: int)
    ensures
      var freeze := Freeze(1, 7, None, "sanctions", "high", Resolved, Some(1), Some(2), Some(5), Some(3),
                           Some(Delisted));
      var d := Desk(map[4 := freeze], map[5 := Report(1, 7, "FFR", Draft, None, "")], map[]);
      LegacyInv(d) && !Inv(d) && forall d' :: Finalised(d, d', now) <==> d' == d
  {
    var freeze := Freeze(1, 7, None, "sanctions", "high", Resolved, Some(1), Some(2), Some(5), Some(3), Some(Delisted));
    var d := Desk(map[4 := freeze], map[5 := Report(1, 7, "FFR", Draft, None, "")], map[]);
    assert Recorded(d, d.freezes[4]) && !Consistent(d, d.freezes[4]);
    assert Disagreeing(d) == {};
    forall d' | Finalised(d, d', now)
      ensures d' == d
    {
      assert FixedReport(d, 5, d'.reports[5], {}, now);
      assert d'.reports == d.reports;
    }
    NothingFixed(d, now);
  }
}

// What each operation on freezes and reports asks for and does, said on the rows it
// meets, and what that means over whole runs.
module FreezeLaws {
  import opened Prelude
  import opened FreezeReports

  // ------------------------------------------------ single operations

  lemma CreateExactly(d: Desk, id: int, org: int, customer: int, alertId: Option<int>,
                      obligation: string, risk: string)
    ensures
      Step(d, Create(id, org, customer, alertId, obligation, risk)) ==
        if obligation in {"sanctions", "proliferation", "terrorism"} && risk in {"high", "critical"} then
          d.(freezes := d.freezes[id := Freeze(org, customer, alertId, obligation, risk, PendingExecution,
                                               None, None, None, None, None)])
        else d
  {
  }

  lemma ExecuteExactly(d: Desk, id: int, org: int, now: int)
    ensures
      Step(d, Execute(id, org, now)) ==
        if id in d.freezes && d.freezes[id].org == org && d.freezes[id].executedAt.None?
           && d.freezes[id].status != Resolved
        then d.(freezes := d.freezes[id := d.freezes[id].(status := ExecutedPendingReport, executedAt := Some(now))])
        else d
  {
  }

  // The report of its own organisation that a freeze is linked to.
  predicate LinkedTo(d: Desk, f: Freeze, r: int) {
    f.reportId == Some(r) && r in d.reports && d.reports[r].org == f.org
  }

  // A draft is opened and linked for an executed freeze of the organisation that has
  // no report yet, if the customer has a name and the export succeeds.
  lemma FileExactly(d: Desk, id: int, org: int, newReport: int, nameBlank: bool,
                    payload: Option<string>)
    ensures
      Step(d, FileCnmr(id, org, newReport, nameBlank, payload)) ==
        if id in d.freezes && d.freezes[id].org == org && d.freezes[id].status == ExecutedPendingReport
           && !(exists r :: LinkedTo(d, d.freezes[id], r)) && !nameBlank && payload.Some?
        then
          d.(reports := d.reports[newReport := Report(org, d.freezes[id].customer, "FFR", Draft, None, payload.value)],
             freezes := d.freezes[id := d.freezes[id].(reportId := Some(newReport))])
        else d
  {
    if id in d.freezes {
      LinkedExactly(d, d.freezes[id]);
    }
  }

  lemma LinkedExactly(d: Desk, f: Freeze)
    ensures LinkedReport(d, f) <==> exists r :: LinkedTo(d, f, r)
  {
    if LinkedReport(d, f) {
      assert LinkedTo(d, f, f.reportId.value);
    }
  }

  // A submission finalises a report of the organisation that is exportable and not
  // finalised, and marks exactly the freezes of the organisation that wait for it.
  lemma SubmitExactly(d: Desk, reportId: int, org: int, exportable: bool, now: int)
    ensures
      var d' := Step(d, Submit(reportId, org, exportable, now));
      if reportId in d.reports && d.reports[reportId].org == org && d.reports[reportId].status == Draft && exportable
      then
        && d'.alerts == d.alerts && d'.freezes.Keys == d.freezes.Keys
        && d'.reports == d.reports[reportId := d.reports[reportId].(status := Submitted, submittedAt := Some(now))]
        && forall i | i in d.freezes ::
             var f := d.freezes[i];
             d'.freezes[i] == if f.reportId == Some(reportId) && f.org == org && f.status == ExecutedPendingReport
                              then f.(status := Reported, reportedAt := Some(now)) else f
      else d' == d
  {
  }

  // The alert that raised the freeze is a confirmed true positive.
  predicate Confirmed(d: Desk, f: Freeze) {
    exists a | a in d.alerts ::
      f.alertId == Some(a) && d.alerts[a].org == f.org && d.alerts[a].status == "true_positive"
  }

  predicate DraftLinked(d: Desk, f: Freeze) {
    exists r | r in d.reports :: f.reportId == Some(r) && d.reports[r].org == f.org && d.reports[r].status == Draft
  }

  // What resolving asks for, by the reason given.
  predicate Resolvable(d: Desk, f: Freeze, why: string, authorityRef: string, notes: string) {
    && f.status != Resolved && !DraftLinked(d, f)
    && (|| (why == "delisted" && f.executedAt.Some?)
        || (why == "authority_clearance" && f.executedAt.Some? && authorityRef != "")
        || (why == "false_positive" && |notes| >= 20 && !Confirmed(d, f)))
  }

  function ReasonFor(why: string): Option<Reason> {
    if why == "delisted" then Some(Delisted)
    else if why == "false_positive" then Some(FalsePositive)
    else Some(AuthorityClearance)
  }

  lemma ResolveExactly(d: Desk, id: int, org: int, why: string, authorityRef: string, notes: string,
                       now: int)
    ensures
      Step(d, Resolve(id, org, why, authorityRef, notes, now)) ==
        if id in d.freezes && d.freezes[id].org == org && Resolvable(d, d.freezes[id], why, authorityRef, notes) then
          d.(freezes := d.freezes[id :=
            d.freezes[id].(status := Resolved, resolvedAt := Some(now), reason := ReasonFor(why))])
        else d
  {
    if id in d.freezes {
      ResolvableExactly(d, id, org, why, authorityRef, notes);
    }
  }

  lemma ResolvableExactly(d: Desk, id: int, org: int, why: string, authorityRef: string,
                          notes: string)
    requires id in d.freezes
    ensures MayResolve(d, id, org, why, authorityRef, notes) <==>
      d.freezes[id].org == org && Resolvable(d, d.freezes[id], why, authorityRef, notes)
    ensures ReasonOf(why).Some? ==> ReasonOf(why) == ReasonFor(why)
  {
    MatchesExactly(d, d.freezes[id]);
  }

  lemma MatchesExactly(d: Desk, f: Freeze)
    ensures ConfirmedMatch(d, f) <==> Confirmed(d, f)
    ensures LinkedReport(d, f) && d.reports[f.reportId.value].status == Draft <==> DraftLinked(d, f)
  {
    if ConfirmedMatch(d, f) {
      var a := f.alertId.value;
      assert a in d.alerts && f.alertId == Some(a) && d.alerts[a].org == f.org && d.alerts[a].status == "true_positive";
    }
    if LinkedReport(d, f) && d.reports[f.reportId.value].status == Draft {
      var r := f.reportId.value;
      assert r in d.reports && f.reportId == Some(r) && d.reports[r].org == f.org && d.reports[r].status == Draft;
    }
  }

  lemma SaveExactly(d: Desk, reportId: int, org: int, customer: int, kind: string, content: string)
    ensures Step(d, SaveNew(reportId, org, customer, kind, content))
         == d.(reports := d.reports[reportId := Report(org, customer, kind, Draft, None, content)])
    ensures Step(d, SaveDraft(reportId, org, content)) ==
      if reportId in d.reports && d.reports[reportId].org == org && d.reports[reportId].status == Draft
      then d.(reports := d.reports[reportId := d.reports[reportId].(payload := content)]) else d
  {
  }

  // ------------------------------------------------ over whole runs

  // A freeze is resolved by a request of its own organisation that met all that its
  // reason asks for: as a false positive only with an explanation of at least twenty
  // characters and no confirmed match, for a clearance only with a reference, for
  // either other reason only once executed, and never beside a draft CNMR.
  lemma ResolvedForReason(run: seq<Desk>, ops: seq<Op>, k: nat, id: int)
    requires Run(run, ops) && k < |ops| && id in run[k].freezes && id in run[k + 1].freezes
    requires run[k].freezes[id].status != Resolved && run[k + 1].freezes[id].status == Resolved
    ensures
      var f, f', op := run[k].freezes[id], run[k + 1].freezes[id], ops[k];
      && op.Resolve? && op.id == id && op.org == f.org && f'.resolvedAt == Some(op.now) && !DraftLinked(run[k], f)
      && (f'.reason == Some(FalsePositive) ==> |op.notes| >= 20 && !Confirmed(run[k], f))
      && (f'.reason == Some(AuthorityClearance) ==> op.authorityRef != "" && f.executedAt.Some?)
      && (f'.reason == Some(Delisted) ==> f.executedAt.Some?)
      && f'.reason.Some?
  {
    assert Fresh(run[k], ops[k]) && run[k + 1] == Step(run[k], ops[k]);
    ResolvingStep(run[k], ops[k], id);
  }

  lemma ResolvingStep(d: Desk, op: Op, id: int)
    requires Fresh(d, op) && id in d.freezes && id in Step(d, op).freezes
    requires d.freezes[id].status != Resolved && Step(d, op).freezes[id].status == Resolved
    ensures op.Resolve? && op.id == id && op.org == d.freezes[id].org
    ensures Resolvable(d, d.freezes[id], op.why, op.authorityRef, op.notes)
    ensures Step(d, op).freezes[id].resolvedAt == Some(op.now) && Step(d, op).freezes[id].reason == ReasonFor(op.why)
  {
    match op
    case Resolve(i, org, why, authorityRef, notes, now) => ResolveExactly(d, i, org, why, authorityRef, notes, now);
    case Submit(r, org, exportable, now) => SubmitExactly(d, r, org, exportable, now);
    case _ =>
  }

  // The organisation an operation is for.
  function OrgOf(op: Op): Option<int> {
    match op
    case Create(_, org, _, _, _, _) => Some(org)
    case Execute(_, org, _) => Some(org)
    case FileCnmr(_, org, _, _, _) => Some(org)
    case Submit(_, org, _, _) => Some(org)
    case Resolve(_, org, _, _, _, _) => Some(org)
    case SaveNew(_, org, _, _, _) => Some(org)
    case SaveDraft(_, org, _) => Some(org)
    case Dispositions(_) => None
  }

  // No operation touches a freeze or a report of another organisation, or makes one.
  lemma OrganisationsApart(d: Desk, op: Op)
    requires Fresh(d, op)
    ensures
      var d' := Step(d, op);
      && (forall i | i in d.freezes && Some(d.freezes[i].org) != OrgOf(op) ::
            i in d'.freezes && d'.freezes[i] == d.freezes[i])
      && (forall r | r in d.reports && Some(d.reports[r].org) != OrgOf(op) ::
            r in d'.reports && d'.reports[r] == d.reports[r])
      && (forall i | i in d'.freezes && i !in d.freezes :: Some(d'.freezes[i].org) == OrgOf(op))
      && (forall r | r in d'.reports && r !in d.reports :: Some(d'.reports[r].org) == OrgOf(op))
  {
  }

  // A freeze with a finalised CNMR was reported at the instant it was finalised.
  ghost predicate SameInstant(d: Desk) {
    forall i | i in d.freezes && d.freezes[i].reportId.Some? && d.freezes[i].reportId.value in d.reports ::
      d.freezes[i].reportedAt == d.reports[d.freezes[i].reportId.value].submittedAt
  }

  // A report not finalised has no time of finalising.
  ghost predicate DraftsUntimed(d: Desk) {
    forall r | r in d.reports :: d.reports[r].status == Draft <==> d.reports[r].submittedAt.None?
  }

  lemma StepKeepsInstants(d: Desk, op: Op)
    requires Inv(d) && SameInstant(d) && DraftsUntimed(d) && Fresh(d, op)
    ensures SameInstant(Step(d, op)) && DraftsUntimed(Step(d, op))
  {
    var d' := Step(d, op);
    forall i | i in d'.freezes && d'.freezes[i].reportId.Some? && d'.freezes[i].reportId.value in d'.reports
      ensures d'.freezes[i].reportedAt == d'.reports[d'.freezes[i].reportId.value].submittedAt
    {
      if i in d.freezes {
        assert Consistent(d, d.freezes[i]);
      }
    }
  }

  lemma {:induction false} ReportedWhenFinalised(run: seq<Desk>, ops: seq<Op>, k: nat)
    requires Run(run, ops) && k < |run| && DraftsUntimed(run[0])
    ensures SameInstant(run[k]) && DraftsUntimed(run[k])
  {
    if k > 0 {
      ReportedWhenFinalised(run, ops, k - 1);
      RunConsistent(run, ops, k - 1, k - 1);
      assert Fresh(run[k - 1], ops[k - 1]) && run[k] == Step(run[k - 1], ops[k - 1]);
      StepKeepsInstants(run[k - 1], ops[k - 1]);
    }
  }

  // ------------------------------------------------ the legacy fix

  // A freeze of the organisation of report r that was reported on it.
  predicate ReportedOn(d: Desk, i: int, r: int)
    requires r in d.reports
  {
    i in d.freezes && d.freezes[i].status == Reported && d.freezes[i].reportId == Some(r)
    && d.freezes[i].org == d.reports[r].org
  }

  // The one-off fix submits exactly the CNMR drafts some freeze was reported on, at
  // the time such a freeze was reported, or now if that is unknown.
  lemma FinalisedExactly(d: Desk, d': Desk, now: int, r: int)
    requires Finalised(d, d', now)
    ensures d'.freezes == d.freezes && d'.alerts == d.alerts && d'.reports.Keys == d.reports.Keys
    ensures r in d.reports ==>
      if d.reports[r].status == Draft && d.reports[r].kind == "FFR" && exists i :: ReportedOn(d, i, r) then
        exists i :: ReportedOn(d, i, r) && d'.reports[r] == d.reports[r].(status := Submitted,
          submittedAt := if d.freezes[i].reportedAt.Some? then d.freezes[i].reportedAt else Some(now))
      else d'.reports[r] == d.reports[r]
  {
    if r in d.reports {
      forall i | i in d.freezes && d.freezes[i].reportId == Some(r)
        ensures Disagrees(d, i) <==> ReportedOn(d, i, r) && d.reports[r].status == Draft && d.reports[r].kind == "FFR"
      {
      }
      assert FixedReport(d, r, d'.reports[r], Disagreeing(d), now);
      if d.reports[r].status == Draft && d.reports[r].kind == "FFR" {
        if i :| ReportedOn(d, i, r) {
          assert i in Disagreeing(d) && Disagrees(d, i) && d.freezes[i].reportId == Some(r);
          var w :| w in Disagreeing(d) && Witness(d, w, r, d'.reports[r], now);
          assert ReportedOn(d, w, r);
        }
      }
    }
  }

  // ------------------------------------------------ a refusal

  // The match is confirmed: twenty characters of notes do not make it a false positive.
  lemma ConfirmedMatchStays(now: int)
    ensures
      var freeze := Freeze(1, 7, Some(9), "sanctions", "high", PendingExecution, None, None, None, None, None);
      var d := Desk(map[4 := freeze], map[], map[9 := Alert(1, "true_positive")]);
      Step(d, Resolve(4, 1, "false_positive", "", "a different person!!", now)) == d
  {
    var freeze := Freeze(1, 7, Some(9), "sanctions", "high", PendingExecution, None, None, None, None, None);
    var d := Desk(map[4 := freeze], map[], map[9 := Alert(1, "true_positive")]);
    ResolveExactly(d, 4, 1, "false_positive", "", "a different person!!", now);
    assert 9 in d.alerts && Confirmed(d, freeze);
  }
}

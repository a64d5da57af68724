// Who is purged, who is kept and why, and what is deleted, said on the rows alone.
module PurgeMeaning {
  import opened Prelude
  import opened Calendar
  import opened Purge
  import opened PurgeLaws

  // ------------------------------------------------ who

  // Closed, in the organisation, the stored date and ten years from the exit date
  // both past, and no work open.
  lemma EligibleExactly(s: Store, org: int, today: Date, c: int)
    ensures c in EligibleSet(s, org, today) <==>
      && c in s.customers && s.customers[c].org == org && s.customers[c].closed
      && s.customers[c].until.Some? && Before(s.customers[c].until.value, today)
      && (s.customers[c].exitDate.Some? && RetentionFrom(s.customers[c].exitDate.value).Some? ==>
            Before(RetentionFrom(s.customers[c].exitDate.value).value, today))
      && forall w :: !Open(s, org, c, w)
  {
    CandidateExactly(s, org, today, c);
    BlockedByWork(s, org, c);
  }

  lemma CandidateExactly(s: Store, org: int, today: Date, c: int)
    ensures Candidate(s, org, today, c) <==>
      && c in s.customers && s.customers[c].org == org && s.customers[c].closed
      && s.customers[c].until.Some? && Before(s.customers[c].until.value, today)
      && (s.customers[c].exitDate.Some? && RetentionFrom(s.customers[c].exitDate.value).Some? ==>
            Before(RetentionFrom(s.customers[c].exitDate.value).value, today))
  {
    if c in s.customers {
      var r := s.customers[c];
      if r.until.Some? {
        IsoOrder(r.until.value, today);
      }
      if r.exitDate.Some? && RetentionFrom(r.exitDate.value).Some? {
        IsoOrder(RetentionFrom(r.exitDate.value).value, today);
      }
    }
  }

  // ------------------------------------------------ why not

  ghost predicate FreezeOpen(s: Store, org: int, c: int) {
    exists f | f in s.freezes ::
      s.freezes[f].customer == c && s.freezes[f].org == org && s.freezes[f].status != "resolved"
  }

  predicate ReportAt(s: Store, org: int, c: int, n: int) {
    && (Reports, n) in s.rows && s.rows[(Reports, n)].customer == c && s.rows[(Reports, n)].org == org
    && s.rows[(Reports, n)].status != "submitted"
  }

  ghost predicate ReportOpen(s: Store, org: int, c: int) {
    exists n :: ReportAt(s, org, c, n)
  }

  predicate AlertAt(s: Store, org: int, c: int, a: int) {
    && a in s.alerts && s.alerts[a].org == org && s.alerts[a].status in {"open", "pending_review"}
    && s.alerts[a].screening in s.screenings && s.screenings[s.alerts[a].screening].customer == Some(c)
  }

  predicate TransactionAlertAt(s: Store, org: int, c: int, n: int) {
    && (TransactionAlerts, n) in s.rows && s.rows[(TransactionAlerts, n)].customer == c
    && s.rows[(TransactionAlerts, n)].org == org && s.rows[(TransactionAlerts, n)].status in {"open", "pending_review"}
  }

  ghost predicate AlertOpen(s: Store, org: int, c: int) {
    (exists a :: AlertAt(s, org, c, a)) || exists n :: TransactionAlertAt(s, org, c, n)
  }

  lemma FreezeReason(s: Store, org: int, c: int)
    ensures UnresolvedFreeze in Blockers(s, org, c) <==> FreezeOpen(s, org, c)
  {
  }

  lemma ReportReason(s: Store, org: int, c: int)
    ensures UnfinalisedReport in Blockers(s, org, c) <==> ReportOpen(s, org, c)
  {
    if HasReport(s, org, c) {
      var r :| && r in s.rows && r.0.Reports? && s.rows[r].customer == c && s.rows[r].org == org
               && s.rows[r].status != "submitted";
      assert r == (Reports, r.1) && ReportAt(s, org, c, r.1);
    }
    if n :| ReportAt(s, org, c, n) {
      var r: RowId := (Reports, n);
      assert r in s.rows && r.0.Reports?;
    }
  }

  lemma AlertReason(s: Store, org: int, c: int)
    ensures OpenAlert in Blockers(s, org, c) <==> AlertOpen(s, org, c)
  {
    if a :| a in s.alerts && s.alerts[a].org == org && Raises(s, s.alerts[a], c) && Pending(s.alerts[a].status) {
      assert AlertAt(s, org, c, a);
    }
    if r :| && r in s.rows && r.0.TransactionAlerts? && s.rows[r].customer == c && s.rows[r].org == org
            && Pending(s.rows[r].status) {
      assert r == (TransactionAlerts, r.1) && TransactionAlertAt(s, org, c, r.1);
    }
    if a :| AlertAt(s, org, c, a) {
      assert a in s.alerts && Raises(s, s.alerts[a], c) && Pending(s.alerts[a].status);
    }
    if n :| TransactionAlertAt(s, org, c, n) {
      var r: RowId := (TransactionAlerts, n);
      assert r in s.rows && r.0.TransactionAlerts? && Pending(s.rows[r].status);
    }
  }

  // The reasons, each where it applies and once.
  lemma ReasonsExactly(s: Store, org: int, c: int)
    ensures
      var reasons := Blockers(s, org, c);
      && (UnresolvedFreeze in reasons <==> FreezeOpen(s, org, c))
      && (UnfinalisedReport in reasons <==> ReportOpen(s, org, c))
      && (OpenAlert in reasons <==> AlertOpen(s, org, c))
      && forall i, j | 0 <= i < j < |reasons| :: reasons[i] != reasons[j]
  {
    FreezeReason(s, org, c);
    ReportReason(s, org, c);
    AlertReason(s, org, c);
  }

  // Every customer past both dates with work open is kept, with exactly those.
  lemma SkippedExactly(s: Store, org: int, today: Date, c: int)
    ensures c in Skipped(s, org, today) <==>
      Candidate(s, org, today, c) && (FreezeOpen(s, org, c) || ReportOpen(s, org, c) || AlertOpen(s, org, c))
    ensures c in Skipped(s, org, today) ==> Skipped(s, org, today)[c] == Blockers(s, org, c)
  {
    ReasonsExactly(s, org, c);
    var reasons := Blockers(s, org, c);
    if reasons != [] {
      assert reasons[0] in reasons;
    }
  }

  // ------------------------------------------------ what goes

  // Purging one customer removes the customer and what names it, in its organisation.
  lemma GoneExactly(s: Store, org: int, c: int)
    ensures
      var t := Without(s, org, {c});
      && (forall d | d in s.customers :: d in t.customers <==> !(d == c && s.customers[d].org == org))
      && (forall r | r in s.rows :: r in t.rows <==> !(s.rows[r].customer == c && s.rows[r].org == org))
      && (forall x | x in s.screenings ::
            x in t.screenings <==> !(s.screenings[x].customer == Some(c) && s.screenings[x].org == org))
      && (forall a | a in s.alerts :: a in t.alerts <==> !RaisedFor(s, a, org, c))
      && (forall v | v in s.reviews ::
            v in t.reviews <==> !(s.reviews[v].org == org && RaisedFor(s, s.reviews[v].alert, org, c)))
      && (forall f | f in s.freezes ::
            f in t.freezes <==> !(s.freezes[f].customer == c && c in s.customers && s.customers[c].org == org))
  {
    WithoutExactly(s, org, {c});
  }

  predicate RaisedFor(s: Store, a: int, org: int, c: int) {
    && a in s.alerts && s.alerts[a].org == org && s.alerts[a].screening in s.screenings
    && s.screenings[s.alerts[a].screening].customer == Some(c)
  }

  // Document d is one of customer c.
  predicate DocumentOf(s: Store, org: int, c: int, d: int) {
    (Documents, d) in s.rows && s.rows[(Documents, d)].customer == c && s.rows[(Documents, d)].org == org
  }

  // The file of such a document is there and refuses to go.
  ghost predicate Stuck(s: Store, org: int, c: int, objects: set<int>, failing: set<int>) {
    exists d :: DocumentOf(s, org, c, d) && d in objects && d in failing
  }

  // The files deleted with a customer are those of its documents.
  lemma FilesExactly(s: Store, org: int, c: int, d: int)
    ensures d in Files(s, org, {c}) <==> DocumentOf(s, org, c, d)
  {
    if (Documents, d) in s.rows {
      var r: RowId := (Documents, d);
      assert r in s.rows && r.0.Documents?;
    }
  }

  // An eligible customer is purged unless one of its files that are still there
  // fails to delete.
  lemma DeletableExactly(s: Store, org: int, among: set<int>, objects: set<int>, failing: set<int>,
                         c: int)
    ensures c in Deletable(s, org, among, objects, failing) <==> c in among && !Stuck(s, org, c, objects, failing)
  {
    forall d
      ensures d in objects * Files(s, org, {c}) * failing <==> DocumentOf(s, org, c, d) && d in objects && d in failing
    {
      FilesExactly(s, org, c, d);
    }
    if objects * Files(s, org, {c}) * failing != {} {
      var d := Pick(objects * Files(s, org, {c}) * failing);
      assert DocumentOf(s, org, c, d) && d in objects && d in failing;
    }
  }

  // What a purge of the eligible customers leaves: the trail tells of each of them
  // and of each one skipped, once; those with a file that refuses to go stay, the
  // others are gone with their files, and nobody else's files are touched.
  lemma PurgedExactly(s0: Store, s: Store, objects0: set<int>, objects: set<int>,
                      audit0: seq<Audit>, audit: seq<Audit>, org: int, eligible: set<int>,
                      skipped: map<int, seq<Reason>>, failing: set<int>)
    requires Purged(s0, s, objects0, objects, audit0, audit, org, eligible, skipped, failing)
    ensures
      && audit0 <= audit && (forall i, j | |audit0| <= i < j < |audit| :: audit[i] != audit[j])
      && (forall a | a in audit[|audit0|..] :: a.org == org)
      && forall c ::
           && (CustomerPurged(org, c) in audit[|audit0|..] <==> c in eligible && !Stuck(s0, org, c, objects0, failing))
           && (PurgeFailed(org, c) in audit[|audit0|..] <==> c in eligible && Stuck(s0, org, c, objects0, failing))
           && forall reasons ::
                PurgeSkipped(org, c, reasons) in audit[|audit0|..] <==> c in skipped && skipped[c] == reasons
    ensures forall c :: c in s.customers <==>
      c in s0.customers && !(s0.customers[c].org == org && c in eligible && !Stuck(s0, org, c, objects0, failing))
    ensures objects <= objects0
    ensures forall d | d in objects0 && d !in objects ::
      d !in failing && exists c :: c in eligible && DocumentOf(s0, org, c, d)
    ensures forall c, d | c in eligible && !Stuck(s0, org, c, objects0, failing) && DocumentOf(s0, org, c, d) ::
      d !in objects
  {
    var gone := Deletable(s0, org, eligible, objects0, failing);
    forall c
      ensures c in gone <==> c in eligible && !Stuck(s0, org, c, objects0, failing)
    {
      DeletableExactly(s0, org, eligible, objects0, failing, c);
    }
    forall d | d in objects0 && d !in objects
      ensures d !in failing && exists c :: c in eligible && DocumentOf(s0, org, c, d)
    {
      assert d in failing ==> d in objects0 * failing;
      assert d in Files(s0, org, eligible);
      assert DocumentOf(s0, org, s0.rows[(Documents, d)].customer, d);
    }
    forall c, d | c in gone && DocumentOf(s0, org, c, d)
      ensures d !in objects
    {
      var r: RowId := (Documents, d);
      assert r in s0.rows && r.0.Documents?;
      assert d in Files(s0, org, gone);
    }
    forall c
      ensures c in s.customers <==> c in s0.customers && !(s0.customers[c].org == org && c in gone)
    {
      WithoutExactly(s0, org, gone);
    }
  }

  // Past both dates with one freeze unresolved: kept for that reason alone.
  lemma KeptForFreeze()
    ensures
      var c := Customer(1, true, Some(Day(2010, 1, 1)), Some(Day(2020, 1, 1)));
      var s := Store(map[7 := c], map[], map[], map[], map[], map[4 := Freeze(1, 7, "reported")]);
      Skipped(s, 1, Day(2026, 1, 1)) == map[7 := [UnresolvedFreeze]]
  {
    var c := Customer(1, true, Some(Day(2010, 1, 1)), Some(Day(2020, 1, 1)));
    var s := Store(map[7 := c], map[], map[], map[], map[], map[4 := Freeze(1, 7, "reported")]);
    CandidateExactly(s, 1, Day(2026, 1, 1), 7);
    assert HasFreeze(s, 1, 7) by {
      assert 4 in s.freezes;
    }
    assert Blockers(s, 1, 7) == [UnresolvedFreeze];
  }
}

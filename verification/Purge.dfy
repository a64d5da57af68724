// purge_expired: the guarded sweep that deletes customers whose retention has
// lapsed, table by table, and what it may never touch.
module Purge {
  import opened Prelude
  import opened Calendar
  import Text

  datatype Customer = Customer(org: int, closed: bool, exitDate: Option<Date>, until: Option<Date>)

  // Tables whose rows carry customer_id and org_id themselves.
  datatype Table =
    | AdverseFindings | AdverseScreenings | TransactionAlerts | Transactions | UboLinks
    | RiskAssessments | Documents | CaseNotes | Signatures | Reports

  datatype Row = Row(org: int, customer: int, status: string)
  datatype Screening = Screening(org: int, customer: Option<int>)
  datatype Alert = Alert(org: int, screening: int, status: string)
  datatype Review = Review(org: int, alert: int)
  datatype Freeze = Freeze(org: int, customer: int, status: string)

  type RowId = (Table, int)

  datatype Store = Store(
    customers: map<int, Customer>,
    rows: map<RowId, Row>,
    screenings: map<int, Screening>,
    alerts: map<int, Alert>,
    reviews: map<int, Review>,
    freezes: map<int, Freeze>)

  datatype Reason = UnresolvedFreeze | UnfinalisedReport | OpenAlert

  datatype Audit =
    | CustomerPurged(org: int, customer: int)
    | PurgeFailed(org: int, customer: int)
    | PurgeSkipped(org: int, customer: int, reasons: seq<Reason>)

  // ------------------------------------------------ who may be purged

  // exit_date + RETENTION_YEARS has not passed; unreadable dates decide nothing.
  predicate InsidePolicyWindow(exitDate: Option<Date>, today: Date) {
    && exitDate.Some? && RetentionFrom(exitDate.value).Some?
    && Text.AtMost(Iso(today), Iso(RetentionFrom(exitDate.value).value))
  }

  predicate Candidate(s: Store, org: int, today: Date, c: int) {
    && c in s.customers
    && var r := s.customers[c];
       && r.org == org && r.closed && r.until.Some? && Text.Less(Iso(r.until.value), Iso(today))
       && !InsidePolicyWindow(r.exitDate, today)
  }

  predicate HasFreeze(s: Store, org: int, c: int) {
    exists f | f in s.freezes ::
      s.freezes[f].customer == c && s.freezes[f].org == org && s.freezes[f].status != "resolved"
  }

  predicate HasReport(s: Store, org: int, c: int) {
    exists r | r in s.rows ::
      r.0.Reports? && s.rows[r].customer == c && s.rows[r].org == org && s.rows[r].status != "submitted"
  }

  predicate Pending(status: string) {
    status == "open" || status == "pending_review"
  }

  // The alert was raised by a screening of this customer.
  predicate Raises(s: Store, a: Alert, c: int) {
    a.screening in s.screenings && s.screenings[a.screening].customer == Some(c)
  }

  predicate HasAlert(s: Store, org: int, c: int) {
    || (exists a | a in s.alerts :: s.alerts[a].org == org && Raises(s, s.alerts[a], c) && Pending(s.alerts[a].status))
    || (exists r | r in s.rows :: r.0.TransactionAlerts? && s.rows[r].customer == c && s.rows[r].org == org
                                  && Pending(s.rows[r].status))
  }

  function Blockers(s: Store, org: int, c: int): seq<Reason> {
    (if HasFreeze(s, org, c) then [UnresolvedFreeze] else [])
    + (if HasReport(s, org, c) then [UnfinalisedReport] else [])
    + (if HasAlert(s, org, c) then [OpenAlert] else [])
  }

  predicate Eligible(s: Store, org: int, today: Date, c: int) {
    Candidate(s, org, today, c) && Blockers(s, org, c) == []
  }

  // ------------------------------------------------ what a purge removes

  predicate OwnsRow(r: Row, org: int, gone: set<int>) {
    r.org == org && r.customer in gone
  }

  predicate OwnsScreening(x: Screening, org: int, gone: set<int>) {
    x.org == org && x.customer.Some? && x.customer.value in gone
  }

  // An alert belongs to the customer of the screening that raised it.
  predicate OwnsAlert(screenings: map<int, Screening>, a: Alert, org: int, gone: set<int>) {
    && a.org == org && a.screening in screenings
    && screenings[a.screening].customer.Some? && screenings[a.screening].customer.value in gone
  }

  predicate OwnsReview(alerts: map<int, Alert>, screenings: map<int, Screening>, v: Review, org: int, gone: set<int>) {
    v.org == org && v.alert in alerts && OwnsAlert(screenings, alerts[v.alert], org, gone)
  }

  // A freeze obligation goes with the customer row it refers to (ON DELETE CASCADE).
  predicate OwnsFreeze(customers: map<int, Customer>, f: Freeze, org: int, gone: set<int>) {
    f.customer in gone && f.customer in customers && customers[f.customer].org == org
  }

  function WithoutCustomers(cs: map<int, Customer>, org: int, gone: set<int>): map<int, Customer> {
    map c | c in cs && !(c in gone && cs[c].org == org) :: cs[c]
  }

  function WithoutRows(rows: map<RowId, Row>, tables: set<Table>, org: int, gone: set<int>): map<RowId, Row> {
    map r | r in rows && !(r.0 in tables && OwnsRow(rows[r], org, gone)) :: rows[r]
  }

  function WithoutScreenings(xs: map<int, Screening>, org: int, gone: set<int>): map<int, Screening> {
    map x | x in xs && !OwnsScreening(xs[x], org, gone) :: xs[x]
  }

  function WithoutAlerts(alerts: map<int, Alert>, xs: map<int, Screening>, org: int, gone: set<int>): map<int, Alert> {
    map a | a in alerts && !OwnsAlert(xs, alerts[a], org, gone) :: alerts[a]
  }

  function WithoutReviews(vs: map<int, Review>, alerts: map<int, Alert>, xs: map<int, Screening>,
                          org: int, gone: set<int>)
    : map<int, Review>
  {
    map v | v in vs && !OwnsReview(alerts, xs, vs[v], org, gone) :: vs[v]
  }

  function WithoutFreezes(fs: map<int, Freeze>, cs: map<int, Customer>, org: int, gone: set<int>): map<int, Freeze> {
    map f | f in fs && !OwnsFreeze(cs, fs[f], org, gone) :: fs[f]
  }

  const EVERY_TABLE := {AdverseFindings, AdverseScreenings, TransactionAlerts, Transactions, UboLinks,
                        RiskAssessments, Documents, CaseNotes, Signatures, Reports}

  // The store with the given customers of one organisation and every row of
  // theirs removed from the listed tables, and nothing else changed.
  function Without(s: Store, org: int, gone: set<int>): Store {
    Store(
      WithoutCustomers(s.customers, org, gone),
      WithoutRows(s.rows, EVERY_TABLE, org, gone),
      WithoutScreenings(s.screenings, org, gone),
      WithoutAlerts(s.alerts, s.screenings, org, gone),
      WithoutReviews(s.reviews, s.alerts, s.screenings, org, gone),
      WithoutFreezes(s.freezes, s.customers, org, gone))
  }

  // Said row by row: what goes is exactly what belongs to those customers.
  lemma WithoutExactly(s: Store, org: int, gone: set<int>)
    ensures
      var t := Without(s, org, gone);
      && (forall c | c in s.customers :: c in t.customers <==> !(c in gone && s.customers[c].org == org))
      && (forall r | r in s.rows :: r in t.rows <==> !OwnsRow(s.rows[r], org, gone))
      && (forall x | x in s.screenings :: x in t.screenings <==> !OwnsScreening(s.screenings[x], org, gone))
      && (forall a | a in s.alerts :: a in t.alerts <==> !OwnsAlert(s.screenings, s.alerts[a], org, gone))
      && (forall v | v in s.reviews :: v in t.reviews <==> !OwnsReview(s.alerts, s.screenings, s.reviews[v], org, gone))
      && (forall f | f in s.freezes :: f in t.freezes <==> !OwnsFreeze(s.customers, s.freezes[f], org, gone))
    ensures
      var t := Without(s, org, gone);
      && (forall c | c in t.customers :: c in s.customers && t.customers[c] == s.customers[c])
      && (forall r | r in t.rows :: r in s.rows && t.rows[r] == s.rows[r])
      && (forall x | x in t.screenings :: x in s.screenings && t.screenings[x] == s.screenings[x])
      && (forall a | a in t.alerts :: a in s.alerts && t.alerts[a] == s.alerts[a])
      && (forall v | v in t.reviews :: v in s.reviews && t.reviews[v] == s.reviews[v])
      && (forall f | f in t.freezes :: f in s.freezes && t.freezes[f] == s.freezes[f])
  {
    forall t: Table
      ensures t in EVERY_TABLE
    {
      IsTable(t);
    }
  }

  lemma IsTable(t: Table)
    ensures t in EVERY_TABLE
  {
  }

  lemma SameMap<K, V>(a: map<K, V>, b: map<K, V>)
    requires forall k :: k in a <==> k in b
    requires forall k | k in a :: a[k] == b[k]
    ensures a == b
  {
  }

  lemma WithoutNobody(s: Store, org: int)
    ensures Without(s, org, {}) == s
  {
    WithoutExactly(s, org, {});
    var t := Without(s, org, {});
    SameMap(t.customers, s.customers);
    SameMap(t.rows, s.rows);
    SameMap(t.screenings, s.screenings);
    SameMap(t.alerts, s.alerts);
    SameMap(t.reviews, s.reviews);
    SameMap(t.freezes, s.freezes);
  }

  // Purging one customer more, table by table: an alert or review of c is still
  // recognised as c's after others have been purged.
  lemma RowsMore(rows: map<RowId, Row>, tables: set<Table>, org: int, gone: set<int>, c: int)
    ensures WithoutRows(WithoutRows(rows, tables, org, gone), tables, org, {c}) ==
      WithoutRows(rows, tables, org, gone + {c})
  {
  }

  lemma ScreeningsMore(xs: map<int, Screening>, org: int, gone: set<int>, c: int)
    ensures WithoutScreenings(WithoutScreenings(xs, org, gone), org, {c}) == WithoutScreenings(xs, org, gone + {c})
  {
    var later, once := WithoutScreenings(WithoutScreenings(xs, org, gone), org, {c}),
                       WithoutScreenings(xs, org, gone + {c});
    forall x | x in xs
      ensures x in later <==> x in once
    {
    }
    assert later == once;
  }

  lemma CustomersMore(cs: map<int, Customer>, org: int, gone: set<int>, c: int)
    ensures WithoutCustomers(WithoutCustomers(cs, org, gone), org, {c}) == WithoutCustomers(cs, org, gone + {c})
  {
  }

  lemma FreezesMore(fs: map<int, Freeze>, cs: map<int, Customer>, org: int, gone: set<int>, c: int)
    requires c !in gone
    ensures WithoutFreezes(WithoutFreezes(fs, cs, org, gone), WithoutCustomers(cs, org, gone), org, {c})
         == WithoutFreezes(fs, cs, org, gone + {c})
  {
    var cs' := WithoutCustomers(cs, org, gone);
    var later, once := WithoutFreezes(WithoutFreezes(fs, cs, org, gone), cs', org, {c}),
                       WithoutFreezes(fs, cs, org, gone + {c});
    assert c in cs' <==> c in cs;
    forall f | f in fs
      ensures f in later <==> f in once
    {
    }
    assert later == once;
  }

  lemma AlertOwnedLater(xs: map<int, Screening>, a: Alert, org: int, gone: set<int>, c: int)
    requires c !in gone && !OwnsAlert(xs, a, org, gone)
    ensures OwnsAlert(WithoutScreenings(xs, org, gone), a, org, {c}) <==> OwnsAlert(xs, a, org, gone + {c})
  {
  }

  lemma AlertsMore(alerts: map<int, Alert>, xs: map<int, Screening>, org: int, gone: set<int>, c: int)
    requires c !in gone
    ensures WithoutAlerts(WithoutAlerts(alerts, xs, org, gone), WithoutScreenings(xs, org, gone), org, {c})
         == WithoutAlerts(alerts, xs, org, gone + {c})
  {
    forall a | a in alerts && !OwnsAlert(xs, alerts[a], org, gone)
      ensures OwnsAlert(WithoutScreenings(xs, org, gone), alerts[a], org, {c}) <==>
        OwnsAlert(xs, alerts[a], org, gone + {c})
    {
      AlertOwnedLater(xs, alerts[a], org, gone, c);
    }
    var later, once := WithoutAlerts(WithoutAlerts(alerts, xs, org, gone), WithoutScreenings(xs, org, gone), org, {c}),
                       WithoutAlerts(alerts, xs, org, gone + {c});
    forall a | a in alerts
      ensures a in later <==> a in once
    {
    }
    assert later == once;
  }

  lemma ReviewOwnedLater(v: Review, alerts: map<int, Alert>, xs: map<int, Screening>, org: int,
                         gone: set<int>, c: int)
    requires c !in gone && !OwnsReview(alerts, xs, v, org, gone)
    ensures OwnsReview(WithoutAlerts(alerts, xs, org, gone), WithoutScreenings(xs, org, gone), v, org, {c})
       <==> OwnsReview(alerts, xs, v, org, gone + {c})
  {
  }

  lemma ReviewsMore(vs: map<int, Review>, alerts: map<int, Alert>, xs: map<int, Screening>, org: int,
                    gone: set<int>, c: int)
    requires c !in gone
    ensures
      var later := WithoutReviews(WithoutReviews(vs, alerts, xs, org, gone), WithoutAlerts(alerts, xs, org, gone),
                                  WithoutScreenings(xs, org, gone), org, {c});
      later == WithoutReviews(vs, alerts, xs, org, gone + {c})
  {
    var alerts', xs' := WithoutAlerts(alerts, xs, org, gone), WithoutScreenings(xs, org, gone);
    forall v | v in vs && !OwnsReview(alerts, xs, vs[v], org, gone)
      ensures OwnsReview(alerts', xs', vs[v], org, {c}) <==> OwnsReview(alerts, xs, vs[v], org, gone + {c})
    {
      ReviewOwnedLater(vs[v], alerts, xs, org, gone, c);
    }
    var later, once := WithoutReviews(WithoutReviews(vs, alerts, xs, org, gone), alerts', xs', org, {c}),
                       WithoutReviews(vs, alerts, xs, org, gone + {c});
    forall v | v in vs
      ensures v in later <==> v in once
    {
    }
    assert later == once;
  }

  lemma WithoutMore(s: Store, org: int, gone: set<int>, c: int)
    requires c !in gone
    ensures Without(Without(s, org, gone), org, {c}) == Without(s, org, gone + {c})
  {
    CustomersMore(s.customers, org, gone, c);
    RowsMore(s.rows, EVERY_TABLE, org, gone, c);
    ScreeningsMore(s.screenings, org, gone, c);
    AlertsMore(s.alerts, s.screenings, org, gone, c);
    ReviewsMore(s.reviews, s.alerts, s.screenings, org, gone, c);
    FreezesMore(s.freezes, s.customers, org, gone, c);
  }

  // Documents (with a stored file or not) of the given customers.
  function Files(s: Store, org: int, owners: set<int>): set<int> {
    set r | r in s.rows && r.0.Documents? && OwnsRow(s.rows[r], org, owners) :: r.1
  }

  lemma SameFiles(s: Store, org: int, gone: set<int>, c: int)
    requires c !in gone
    ensures Files(Without(s, org, gone), org, {c}) == Files(s, org, {c})
  {
  }

  lemma FilesMore(s: Store, org: int, gone: set<int>, c: int)
    requires c !in gone
    ensures Files(s, org, gone + {c}) == Files(s, org, gone) + Files(s, org, {c})
    ensures Files(s, org, gone) !! Files(s, org, {c})
  {
  }

  lemma SameFailures(objects0: set<int>, objects: set<int>, mine: set<int>, failing: set<int>)
    requires objects * failing == objects0 * failing
    ensures objects * mine * failing == objects0 * mine * failing
  {
    assert objects * mine * failing == (objects * failing) * mine;
    assert objects0 * mine * failing == (objects0 * failing) * mine;
  }

  function EligibleSet(s: Store, org: int, today: Date): set<int> {
    set c | c in s.customers && Eligible(s, org, today, c)
  }

  function Skipped(s: Store, org: int, today: Date): map<int, seq<Reason>> {
    map c | c in s.customers && Candidate(s, org, today, c) && Blockers(s, org, c) != [] :: Blockers(s, org, c)
  }

  // Those of the given customers none of whose stored files fails to delete.
  function Deletable(s: Store, org: int, among: set<int>, objects: set<int>, failing: set<int>): set<int> {
    set c | c in among && objects * Files(s, org, {c}) * failing == {}
  }

  lemma DeletableMore(s: Store, org: int, among: set<int>, objects: set<int>, failing: set<int>, c: int)
    ensures Deletable(s, org, among + {c}, objects, failing)
         == Deletable(s, org, among, objects, failing)
            + (if objects * Files(s, org, {c}) * failing == {} then {c} else {})
  {
  }

  // ------------------------------------------------ the sweep

  lemma OneLess(all: set<int>, rest: set<int>, c: int)
    requires c in rest && rest <= all
    ensures (all - rest) + {c} == all - (rest - {c})
  {
  }

  // From the store s0 and the objects objects0, the customers `done` have been
  // dealt with, and of those `gone` purged, leaving s and objects.
  predicate Swept(s0: Store, s: Store, objects0: set<int>, objects: set<int>, org: int,
                  done: set<int>, gone: set<int>, failing: set<int>)
  {
    && gone == Deletable(s0, org, done, objects0, failing)
    && s == Without(s0, org, gone)
    && objects0 - Files(s0, org, done) <= objects <= objects0
    && objects * failing == objects0 * failing
    && forall d | d in objects :: d !in Files(s0, org, gone)
  }

  // What the sweep writes to the audit trail about the customers `done`.
  predicate SweepEntry(a: Audit, org: int, done: set<int>, gone: set<int>) {
    match a
    case CustomerPurged(o, c) => o == org && c in gone
    case PurgeFailed(o, c) => o == org && c in done && c !in gone
    case PurgeSkipped(_, _, _) => false
  }

  predicate SkipEntry(a: Audit, org: int, skipped: map<int, seq<Reason>>) {
    a.PurgeSkipped? && a.org == org && a.customer in skipped && a.reasons == skipped[a.customer]
  }

  // The trail grew by entries of one kind, by all of that kind, each once.
  ghost predicate Grew(before: seq<Audit>, after: seq<Audit>, kind: Audit -> bool) {
    && before <= after && (forall a :: a in after[|before|..] <==> kind(a))
    && forall i, j | |before| <= i < j < |after| :: after[i] != after[j]
  }

  function SweepKind(org: int, done: set<int>, gone: set<int>): Audit -> bool {
    a => SweepEntry(a, org, done, gone)
  }

  function SkipKind(org: int, skipped: map<int, seq<Reason>>): Audit -> bool {
    a => SkipEntry(a, org, skipped)
  }

  function PurgeKind(org: int, done: set<int>, gone: set<int>, skipped: map<int, seq<Reason>>): Audit -> bool {
    a => SweepEntry(a, org, done, gone) || SkipEntry(a, org, skipped)
  }

  lemma GrewBy(before: seq<Audit>, after: seq<Audit>, last: Audit, kind: Audit -> bool, kind': Audit -> bool)
    requires Grew(before, after, kind) && !kind(last) && forall a :: kind'(a) <==> kind(a) || a == last
    ensures Grew(before, after + [last], kind')
  {
    assert (after + [last])[|before|..] == after[|before|..] + [last];
  }

  lemma GrewTwice(before: seq<Audit>, middle: seq<Audit>, after: seq<Audit>,
                  kind: Audit -> bool, kind': Audit -> bool, either: Audit -> bool)
    requires Grew(before, middle, kind) && Grew(middle, after, kind')
    requires forall a :: either(a) <==> kind(a) || kind'(a)
    requires forall a :: !(kind(a) && kind'(a))
    ensures Grew(before, after, either)
  {
    forall i, j | |before| <= i < j < |after|
      ensures after[i] != after[j]
    {
      assert i < |middle| ==> after[i] == middle[i] && middle[i] in middle[|before|..];
      assert j < |middle| ==> after[j] == middle[j];
      assert j >= |middle| ==> after[j] == after[|middle|..][j - |middle|];
    }
    assert after[|before|..] == middle[|before|..] + after[|middle|..];
  }

  // A purge of the eligible customers: those none of whose files failed to delete
  // are gone with everything of theirs, nobody else's rows changed, files went
  // only for eligible customers and went for all that are gone, and the audit
  // trail tells of every one.
  ghost predicate Purged(s0: Store, s: Store, objects0: set<int>, objects: set<int>,
                         audit0: seq<Audit>, audit: seq<Audit>,
                         org: int, eligible: set<int>, skipped: map<int, seq<Reason>>, failing: set<int>)
  {
    var gone := Deletable(s0, org, eligible, objects0, failing);
    && s == Without(s0, org, gone)
    && objects0 - Files(s0, org, eligible) <= objects <= objects0
    && objects * failing == objects0 * failing
    && (forall d | d in objects :: d !in Files(s0, org, gone))
    && Grew(audit0, audit, PurgeKind(org, eligible, gone, skipped))
  }

  lemma SweepStart(s: Store, objects: set<int>, org: int, failing: set<int>)
    ensures Swept(s, s, objects, objects, org, {}, {}, failing)
  {
    WithoutNobody(s, org);
    assert Files(s, org, {}) == {};
    assert Deletable(s, org, {}, objects, failing) == {};
  }

  class RetentionStore {
    var customers: map<int, Customer>
    var rows: map<RowId, Row>
    var screenings: map<int, Screening>
    var alerts: map<int, Alert>
    var reviews: map<int, Review>
    var freezes: map<int, Freeze>
    var audit: seq<Audit>
    var objects: set<int>  // documents whose file is still in storage

    function View(): Store
      reads this
    {
      Store(customers, rows, screenings, alerts, reviews, freezes)
    }

    constructor (s: Store, objects: set<int>)
      ensures View() == s && this.objects == objects && audit == []
    {
      customers, rows, screenings, alerts := s.customers, s.rows, s.screenings, s.alerts;
      reviews, freezes, this.objects, audit := s.reviews, s.freezes, objects, [];
    }

    // DELETE FROM <table> WHERE customer_id=? AND org_id=?, after the same
    // deletion from the tables `done` of the rows `rows0`.
    method DeleteRows(table: Table, org: int, cid: int, ghost rows0: map<RowId, Row>, ghost done: set<Table>)
      requires rows == WithoutRows(rows0, done, org, {cid})
      modifies `rows
      ensures rows == WithoutRows(rows0, done + {table}, org, {cid})
    {
      rows := WithoutRows(rows, {table}, org, {cid});
      SameMap(rows, WithoutRows(rows0, done + {table}, org, {cid}));
    }

    method DeleteOwnedRows(org: int, cid: int, ghost rows0: map<RowId, Row>)
      requires rows == WithoutRows(rows0, {AdverseFindings, AdverseScreenings}, org, {cid})
      modifies `rows
      ensures rows == WithoutRows(rows0, EVERY_TABLE, org, {cid})
    {
      ghost var done := {AdverseFindings, AdverseScreenings};
      DeleteRows(TransactionAlerts, org, cid, rows0, done);
      done := done + {TransactionAlerts};
      DeleteRows(Transactions, org, cid, rows0, done);
      done := done + {Transactions};
      DeleteRows(UboLinks, org, cid, rows0, done);
      done := done + {UboLinks};
      DeleteRows(RiskAssessments, org, cid, rows0, done);
      done := done + {RiskAssessments};
      DeleteRows(Documents, org, cid, rows0, done);
      done := done + {Documents};
      DeleteRows(CaseNotes, org, cid, rows0, done);
      done := done + {CaseNotes};
      DeleteRows(Signatures, org, cid, rows0, done);
      done := done + {Signatures};
      DeleteRows(Reports, org, cid, rows0, done);
      done := done + {Reports};
      assert done == EVERY_TABLE;
    }

    // The deletions, in their order: reviews, alerts and screenings are found
    // through one another in the rows still there, so the children go first.
    method PurgeCustomer(org: int, cid: int)
      modifies this
      ensures View() == Without(old(View()), org, {cid})
      ensures audit == old(audit) + [CustomerPurged(org, cid)] && objects == old(objects)
    {
      audit := audit + [CustomerPurged(org, cid)];
      ghost var rows0 := rows;
      SameMap(rows0, WithoutRows(rows0, {}, org, {cid}));
      DeleteRows(AdverseFindings, org, cid, rows0, {});
      DeleteRows(AdverseScreenings, org, cid, rows0, {} + {AdverseFindings});
      assert {} + {AdverseFindings} + {AdverseScreenings} == {AdverseFindings, AdverseScreenings};
      reviews := WithoutReviews(reviews, alerts, screenings, org, {cid});
      alerts := WithoutAlerts(alerts, screenings, org, {cid});
      screenings := WithoutScreenings(screenings, org, {cid});
      DeleteOwnedRows(org, cid, rows0);
      freezes := WithoutFreezes(freezes, customers, org, {cid});
      customers := WithoutCustomers(customers, org, {cid});
    }

    // Storage objects of one customer, until one fails to delete.
    method DeleteObjects(org: int, cid: int, failing: set<int>) returns (failed: bool)
      modifies `objects
      ensures failed <==> old(objects) * Files(View(), org, {cid}) * failing != {}
      ensures old(objects) - Files(View(), org, {cid}) <= objects <= old(objects)
      ensures !failed ==> objects == old(objects) - Files(View(), org, {cid})
      ensures objects * failing == old(objects) * failing
    {
      var files := Files(View(), org, {cid});
      var rest := objects * files;
      while rest != {}
        invariant rest == objects * files
        invariant old(objects) - files <= objects <= old(objects)
        invariant objects * failing == old(objects) * failing
        decreases rest
      {
        ghost var any := Pick(rest);
        var doc :| doc in rest;
        if doc in failing {
          assert doc in old(objects) * files * failing;
          return true;
        }
        objects := objects - {doc};
        rest := rest - {doc};
      }
      failed := false;
      SameFailures(old(objects), objects, files, failing);
      assert objects - files == objects by {
        forall d | d in objects
          ensures d !in files
        {
          assert d in files ==> d in objects * files;
        }
      }
    }

    // One eligible customer, after the customers `done` of the store `s0`.
    method SweepOne(org: int, cid: int, failing: set<int>, ghost s0: Store, ghost objects0: set<int>,
                    ghost trail0: seq<Audit>, ghost done: set<int>, ghost gone: set<int>) returns (failed: bool)
      requires cid !in done && Swept(s0, View(), objects0, objects, org, done, gone, failing)
      requires Grew(trail0, audit, SweepKind(org, done, gone))
      modifies this
      ensures Swept(s0, View(), objects0, objects, org, done + {cid}, if failed then gone else gone + {cid}, failing)
      ensures cid !in gone
      ensures Grew(trail0, audit, SweepKind(org, done + {cid}, if failed then gone else gone + {cid}))
    {
      SameFiles(s0, org, gone, cid);
      SameFailures(objects0, objects, Files(s0, org, {cid}), failing);
      DeletableMore(s0, org, done, objects0, failing, cid);
      FilesMore(s0, org, done, cid);
      failed := DeleteObjects(org, cid, failing);
      if failed {
        GrewBy(trail0, audit, PurgeFailed(org, cid), SweepKind(org, done, gone), SweepKind(org, done + {cid}, gone));
        audit := audit + [PurgeFailed(org, cid)];
      } else {
        FilesMore(s0, org, gone, cid);
        WithoutMore(s0, org, gone, cid);
        GrewBy(trail0, audit, CustomerPurged(org, cid), SweepKind(org, done, gone),
               SweepKind(org, done + {cid}, gone + {cid}));
        PurgeCustomer(org, cid);
      }
    }

    // Every eligible customer whose files all go is purged; the others keep their
    // rows and get an audit row.
    method Sweep(org: int, eligible: set<int>, failing: set<int>) returns (ghost gone: set<int>, purged: nat)
      modifies this
      ensures Swept(old(View()), View(), old(objects), objects, org, eligible, gone, failing)
      ensures purged == |gone| && Grew(old(audit), audit, SweepKind(org, eligible, gone))
    {
      ghost var s0, objects0, trail0 := View(), objects, audit;
      SweepStart(s0, objects0, org, failing);
      gone, purged := {}, 0;
      var rest := eligible;
      ghost var done: set<int> := {};
      while rest != {}
        invariant done == eligible - rest && rest <= eligible
        invariant purged == |gone| && Swept(s0, View(), objects0, objects, org, done, gone, failing)
        invariant Grew(trail0, audit, SweepKind(org, done, gone))
        decreases rest
      {
        ghost var any := Pick(rest);
        var cid :| cid in rest;
        var failed := SweepOne(org, cid, failing, s0, objects0, trail0, done, gone);
        gone, purged := if failed then gone else gone + {cid}, if failed then purged else purged + 1;
        OneLess(eligible, rest, cid);
        done, rest := done + {cid}, rest - {cid};
      }
      assert done == eligible;
    }

    // Returns how many customers were purged and, for every candidate kept back,
    // the reasons. failing: documents whose storage object refuses to go.
    method PurgeExpired(org: int, today: Date, dryRun: bool, enabled: bool, failing: set<int>)
      returns (purged: nat, skipped: map<int, seq<Reason>>)
      modifies this
      ensures skipped == Skipped(old(View()), org, today)
      ensures dryRun || !enabled ==> View() == old(View()) && audit == old(audit) && objects == old(objects)
      ensures dryRun ==> purged == |EligibleSet(old(View()), org, today)|
      ensures !dryRun && !enabled ==> purged == 0
      ensures !dryRun && enabled ==>
        Purged(old(View()), View(), old(objects), objects, old(audit), audit, org, EligibleSet(old(View()), org, today),
               skipped, failing)
        && purged == |Deletable(old(View()), org, EligibleSet(old(View()), org, today), old(objects), failing)|
    {
      var s := View();
      var candidates := set c | c in customers && Candidate(s, org, today, c);
      skipped := map c | c in candidates && Blockers(s, org, c) != [] :: Blockers(s, org, c);
      assert skipped == Skipped(s, org, today);
      var eligible := set c | c in candidates && Blockers(s, org, c) == [];
      assert eligible == EligibleSet(s, org, today);
      if dryRun {
        return |eligible|, skipped;
      }
      if !enabled {
        return 0, skipped;
      }
      purged := PurgeEligible(org, eligible, skipped, failing);
    }

    method PurgeEligible(org: int, eligible: set<int>, skipped: map<int, seq<Reason>>, failing: set<int>)
      returns (purged: nat)
      modifies this
      ensures Purged(old(View()), View(), old(objects), objects, old(audit), audit, org, eligible, skipped, failing)
      ensures purged == |Deletable(old(View()), org, eligible, old(objects), failing)|
    {
      ghost var gone;
      gone, purged := Sweep(org, eligible, failing);
      ghost var trail := audit;
      RecordSkipped(org, skipped);
      GrewTwice(old(audit), trail, audit, SweepKind(org, eligible, gone), SkipKind(org, skipped),
                PurgeKind(org, eligible, gone, skipped));
    }

    method RecordSkipped(org: int, skipped: map<int, seq<Reason>>)
      modifies `audit
      ensures Grew(old(audit), audit, SkipKind(org, skipped))
    {
      ghost var shown: map<int, seq<Reason>> := map[];
      var ids := skipped.Keys;
      while ids != {}
        invariant ids <= skipped.Keys && shown == skipped - ids
        invariant Grew(old(audit), audit, SkipKind(org, shown))
        decreases ids
      {
        ghost var any := Pick(ids);
        var c :| c in ids;
        ghost var trail, was := audit, SkipKind(org, shown);
        audit := audit + [PurgeSkipped(org, c, skipped[c])];
        ids := ids - {c};
        shown := skipped - ids;
        GrewBy(old(audit), trail, PurgeSkipped(org, c, skipped[c]), was, SkipKind(org, shown));
      }
    }
  }
}

// The retention date of one customer: every writer of it, and what any run of
// onboarding, transactions, report finalisations, closures and reactivations
// does to it. Stored dates are ISO texts and are compared as texts.
module Retention {
  import opened Prelude
  import opened Calendar
  import Text

  // One customers row, its transactions' occurred_at and the submitted_at of its
  // finalised reports.
  datatype File = File(
    closed: bool,
    exitDate: Option<Date>,
    until: Option<Date>,
    occurred: seq<Stamp>,
    submitted: seq<Stamp>)

  datatype Outcome = Done | Refused | Raised

  // `a >= b` on stored texts.
  predicate TextAtLeast(a: Date, b: Date) {
    Text.AtMost(Iso(b), Iso(a))
  }

  lemma TextAtLeastIsOrder(a: Date, b: Date)
    ensures TextAtLeast(a, b) <==> !Before(a, b)
  {
    IsoOrder(a, b);
  }

  // ------------------------------------------------ anchors

  // SELECT max(...): the greatest text.
  function MaxStamp(ss: seq<Stamp>): (m: Option<Stamp>)
    ensures m.None? <==> ss == []
    ensures m.Some? ==> m.value in ss
  {
    if ss == [] then None
    else
      var front := MaxStamp(ss[..|ss| - 1]);
      var last := ss[|ss| - 1];
      if front.Some? && Text.AtMost(StampText(last), StampText(front.value)) then front else Some(last)
  }

  // Its day is the latest day of all.
  lemma {:induction false} MaxStampLatest(ss: seq<Stamp>, s: Stamp)
    requires s in ss
    ensures !Before(MaxStamp(ss).value.day, s.day)
  {
    var front, last := ss[..|ss| - 1], ss[|ss| - 1];
    assert ss == front + [last];
    if s in front {
      MaxStampLatest(front, s);
      var m := MaxStamp(front).value;
      if !Text.AtMost(StampText(last), StampText(m)) {
        Text.LessTotal(StampText(m), StampText(last));
        StampOrder(m, last);
      }
    }
    if MaxStamp(front).Some? && Text.AtMost(StampText(last), StampText(MaxStamp(front).value)) {
      StampOrder(last, MaxStamp(front).value);
    }
  }

  function Later(a: Option<Date>, b: Option<Date>): Option<Date> {
    if a.None? then b else if b.None? then a else if Before(a.value, b.value) then b else a
  }

  function DayOf(s: Option<Stamp>): Option<Date> {
    if s.Some? then Some(s.value.day) else None
  }

  // The latest of exit date (once closed), last transaction and last report.
  function Anchor(f: File): Option<Date> {
    Later(if f.closed then f.exitDate else None, Later(DayOf(MaxStamp(f.occurred)), DayOf(MaxStamp(f.submitted))))
  }

  // ------------------------------------------------ the operations

  // recompute_retention: None where retention_from raises.
  function Recomputed(f: File): Option<File> {
    if Anchor(f).None? then Some(f)
    else
      var target := RetentionFrom(Anchor(f).value);
      if target.None? then None
      else if f.until.Some? && TextAtLeast(f.until.value, target.value) then Some(f)
      else Some(f.(until := target))
  }

  datatype Op =
    | Transaction(at: Stamp)
    | Submit(at: Stamp)
    | Close
    | Reactivate

  // The row an operation leaves before any recomputation, or why it stops.
  function Written(f: File, op: Op, today: Date): Result<File, Outcome> {
    match op
    case Transaction(at) => Ok(f.(occurred := f.occurred + [at]))
    case Submit(at) => Ok(f.(submitted := f.submitted + [at]))
    case Close =>
      if f.closed then Err(Refused)
      else if RetentionFrom(today).None? then Err(Raised)
      else Ok(f.(closed := true, exitDate := Some(today), until := RetentionFrom(today)))
    case Reactivate =>
      if !f.closed then Err(Refused)
      else if RetentionFrom(today).None? then Err(Raised)
      else Ok(f.(closed := false, exitDate := None, until := RetentionFrom(today)))
  }

  function Apply(f: File, op: Op, today: Date): (File, Outcome) {
    var w := Written(f, op, today);
    if w.Err? then (f, w.error)
    else if op.Reactivate? then (w.value, Done)
    else if Recomputed(w.value).None? then (f, Raised)
    else (Recomputed(w.value).value, Done)
  }

  class CustomerFile {
    var closed: bool
    var exitDate: Option<Date>
    var until: Option<Date>
    var occurred: seq<Stamp>
    var submitted: seq<Stamp>

    function View(): File
      reads this
    {
      File(closed, exitDate, until, occurred, submitted)
    }

    // Onboarding a customer on a day whose retention date exists.
    constructor (today: Date)
      requires RetentionFrom(today).Some?
      ensures View() == File(false, None, RetentionFrom(today), [], [])
    {
      closed, exitDate, until := false, None, RetentionFrom(today);
      occurred, submitted := [], [];
    }

    method RecomputeRetention() returns (raised: bool)
      modifies `until
      ensures raised <==> Recomputed(old(View())).None?
      ensures View() == if raised then old(View()) else Recomputed(old(View())).value
    {
      var anchor: Option<Date> := None;
      if closed {
        anchor := exitDate;
      }
      var txn, rep := MaxStamp(occurred), MaxStamp(submitted);
      var latest := Later(DayOf(txn), DayOf(rep));
      anchor := Later(anchor, latest);
      if anchor.None? {
        return false;
      }
      var target := RetentionFrom(anchor.value);
      if target.None? {
        return true;
      }
      if !(until.Some? && TextAtLeast(until.value, target.value)) {
        until := target;
      }
      return false;
    }

    method RecordTransaction(at: Stamp) returns (outcome: Outcome)
      modifies this
      ensures forall today: Date :: (View(), outcome) == Apply(old(View()), Transaction(at), today)
    {
      var committed := occurred;
      occurred := occurred + [at];
      var raised := RecomputeRetention();
      if raised {
        occurred := committed;
        return Raised;
      }
      return Done;
    }

    method SubmitReport(at: Stamp) returns (outcome: Outcome)
      modifies this
      ensures forall today: Date :: (View(), outcome) == Apply(old(View()), Submit(at), today)
    {
      var committed := submitted;
      submitted := submitted + [at];
      var raised := RecomputeRetention();
      if raised {
        submitted := committed;
        return Raised;
      }
      return Done;
    }

    method CloseRelationship(today: Date) returns (outcome: Outcome)
      modifies this
      ensures (View(), outcome) == Apply(old(View()), Close, today)
    {
      if closed {
        return Refused;
      }
      var date := RetentionFrom(today);
      if date.None? {
        return Raised;
      }
      var committed := (exitDate, until);
      closed, exitDate, until := true, Some(today), date;
      var raised := RecomputeRetention();
      if raised {
        closed, exitDate, until := false, committed.0, committed.1;
        return Raised;
      }
      return Done;
    }

    method ReactivateCustomer(today: Date) returns (outcome: Outcome)
      modifies this
      ensures (View(), outcome) == Apply(old(View()), Reactivate, today)
    {
      if !closed {
        return Refused;
      }
      var date := RetentionFrom(today);
      if date.None? {
        return Raised;
      }
      closed, exitDate, until := false, None, date;
      return Done;
    }
  }

  // Each operation, on the stored row: when it is refused or raises, and what it
  // leaves besides the retention date.
  lemma ClosingExactly(f: File, today: Date)
    ensures
      var (g, outcome) := Apply(f, Close, today);
      && (outcome == Refused <==> f.closed) && (outcome != Done ==> g == f)
      && (outcome == Done ==> g == f.(closed := true, exitDate := Some(today), until := g.until))
      && (outcome == Raised ==>
            today.year > 9989 || exists s :: (s in f.occurred || s in f.submitted) && s.day.year > 9989)
  {
    if !f.closed && today.year <= 9989 {
      RaisesFrom(f.(closed := true, exitDate := Some(today), until := RetentionFrom(today)));
    }
  }

  // A recomputation raises only over a date whose tenth anniversary no calendar has.
  lemma RaisesFrom(f: File)
    requires f.closed <==> f.exitDate.Some?
    ensures Recomputed(f).None? ==>
      || (f.closed && f.exitDate.value.year > 9989)
      || exists s :: (s in f.occurred || s in f.submitted) && s.day.year > 9989
  {
    AnchorIsLatest(f);
    if Recomputed(f).None? && !(f.closed && Anchor(f) == f.exitDate) {
      var s :| s in Stamps(f) && s.day == Anchor(f).value;
      assert s in f.occurred || s in f.submitted;
    }
  }

  lemma ReactivatingExactly(f: File, today: Date)
    ensures
      var (g, outcome) := Apply(f, Reactivate, today);
      && (outcome == Refused <==> !f.closed) && (outcome == Raised <==> f.closed && today.year > 9989)
      && (outcome != Done ==> g == f)
      && (outcome == Done ==> g == f.(closed := false, exitDate := None, until := RetentionFrom(today)))
  {
  }

  lemma RecordingExactly(f: File, op: Op, today: Date)
    requires op.Transaction? || op.Submit?
    ensures
      var (g, outcome) := Apply(f, op, today);
      && outcome != Refused && (outcome != Done ==> g == f)
      && (outcome == Done && op.Transaction? ==> g == f.(occurred := f.occurred + [op.at], until := g.until))
      && (outcome == Done && op.Submit? ==> g == f.(submitted := f.submitted + [op.at], until := g.until))
  {
    OnlyUntilMoves(Written(f, op, today).value);
  }

  lemma OnlyUntilMoves(f: File)
    ensures Recomputed(f).Some? ==> Recomputed(f).value == f.(until := Recomputed(f).value.until)
  {
  }

  // ------------------------------------------------ what every run keeps

  function Stamps(f: File): seq<Stamp> {
    f.occurred + f.submitted
  }

  // The retention date a stamp calls for is covered by the stored one.
  predicate Covers(f: File, d: Date) {
    f.until.Some? && RetentionFrom(d).Some? && !Before(f.until.value, RetentionFrom(d).value)
  }

  // Holds in every run, whatever dates transactions and reports carry.
  ghost predicate Kept(f: File, today: Date) {
    && RetentionFrom(today).Some? && f.until.Some?
    && (f.closed <==> f.exitDate.Some?)
    && (f.closed ==> !Before(today, f.exitDate.value))
    // the date never reaches beyond today's, unless a recorded stamp took it there
    && (Before(RetentionFrom(today).value, f.until.value) ==>
         exists s :: s in Stamps(f) && RetentionFrom(s.day) == f.until)
    // a closed file covers its exit date and everything recorded
    && (f.closed ==> Covers(f, f.exitDate.value) && forall s | s in Stamps(f) :: Covers(f, s.day))
  }

  // Holds as well when nothing was ever dated in the future.
  ghost predicate Calm(f: File, today: Date) {
    && Kept(f, today)
    && forall s | s in Stamps(f) :: !Before(today, s.day) && Covers(f, s.day)
  }

  lemma AnchorIsLatest(f: File)
    requires f.closed <==> f.exitDate.Some?
    ensures f.closed ==> Anchor(f).Some? && !Before(Anchor(f).value, f.exitDate.value)
    ensures forall s | s in Stamps(f) :: Anchor(f).Some? && !Before(Anchor(f).value, s.day)
    ensures Anchor(f).Some? ==>
      (f.closed && Anchor(f) == f.exitDate) || exists s :: s in Stamps(f) && s.day == Anchor(f).value
  {
    var t, r := MaxStamp(f.occurred), MaxStamp(f.submitted);
    forall s | s in Stamps(f)
      ensures Anchor(f).Some? && !Before(Anchor(f).value, s.day)
    {
      if s in f.occurred {
        MaxStampLatest(f.occurred, s);
      } else {
        MaxStampLatest(f.submitted, s);
      }
    }
    if t.Some? {
      assert t.value in Stamps(f);
    }
    if r.Some? {
      assert r.value in Stamps(f);
    }
  }

  // A recomputation never moves the date back and ends covering every anchor.
  lemma RecomputedCovers(f: File)
    requires (f.closed <==> f.exitDate.Some?) && f.until.Some? && Recomputed(f).Some?
    ensures
      var g := Recomputed(f).value;
      && g == f.(until := g.until) && g.until.Some? && !Before(g.until.value, f.until.value)
      && (f.closed ==> Covers(g, f.exitDate.value))
      && (forall s | s in Stamps(f) :: Covers(g, s.day))
      && (g.until == f.until || (f.closed && g.until == RetentionFrom(f.exitDate.value))
          || exists s :: s in Stamps(f) && RetentionFrom(s.day) == g.until)
  {
    AnchorIsLatest(f);
    if Anchor(f).Some? {
      var a, g := Anchor(f).value, Recomputed(f).value;
      TextAtLeastIsOrder(f.until.value, RetentionFrom(a).value);
      if f.closed {
        RetentionMonotone(f.exitDate.value, a);
      }
      forall s | s in Stamps(f)
        ensures Covers(g, s.day)
      {
        RetentionMonotone(s.day, a);
      }
    }
  }

  // Closing leaves exactly the latest of the dates that today and whatever was
  // recorded call for, whatever the row said before.
  lemma ClosedUntil(f: File, today: Date)
    requires Apply(f, Close, today).1 == Done
    ensures
      var g := Apply(f, Close, today).0;
      && Covers(g, today) && (forall s | s in Stamps(f) :: Covers(g, s.day))
      && (g.until == RetentionFrom(today) || exists s :: s in Stamps(f) && RetentionFrom(s.day) == g.until)
  {
    var h := f.(closed := true, exitDate := Some(today), until := RetentionFrom(today));
    assert Written(f, Close, today) == Ok(h) && Stamps(h) == Stamps(f);
    RecomputedCovers(h);
    assert Stamps(Recomputed(h).value) == Stamps(f);
  }

  // ------------------------------------------------ single operations

  // Time passing keeps the invariants.
  lemma LaterToday(f: File, today: Date, later: Date)
    requires Kept(f, today) && !Before(later, today) && RetentionFrom(later).Some?
    ensures Kept(f, later)
    ensures Calm(f, today) ==> Calm(f, later)
  {
  }

  lemma OnboardCalm(today: Date)
    requires RetentionFrom(today).Some?
    ensures Calm(File(false, None, RetentionFrom(today), [], []), today)
  {
  }

  // A row written from f, then recomputed.
  lemma RewrittenKept(f: File, h: File, today: Date)
    requires Kept(f, today) && (h.closed <==> h.exitDate.Some?) && h.until.Some? && Recomputed(h).Some?
    requires forall s | s in Stamps(f) :: s in Stamps(h)
    requires h.until == f.until || (h.closed && h.until == RetentionFrom(today))
    requires h.closed ==> !Before(today, h.exitDate.value)
    ensures Kept(Recomputed(h).value, today)
  {
    RecomputedCovers(h);
    var g := Recomputed(h).value;
    if Before(RetentionFrom(today).value, g.until.value) {
      if h.closed && g.until == RetentionFrom(h.exitDate.value) {
        RetentionMonotone(h.exitDate.value, today);
      } else if g.until == f.until {
        var s :| s in Stamps(f) && RetentionFrom(s.day) == f.until;
        assert s in Stamps(g);
      } else {
        var s :| s in Stamps(h) && RetentionFrom(s.day) == g.until;
        assert s in Stamps(g);
      }
    }
  }

  // One more stamp in the row, then recomputed.
  lemma StampAdded(f: File, h: File, today: Date)
    requires Kept(f, today) && h == f.(occurred := h.occurred, submitted := h.submitted) && Recomputed(h).Some?
    requires forall s | s in Stamps(f) :: s in Stamps(h)
    ensures
      var g := Recomputed(h).value;
      && Kept(g, today) && !Before(g.until.value, f.until.value) && Stamps(g) == Stamps(h)
      && (forall s | s in Stamps(g) :: Covers(g, s.day))
  {
    RecomputedCovers(h);
    RewrittenKept(f, h, today);
  }

  lemma WrittenStamps(f: File, op: Op, today: Date)
    requires op.Transaction? || op.Submit?
    ensures var h := Written(f, op, today).value;
      && h == f.(occurred := h.occurred, submitted := h.submitted)
      && forall s :: s in Stamps(h) <==> s in Stamps(f) || s == op.at
  {
  }

  // Recording a transaction or a report only ever extends, whatever its date,
  // and leaves the new stamp covered.
  lemma RecordingExtends(f: File, op: Op, today: Date)
    requires Kept(f, today) && (op.Transaction? || op.Submit?)
    ensures
      var (g, outcome) := Apply(f, op, today);
      && Kept(g, today) && !Before(g.until.value, f.until.value)
      && (outcome.Done? ==> forall s | s in Stamps(g) :: Covers(g, s.day))
      && (forall s | s in Stamps(g) :: s in Stamps(f) || s == op.at)
  {
    WrittenStamps(f, op, today);
    if Recomputed(Written(f, op, today).value).Some? {
      StampAdded(f, Written(f, op, today).value, today);
    }
  }

  // Closing never moves the date back either: it is set from today and then
  // recomputed over everything recorded.
  lemma ClosingExtends(f: File, today: Date)
    requires Kept(f, today)
    ensures
      var (g, outcome) := Apply(f, Close, today);
      && Kept(g, today) && !Before(g.until.value, f.until.value)
      && (outcome.Done? ==> Covers(g, today) && forall s | s in Stamps(g) :: Covers(g, s.day))
      && Stamps(g) == Stamps(f)
  {
    if !f.closed {
      var h := Written(f, Close, today).value;
      if Recomputed(h).Some? {
        RecomputedCovers(h);
        RewrittenKept(f, h, today);
        if Before(RetentionFrom(today).value, f.until.value) {
          var s :| s in Stamps(f) && RetentionFrom(s.day) == f.until;
          assert s in Stamps(h);
        }
      }
    }
  }

  // A recorded stamp whose own retention date lies beyond today's.
  ghost predicate DatedAhead(f: File, today: Date)
    requires RetentionFrom(today).Some?
  {
    exists s :: && s in Stamps(f) && RetentionFrom(s.day).Some?
                && Before(RetentionFrom(today).value, RetentionFrom(s.day).value)
  }

  predicate MovedBack(f: File, g: File) {
    f.until.Some? && g.until.Some? && Before(g.until.value, f.until.value)
  }

  // Reactivation resets the date from today without recomputing. It moves the
  // date back exactly when something was recorded under a date so far ahead.
  lemma ReactivationShortensIff(f: File, today: Date)
    requires Kept(f, today) && f.closed
    ensures
      var (g, outcome) := Apply(f, Reactivate, today);
      outcome.Done? && Kept(g, today) && (Before(g.until.value, f.until.value) <==> DatedAhead(f, today))
  {
  }

  // Everything recorded is dated `day`: recomputing succeeds when its date exists.
  lemma RecomputesFrom(f: File, day: Date)
    requires (f.closed <==> f.exitDate.Some?) && RetentionFrom(day).Some?
    requires forall s | s in Stamps(f) :: s.day == day
    requires f.closed ==> !Before(day, f.exitDate.value)
    ensures Recomputed(f).Some?
  {
    AnchorIsLatest(f);
    if f.closed {
      RetentionMonotone(f.exitDate.value, day);
    }
  }

  // A customer onboarded on 1 January 2026 with a transaction dated a year ahead:
  // closing and reactivating it that day moves the date from 2037 back to 2036.
  lemma ReactivationShortens()
    ensures
      var today, ahead := Day(2026, 1, 1), Stamp(Day(2027, 1, 1), "T00:00:00+00:00");
      var f := File(false, None, RetentionFrom(today), [], []);
      var recorded := Apply(f, Transaction(ahead), today).0;
      var closed := Apply(recorded, Close, today).0;
      && closed.until.Some? && !Before(closed.until.value, Day(2037, 1, 1))
      && Apply(closed, Reactivate, today).0.until == Some(Day(2036, 1, 1))
  {
    var today, ahead := Day(2026, 1, 1), Stamp(Day(2027, 1, 1), "T00:00:00+00:00");
    var f := File(false, None, RetentionFrom(today), [], []);
    OnboardCalm(today);
    RecomputesFrom(Written(f, Transaction(ahead), today).value, ahead.day);
    RecordingExtends(f, Transaction(ahead), today);
    var recorded := Apply(f, Transaction(ahead), today).0;
    assert recorded == f.(occurred := [ahead], until := recorded.until);
    RecomputesFrom(Written(recorded, Close, today).value, ahead.day);
    ClosingExtends(recorded, today);
    assert ahead in Stamps(Apply(recorded, Close, today).0);
  }

  // ------------------------------------------------ whole runs

  datatype Event = Event(op: Op, today: Date)

  // Events on a clock that never goes back, from onboarding on day `day`.
  ghost predicate Timed(day: Date, es: seq<Event>) {
    && (forall i | 0 <= i < |es| :: !Before(es[i].today, day) && RetentionFrom(es[i].today).Some?)
    && (forall i, j | 0 <= i < j < |es| :: !Before(es[j].today, es[i].today))
  }

  predicate NotAhead(e: Event) {
    match e.op
    case Transaction(at) => !Before(e.today, at.day)
    case Submit(at) => !Before(e.today, at.day)
    case Close => true
    case Reactivate => true
  }

  function Run(f: File, es: seq<Event>): File
    decreases |es|
  {
    if es == [] then f else Run(Apply(f, es[0].op, es[0].today).0, es[1..])
  }

  lemma CalmStep(f: File, e: Event)
    requires Calm(f, e.today) && NotAhead(e)
    ensures var g := Apply(f, e.op, e.today).0;
      Calm(g, e.today) && !Before(g.until.value, f.until.value)
  {
    match e.op
    case Transaction(at) => RecordingExtends(f, e.op, e.today);
    case Submit(at) => RecordingExtends(f, e.op, e.today);
    case Close => ClosingExtends(f, e.today);
    case Reactivate =>
      if f.closed {
        ReactivationShortensIff(f, e.today);
        var g := Apply(f, Reactivate, e.today).0;
        forall s | s in Stamps(f)
          ensures !Before(RetentionFrom(e.today).value, RetentionFrom(s.day).value)
        {
          RetentionMonotone(s.day, e.today);
        }
      }
  }

  // With a monotone clock and nothing dated in the future, the stored date never
  // moves earlier and always covers the exit date, the last transaction and the
  // last finalised report.
  lemma {:induction false} RetentionNeverShortens(f: File, day: Date, es: seq<Event>)
    requires Calm(f, day) && Timed(day, es) && forall i | 0 <= i < |es| :: NotAhead(es[i])
    ensures
      var g := Run(f, es);
      var last := if es == [] then day else es[|es| - 1].today;
      && Calm(g, last) && !Before(g.until.value, f.until.value)
      && (Anchor(g).Some? ==> Covers(g, Anchor(g).value))
    decreases |es|
  {
    if es == [] {
      AnchorIsLatest(f);
    } else {
      var e, rest := es[0], es[1..];
      LaterToday(f, day, e.today);
      CalmStep(f, e);
      var g := Apply(f, e.op, e.today).0;
      assert forall i | 0 <= i < |rest| :: rest[i] == es[i + 1];
      RetentionNeverShortens(g, e.today, rest);
    }
  }

  // Whatever the dates, in every run the date moves earlier only by reactivating
  // a customer with something recorded that far ahead.
  lemma {:induction false} KeptRun(f: File, day: Date, es: seq<Event>, k: nat)
    requires Kept(f, day) && Timed(day, es) && k < |es|
    ensures
      var before := Run(f, es[..k]);
      var after := Apply(before, es[k].op, es[k].today).0;
      && Kept(before, es[k].today) && Run(f, es[..k + 1]) == after
      && (MovedBack(before, after) <==> es[k].op.Reactivate? && before.closed && DatedAhead(before, es[k].today))
  {
    KeptBefore(f, day, es, k);
    RunPrefix(f, es, k);
    AnyStep(Run(f, es[..k]), es[k]);
  }

  lemma {:induction false} RunPrefix(f: File, es: seq<Event>, k: nat)
    requires k < |es|
    ensures Run(f, es[..k + 1]) == Apply(Run(f, es[..k]), es[k].op, es[k].today).0
    decreases |es|
  {
    if k == 0 {
      assert es[..1][1..] == [];
    } else {
      assert es[..k][1..] == es[1..][..k - 1] && es[..k + 1][1..] == es[1..][..k];
      RunPrefix(Apply(f, es[0].op, es[0].today).0, es[1..], k - 1);
    }
  }

  lemma {:induction false} KeptBefore(f: File, day: Date, es: seq<Event>, k: nat)
    requires Kept(f, day) && Timed(day, es) && k < |es|
    ensures Kept(Run(f, es[..k]), es[k].today)
  {
    if k == 0 {
      LaterToday(f, day, es[0].today);
    } else {
      KeptBefore(f, day, es, k - 1);
      RunPrefix(f, es, k - 1);
      AnyStep(Run(f, es[..k - 1]), es[k - 1]);
      LaterToday(Run(f, es[..k]), es[k - 1].today, es[k].today);
    }
  }

  lemma AnyStep(f: File, e: Event)
    requires Kept(f, e.today)
    ensures var g := Apply(f, e.op, e.today).0;
      Kept(g, e.today)
      && (MovedBack(f, g) <==> e.op.Reactivate? && f.closed && DatedAhead(f, e.today))
  {
    match e.op
    case Transaction(at) => RecordingExtends(f, e.op, e.today);
    case Submit(at) => RecordingExtends(f, e.op, e.today);
    case Close => ClosingExtends(f, e.today);
    case Reactivate =>
      if f.closed {
        ReactivationShortensIff(f, e.today);
      }
  }
}

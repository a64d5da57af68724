// The two one-off extensions of stored retention dates: rows written under an
// older, shorter rule are brought up to the current one, and never shortened.
module RetentionFix {
  import opened Prelude
  import opened Calendar
  import opened Retention

  // reactivated, closeAudit: the day of the customer's latest reactivation and
  // closure in the audit trail.
  datatype Row = Row(
    org: Option<int>,
    closed: bool,
    exitDate: Option<Date>,
    onboarded: Option<Date>,
    reactivated: Option<Date>,
    closeAudit: Option<Date>,
    until: Option<Date>)

  // customers, in the order the rows are read.
  type Rows = seq<Row>

  // One reported change: the row, its organisation, the old and the new date.
  datatype Change = Change(row: nat, org: int, from: Date, to: Date)

  // Legacy: every customer, once. Closure: closed customers, of one organisation
  // or of all, on a given day.
  datatype Fix = Legacy | Closure(today: Date, only: Option<int>)

  predicate Selected(fix: Fix, r: Row) {
    && r.org.Some? && r.until.Some?
    && (fix.Closure? ==> r.closed && (fix.only.Some? ==> r.org == fix.only))
  }

  // The day retention runs from.
  function Base(fix: Fix, r: Row): Option<Date> {
    match fix
    case Legacy => if r.closed then r.exitDate else Later(r.onboarded, r.reactivated)
    case Closure(today, _) => r.closeAudit.OrElse(r.exitDate).OrElse(Some(today))
  }

  predicate Raises(fix: Fix, r: Row) {
    Selected(fix, r) && Base(fix, r).Some? && RetentionFrom(Base(fix, r).value).None?
  }

  function Target(fix: Fix, r: Row): Option<Date> {
    if Base(fix, r).Some? then RetentionFrom(Base(fix, r).value) else None
  }

  predicate Due(fix: Fix, r: Row) {
    Selected(fix, r) && Target(fix, r).Some? && !TextAtLeast(r.until.value, Target(fix, r).value)
  }

  function Fixed(fix: Fix, r: Row): Row {
    if Due(fix, r) then r.(until := Target(fix, r)) else r
  }

  function FixedAll(fix: Fix, rows: Rows): (fixed: Rows)
    ensures |fixed| == |rows| && forall i | 0 <= i < |rows| :: fixed[i] == Fixed(fix, rows[i])
  {
    if rows == [] then [] else FixedAll(fix, rows[..|rows| - 1]) + [Fixed(fix, rows[|rows| - 1])]
  }

  // What is reported: every row that changes, in order.
  function Changes(fix: Fix, rows: Rows): seq<Change> {
    if rows == [] then []
    else
      var front, last := rows[..|rows| - 1], rows[|rows| - 1];
      if Due(fix, last) then Changes(fix, front) + [ChangeOf(fix, last, |front|)] else Changes(fix, front)
  }

  function ChangeOf(fix: Fix, r: Row, i: nat): Change
    requires Due(fix, r)
  {
    Change(i, r.org.value, r.until.value, Target(fix, r).value)
  }

  // The report names the rows that are due, each with its dates.
  lemma {:induction false} ChangesExactly(fix: Fix, rows: Rows, x: Change)
    ensures x in Changes(fix, rows) <==>
      x.row < |rows| && Due(fix, rows[x.row]) && x == ChangeOf(fix, rows[x.row], x.row)
  {
    if rows != [] {
      ChangesExactly(fix, rows[..|rows| - 1], x);
    }
  }

  ghost predicate NoneRaises(fix: Fix, rows: Rows) {
    forall r | r in rows :: !Raises(fix, r)
  }

  class CustomerTable {
    var rows: Rows

    constructor (rows: Rows)
      ensures this.rows == rows
    {
      this.rows := rows;
    }

    // _extend_retention_until: all changes are worked out before any is written,
    // so a date that cannot be computed leaves every row as it was.
    method ExtendRetentionUntil(dryRun: bool) returns (changes: seq<Change>, raised: bool)
      modifies this
      ensures raised <==> !NoneRaises(Legacy, old(rows))
      ensures !raised ==> changes == Changes(Legacy, old(rows))
      ensures rows == if raised || dryRun then old(rows) else FixedAll(Legacy, old(rows))
    {
      ghost var before := rows;
      changes := [];
      for i := 0 to |rows|
        invariant rows == before && NoneRaises(Legacy, before[..i])
        invariant changes == Changes(Legacy, before[..i])
      {
        ChangesNext(Legacy, before, i);
        var r := rows[i];
        if r.org.Some? && r.until.Some? {
          var base := if r.closed then r.exitDate else Later(r.onboarded, r.reactivated);
          if base.Some? {
            var target := RetentionFrom(base.value);
            if target.None? {
              assert r in before;
              return changes, true;
            }
            if !TextAtLeast(r.until.value, target.value) {
              changes := changes + [Change(i, r.org.value, r.until.value, target.value)];
            }
          }
        }
      }
      assert before[..|before|] == before;
      if !dryRun {
        Write(changes);
      }
      return changes, false;
    }

    // UPDATE ... SET retention_until for each change worked out.
    method Write(changes: seq<Change>)
      requires changes == Changes(Legacy, rows)
      modifies this
      ensures rows == FixedAll(Legacy, old(rows))
    {
      ghost var before := rows;
      for i := 0 to |changes|
        invariant |rows| == |before|
        invariant forall k | 0 <= k < |before| ::
          rows[k] == if Told(changes[..i], k) then Fixed(Legacy, before[k]) else before[k]
      {
        var x := changes[i];
        ChangesExactly(Legacy, before, x);
        assert changes[..i + 1] == changes[..i] + [x];
        rows := rows[x.row := rows[x.row].(until := Some(x.to))];
      }
      forall k | 0 <= k < |before|
        ensures rows[k] == Fixed(Legacy, before[k])
      {
        if Due(Legacy, before[k]) {
          ChangesExactly(Legacy, before, ChangeOf(Legacy, before[k], k));
        }
      }
      assert changes[..|changes|] == changes;
      assert rows == FixedAll(Legacy, before);
    }

    // extend_closed_retention: each row is written and committed as it is met, so
    // a date that cannot be computed leaves the rows before it extended.
    method ExtendClosedRetention(today: Date, apply: bool, only: Option<int>)
      returns (changes: seq<Change>, raised: bool)
      modifies this
      ensures raised <==> !NoneRaises(Closure(today, only), old(rows))
      ensures !raised ==> changes == Changes(Closure(today, only), old(rows))
      ensures !apply ==> rows == old(rows)
      ensures apply ==> rows == FixedUntil(Closure(today, only), old(rows))
    {
      ghost var fix, before := Closure(today, only), rows;
      ReachedStart(fix, before, apply);
      changes := [];
      for i := 0 to |rows|
        invariant |rows| == |before| && Reached(fix, before, i, rows, changes, apply)
      {
        ReachedNext(fix, before, i, rows, changes, apply);
        var change, stop := ExtendOne(i, today, apply, only);
        if stop {
          return changes, true;
        }
        changes := if change.Some? then changes + [change.value] else changes;
      }
      ReachedEnd(fix, before, rows, changes, apply);
      return changes, false;
    }

    method ExtendOne(i: nat, today: Date, apply: bool, only: Option<int>) returns (change: Option<Change>, raised: bool)
      requires i < |rows|
      modifies this
      ensures raised <==> Raises(Closure(today, only), old(rows)[i])
      ensures
        var fix := Closure(today, only);
        change == if Due(fix, old(rows)[i]) then Some(ChangeOf(fix, old(rows)[i], i)) else None
      ensures rows == if apply then old(rows)[i := Fixed(Closure(today, only), old(rows)[i])] else old(rows)
    {
      var r := rows[i];
      if r.closed && r.org.Some? && r.until.Some? && (only.None? || r.org == only) {
        var base := if r.closeAudit.Some? then r.closeAudit.value
                    else if r.exitDate.Some? then r.exitDate.value
                    else today;
        var target := RetentionFrom(base);
        if target.None? {
          return None, true;
        }
        if !TextAtLeast(r.until.value, target.value) {
          if apply {
            rows := rows[i := r.(until := target)];
          }
          return Some(Change(i, r.org.value, r.until.value, target.value)), false;
        }
      }
      return None, false;
    }
  }

  // The first i rows fixed, the others not reached yet.
  function Mixed(fix: Fix, rows: Rows, i: nat): (mixed: Rows)
    requires i <= |rows|
    ensures |mixed| == |rows|
  {
    FixedAll(fix, rows[..i]) + rows[i..]
  }

  // What the loop has done when it comes to row i.
  ghost predicate Reached(fix: Fix, before: Rows, i: nat, rows: Rows, changes: seq<Change>, apply: bool) {
    && i <= |before| && NoneRaises(fix, before[..i])
    && changes == Changes(fix, before[..i])
    && rows == if apply then Mixed(fix, before, i) else before
  }

  lemma ReachedStart(fix: Fix, before: Rows, apply: bool)
    ensures Reached(fix, before, 0, before, [], apply)
  {
  }

  lemma {:induction false} ReachedNext(fix: Fix, before: Rows, i: nat, rows: Rows, changes: seq<Change>, apply: bool)
    requires i < |before| && Reached(fix, before, i, rows, changes, apply)
    ensures i < |rows| && rows[i] == before[i]
    ensures Raises(fix, rows[i]) ==>
      !NoneRaises(fix, before) && rows == if apply then FixedUntil(fix, before) else before
    ensures !Raises(fix, rows[i]) ==>
      Reached(fix, before, i + 1, if apply then rows[i := Fixed(fix, rows[i])] else rows,
              if Due(fix, rows[i]) then changes + [ChangeOf(fix, rows[i], i)] else changes, apply)
  {
    MixedNext(fix, before, i);
    ChangesNext(fix, before, i);
    if Raises(fix, before[i]) {
      StopsAt(fix, before, i);
    }
  }

  lemma {:induction false} ReachedEnd(fix: Fix, before: Rows, rows: Rows, changes: seq<Change>, apply: bool)
    requires Reached(fix, before, |before|, rows, changes, apply)
    ensures NoneRaises(fix, before) && changes == Changes(fix, before)
    ensures rows == if apply then FixedUntil(fix, before) else before
  {
    assert before[..|before|] == before;
    NeverStops(fix, before);
  }

  lemma MixedNext(fix: Fix, rows: Rows, i: nat)
    requires i < |rows|
    ensures Mixed(fix, rows, i)[i] == rows[i]
    ensures Mixed(fix, rows, i + 1) == Mixed(fix, rows, i)[i := Fixed(fix, rows[i])]
  {
  }

  lemma {:induction false} ChangesNext(fix: Fix, rows: Rows, i: nat)
    requires i < |rows|
    ensures Changes(fix, rows[..i + 1])
         == Changes(fix, rows[..i]) + (if Due(fix, rows[i]) then [ChangeOf(fix, rows[i], i)] else [])
    ensures NoneRaises(fix, rows[..i + 1]) <==> NoneRaises(fix, rows[..i]) && !Raises(fix, rows[i])
  {
    assert rows[..i + 1][..i] == rows[..i];
    assert rows[..i + 1] == rows[..i] + [rows[i]];
  }

  predicate Told(changes: seq<Change>, k: int) {
    exists x | x in changes :: x.row == k
  }

  // Fixed up to the first row whose date cannot be computed.
  function FixedUntil(fix: Fix, rows: Rows): Rows {
    if rows == [] || Raises(fix, rows[0]) then rows else [Fixed(fix, rows[0])] + FixedUntil(fix, rows[1..])
  }

  lemma MixedTail(fix: Fix, rows: Rows, i: nat)
    requires 0 < i <= |rows|
    ensures Mixed(fix, rows, i) == [Fixed(fix, rows[0])] + Mixed(fix, rows[1..], i - 1)
  {
  }

  lemma {:induction false} StopsAt(fix: Fix, rows: Rows, i: nat)
    requires i < |rows| && Raises(fix, rows[i]) && NoneRaises(fix, rows[..i])
    ensures FixedUntil(fix, rows) == Mixed(fix, rows, i) && !NoneRaises(fix, rows)
  {
    if i > 0 {
      assert rows[..i][0] == rows[0];
      assert forall r | r in rows[1..][..i - 1] :: r in rows[..i];
      StopsAt(fix, rows[1..], i - 1);
      MixedTail(fix, rows, i);
    }
  }

  lemma {:induction false} NeverStops(fix: Fix, rows: Rows)
    requires NoneRaises(fix, rows)
    ensures FixedUntil(fix, rows) == FixedAll(fix, rows)
  {
    if rows != [] {
      NeverStops(fix, rows[1..]);
      assert FixedAll(fix, rows) == [Fixed(fix, rows[0])] + FixedAll(fix, rows[1..]);
    }
  }

  // ------------------------------------------------ what the fixes promise

  // One row: only ever extended, to the date its base calls for, nothing else
  // changed, and not due again.
  lemma FixedRow(fix: Fix, r: Row)
    ensures
      var g := Fixed(fix, r);
      && g == r.(until := g.until) && (g.until.None? <==> r.until.None?)
      && (r.until.Some? ==> !Before(g.until.value, r.until.value))
      && (Selected(fix, r) && Target(fix, r).Some? ==> !Before(g.until.value, Target(fix, r).value))
      && (!Selected(fix, r) ==> g == r)
      && !Due(fix, g)
  {
    if r.until.Some? && Target(fix, r).Some? {
      TextAtLeastIsOrder(r.until.value, Target(fix, r).value);
      TextAtLeastIsOrder(Target(fix, r).value, Target(fix, r).value);
    }
  }

  // After the legacy fix a customer's date reaches ten years past the exit date, if
  // closed, or past both onboarding and the latest reactivation, wherever those give
  // a date at all; and a date that was moved is exactly that of the latest of them.
  lemma LegacyReaches(r: Row)
    requires r.org.Some? && r.until.Some? && !Raises(Legacy, r)
    ensures
      var g := Fixed(Legacy, r);
      && (r.closed && r.exitDate.Some? ==> Reaches(g, r.exitDate.value))
      && (!r.closed && r.onboarded.Some? ==> Reaches(g, r.onboarded.value))
      && (!r.closed && r.reactivated.Some? ==> Reaches(g, r.reactivated.value))
      && (g.until != r.until ==>
            || (r.closed && r.exitDate.Some? && g.until == RetentionFrom(r.exitDate.value))
            || (!r.closed && r.onboarded.Some? && g.until == RetentionFrom(r.onboarded.value))
            || (!r.closed && r.reactivated.Some? && g.until == RetentionFrom(r.reactivated.value)))
  {
    FixedRow(Legacy, r);
    if !r.closed && r.onboarded.Some? && r.reactivated.Some? {
      var a, b := r.onboarded.value, r.reactivated.value;
      if Before(a, b) {
        RetentionMonotone(a, b);
      } else {
        RetentionMonotone(b, a);
      }
    }
  }

  predicate Reaches(r: Row, start: Date) {
    r.until.Some? && RetentionFrom(start).Some? && !Before(r.until.value, RetentionFrom(start).value)
  }

  // After the closure fix a closed customer's date reaches ten years past the closure
  // recorded in the audit trail, else past the exit date, else past today; and a date
  // that was moved is exactly that.
  lemma ClosureReaches(r: Row, today: Date, only: Option<int>)
    requires r.org.Some? && r.until.Some? && r.closed && (only.Some? ==> r.org == only)
    requires !Raises(Closure(today, only), r)
    ensures
      var g := Fixed(Closure(today, only), r);
      var start := if r.closeAudit.Some? then r.closeAudit.value
                   else if r.exitDate.Some? then r.exitDate.value
                   else today;
      Reaches(g, start) && (g.until != r.until ==> g.until == RetentionFrom(start))
  {
    FixedRow(Closure(today, only), r);
  }

  // A fix stops at a customer it is for whose day has no tenth anniversary in the
  // calendar: the exit date, if closed, else onboarding or the latest reactivation;
  // for the closure fix the day it would count from.
  lemma RaisesExactly(r: Row, today: Date, only: Option<int>)
    ensures Raises(Legacy, r) <==>
      && r.org.Some? && r.until.Some?
      && if r.closed then Late(r.exitDate) else Late(r.onboarded) || Late(r.reactivated)
    ensures Raises(Closure(today, only), r) <==>
      && r.org.Some? && r.until.Some? && r.closed && (only.None? || r.org == only)
      && if r.closeAudit.Some? then Late(r.closeAudit)
         else if r.exitDate.Some? then Late(r.exitDate)
         else today.year > 9989
  {
  }

  predicate Late(d: Option<Date>) {
    d.Some? && d.value.year > 9989
  }

  // Customers of no organisation, without a stored date, still open, or of another
  // organisation than the one asked for are left alone.
  lemma LeftAlone(fix: Fix, r: Row)
    ensures r.org.None? || r.until.None? ==> Fixed(fix, r) == r
    ensures fix.Closure? && (!r.closed || (fix.only.Some? && r.org != fix.only)) ==> Fixed(fix, r) == r
  {
  }

  // A second run reports and changes nothing: ever, for the one fix; on the same
  // day, for the other.
  lemma {:induction false} SecondRunIdle(fix: Fix, rows: Rows)
    ensures Changes(fix, FixedAll(fix, rows)) == []
    ensures FixedAll(fix, FixedAll(fix, rows)) == FixedAll(fix, rows)
  {
    var fixed := FixedAll(fix, rows);
    forall i | 0 <= i < |rows|
      ensures !Due(fix, fixed[i])
    {
      FixedRow(fix, rows[i]);
    }
    if Changes(fix, fixed) != [] {
      ChangesExactly(fix, fixed, Changes(fix, fixed)[0]);
    }
  }

  // On a later day a row is extended again exactly when it has no closure date
  // at all, its stored date lies before that day's, and the two days differ in
  // their retention date.
  lemma DueAgainIff(r: Row, today: Date, later: Date, only: Option<int>)
    requires !Before(later, today) && RetentionFrom(later).Some?
    ensures
      Due(Closure(later, only), Fixed(Closure(today, only), r)) <==>
        && Selected(Closure(today, only), r) && r.closeAudit.None? && r.exitDate.None?
        && Before(r.until.value, RetentionFrom(later).value)
        && RetentionFrom(today) != RetentionFrom(later)
  {
    var first, second := Closure(today, only), Closure(later, only);
    FixedRow(first, r);
    if Selected(first, r) && r.closeAudit.None? && r.exitDate.None? {
      RetentionMonotone(today, later);
      TextAtLeastIsOrder(r.until.value, RetentionFrom(today).value);
      TextAtLeastIsOrder(r.until.value, RetentionFrom(later).value);
      TextAtLeastIsOrder(RetentionFrom(today).value, RetentionFrom(later).value);
    } else {
      var g := Fixed(first, r);
      assert Selected(second, g) ==> Base(second, g) == Base(first, g);
    }
  }

  // Such a row: closed, undated, extended on 1 January and again on 2 January.
  lemma SecondRunExtends()
    ensures
      var r := Row(Some(1), true, None, None, None, None, Some(Day(2030, 1, 1)));
      var first, second := Closure(Day(2026, 1, 1), None), Closure(Day(2026, 1, 2), None);
      Fixed(first, r).until == Some(Day(2036, 1, 1)) && Due(second, Fixed(first, r))
  {
    var r := Row(Some(1), true, None, None, None, None, Some(Day(2030, 1, 1)));
    TextAtLeastIsOrder(Day(2030, 1, 1), Day(2036, 1, 1));
    DueAgainIff(r, Day(2026, 1, 1), Day(2026, 1, 2), None);
  }
}

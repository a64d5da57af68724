// Subscription events that arrive in any order: what an organisation ends with,
// and exactly when the order matters.
module Convergence {
  import opened Prelude
  import opened Billing
  import opened BillingLaws

  // The subscription a list of events is about, and its customer.
  datatype Subject = Subject(subscription: string, customer: Option<string>)

  // The fields a subscription event decides.
  datatype Terms = Terms(plan: string, status: Option<string>, trialEnds: Option<Time>, periodEnd: Option<Time>)

  function TermsOf(o: Org): Terms {
    Terms(o.plan, o.planStatus, o.trialEnds, o.periodEnd)
  }

  predicate About(e: Event, who: Subject) {
    && e.payload.Subscription? && e.created.Some?
    && e.payload.sub.id == Some(who.subscription) && e.payload.sub.customer == who.customer
  }

  // The subscription as the event applies it.
  function Applied(e: Event): Sub
    requires e.payload.Subscription?
  {
    Effective(e.payload.kind, e.payload.sub)
  }

  predicate Mapped(e: Event)
    requires e.payload.Subscription?
  {
    MapStatus(Applied(e).status).Some?
  }

  // It falls back on nothing: a mapped status, a known tier and a period end.
  predicate Definite(e: Event, config: Config)
    requires e.payload.Subscription?
  {
    Mapped(e) && TierOf(config, Applied(e)).Some? && PeriodEnd(Applied(e), e.created).Some?
  }

  // What a definite event writes, whatever the row held before.
  function EventTerms(e: Event, config: Config): Terms
    requires e.payload.Subscription? && Definite(e, config)
  {
    Terms(TierOf(config, Applied(e)).value, MapStatus(Applied(e).status),
          Iso(Applied(e).trialEnd), PeriodEnd(Applied(e), e.created))
  }

  // Every event has a creation time of its own.
  ghost predicate Dated(es: seq<Event>) {
    && (forall e | e in es :: e.created.Some?)
    && (forall e, f | e in es && f in es :: e.created == f.created ==> e == f)
  }

  ghost predicate Told(es: seq<Event>, who: Subject) {
    who.subscription != "" && Dated(es) && forall e | e in es :: About(e, who)
  }

  ghost predicate SameEvents(es: seq<Event>, fs: seq<Event>) {
    forall e :: e in es <==> e in fs
  }

  // The newest event of a non-empty list, by creation time.
  function Newest(es: seq<Event>): (e: Event)
    requires es != [] && forall e | e in es :: e.created.Some?
    ensures e in es
    ensures forall f | f in es :: f.created.value <= e.created.value
  {
    if |es| == 1 then es[0]
    else
      var rest := Newest(es[1..]);
      if rest.created.value <= es[0].created.value then es[0] else rest
  }

  lemma {:induction false} NewestIs(es: seq<Event>, m: Event)
    requires Dated(es) && m in es && m.created.Some? && forall e | e in es :: e.created.value <= m.created.value
    ensures Newest(es) == m
  {
    assert Newest(es).created == m.created;
  }

  lemma {:induction false} SameNewest(es: seq<Event>, fs: seq<Event>)
    requires es != [] && fs != [] && Dated(es) && SameEvents(es, fs)
    ensures Newest(es) == Newest(fs)
  {
  }

  // Of the first two events the newer one is kept.
  lemma {:induction false} NewerOfTwo(last: Event, rest: seq<Event>, now: Event)
    requires Dated([last] + rest) && rest != [] && last.created.Some? && rest[0].created.Some?
    requires now == if rest[0].created.value < last.created.value then last else rest[0]
    ensures forall f | f in [now] + rest[1..] :: f in [last] + rest
    ensures Dated([now] + rest[1..]) && Newest([last] + rest) == Newest([now] + rest[1..])
  {
    var all, fewer := [last] + rest, [now] + rest[1..];
    assert forall f | f in fewer :: f in all;
    assert forall f | f in all :: f == last || f == rest[0] || f in rest[1..];
    NewestIs(all, Newest(fewer));
  }

  // ------------------------------------------------ one event on one row

  predicate HoldsOther(o: Org, who: Subject) {
    Truthy(o.subscriptionId) && o.subscriptionId != Some(who.subscription)
  }

  // Older than the watermark, or about another subscription than the one held
  // and not announcing a new one.
  predicate Ignored(o: Org, e: Event)
    requires e.payload.Subscription?
  {
    Stale(o, e.created) || Superseded(o, e.payload.kind, e.payload.sub)
  }

  // From this event on the row follows the subscription.
  predicate Starts(o: Org, e: Event, who: Subject)
    requires e.payload.Subscription?
  {
    !Ignored(o, e) && (HoldsOther(o, who) ==> Mapped(e))
  }

  // The row as the definite event e leaves it.
  predicate Settled(o: Org, e: Event, who: Subject, config: Config) {
    && e.payload.Subscription? && Definite(e, config)
    && o.subscriptionId == Some(who.subscription) && o.lastCreated == e.created && TermsOf(o) == EventTerms(e, config)
  }

  lemma RowStep(o: Org, e: Event, who: Subject, config: Config)
    requires About(e, who) && who.subscription != ""
    ensures
      var o' := OrgAfter(o, e, config);
      && (Ignored(o, e) ==> o' == o)
      && (!Ignored(o, e) ==> o'.lastCreated == e.created)
      && (!Mapped(e) ==> o' == o.(lastCreated := o'.lastCreated))
      && (HoldsOther(o', who) <==> HoldsOther(o, who) && !Starts(o, e, who))
      && (!Ignored(o, e) && Definite(e, config) ==> Settled(o', e, who, config))
  {
  }

  // Events applied to one row in turn.
  function RunOrg(o: Org, es: seq<Event>, config: Config): Org
    decreases |es|
  {
    if es == [] then o else RunOrg(OrgAfter(o, es[0], config), es[1..], config)
  }

  // ------------------------------------------------ many events on one row

  // The events from the first one that the row follows.
  function Taken(o: Org, es: seq<Event>, who: Subject, config: Config): (taken: seq<Event>)
    requires forall e | e in es :: e.payload.Subscription?
    ensures forall e | e in taken :: e in es
    decreases |es|
  {
    if es == [] || Starts(o, es[0], who) then es else Taken(OrgAfter(o, es[0], config), es[1..], who, config)
  }

  // The row follows the subscription and has heard of e last.
  predicate Marked(o: Org, e: Event, who: Subject, config: Config)
    requires e.payload.Subscription?
  {
    !HoldsOther(o, who) && o.lastCreated == e.created && (Definite(e, config) ==> Settled(o, e, who, config))
  }

  lemma {:induction false} MarkedRun(o: Org, last: Event, rest: seq<Event>, who: Subject, config: Config)
    requires Told([last] + rest, who) && last.payload.Subscription? && Marked(o, last, who, config)
    ensures Marked(RunOrg(o, rest, config), Newest([last] + rest), who, config)
    decreases |rest|
  {
    var all := [last] + rest;
    assert last in all;
    if rest == [] {
      NewestIs(all, last);
    } else {
      var e := rest[0];
      assert e in all;
      RowStep(o, e, who, config);
      var now := if Ignored(o, e) then last else e;
      NewerOfTwo(last, rest, now);
      MarkedRun(OrgAfter(o, e, config), now, rest[1..], who, config);
    }
  }

  // Out-of-order delivery of any events of one subscription, in any order and with
  // any repetition, to a row in any state. If the row never follows it, nothing but
  // the watermark changes; if it does, the newest event taken decides, provided
  // that one is definite. What the others carry does not matter.
  lemma {:induction false} Settles(o: Org, es: seq<Event>, who: Subject, config: Config)
    requires Told(es, who)
    ensures
      var taken, after := Taken(o, es, who, config), RunOrg(o, es, config);
      && (taken == [] ==> after == o.(lastCreated := after.lastCreated) && (!HoldsOther(o, who) ==> after == o))
      && (taken != [] ==> Marked(after, Newest(taken), who, config))
    decreases |es|
  {
    if es != [] {
      var e, rest := es[0], es[1..];
      assert e in es && forall f | f in rest :: f in es;
      RowStep(o, e, who, config);
      if Starts(o, e, who) {
        assert [e] + rest == es;
        MarkedRun(OrgAfter(o, e, config), e, rest, who, config);
      } else {
        Settles(OrgAfter(o, e, config), rest, who, config);
      }
    }
  }

  // A row that holds this subscription or none takes the newest event unless that
  // is older than the watermark, when it takes none.
  lemma {:induction false} HolderTakesNewest(o: Org, es: seq<Event>, who: Subject, config: Config)
    requires es != [] && Told(es, who) && !HoldsOther(o, who)
    ensures if Stale(o, Newest(es).created) then Taken(o, es, who, config) == []
            else Newest(es) in Taken(o, es, who, config)
    decreases |es|
  {
    var e, rest := es[0], es[1..];
    assert e in es && forall f | f in rest :: f in es;
    if !Starts(o, e, who) && rest != [] {
      assert Stale(o, e.created);
      HolderTakesNewest(o, rest, who, config);
      if Newest(es) != e {
        assert Newest(es) in rest;
        NewestIs(rest, Newest(es));
      } else {
        assert Newest(rest).created.value <= e.created.value;
      }
    }
  }

  // Convergence: the run ends with the terms, subscription and watermark of the
  // newest event of all, if that is definite, exactly when it is taken.
  lemma {:induction false} ConvergesIff(o: Org, es: seq<Event>, who: Subject, config: Config)
    requires es != [] && Told(es, who) && Definite(Newest(es), config)
    ensures Settled(RunOrg(o, es, config), Newest(es), who, config) <==> Newest(es) in Taken(o, es, who, config)
  {
    var m, taken := Newest(es), Taken(o, es, who, config);
    Settles(o, es, who, config);
    if m in taken {
      NewestIs(taken, m);
    }
    if taken == [] && !HoldsOther(o, who) {
      HolderTakesNewest(o, es, who, config);
    }
  }

  lemma {:induction false} Converges(o: Org, es: seq<Event>, who: Subject, config: Config)
    requires es != [] && Told(es, who) && Definite(Newest(es), config) && !HoldsOther(o, who)
    ensures
      var after := RunOrg(o, es, config);
      if Stale(o, Newest(es).created) then after == o else Settled(after, Newest(es), who, config)
  {
    HolderTakesNewest(o, es, who, config);
    ConvergesIff(o, es, who, config);
    Settles(o, es, who, config);
  }

  // ------------------------------------------------ a row that holds another subscription

  // A mapped announcement, not older than the watermark nor than an announcement of
  // unmapped status before it, which moves the watermark too.
  predicate Announces(o: Org, es: seq<Event>, i: nat)
    requires forall e | e in es :: e.payload.Subscription? && e.created.Some?
    requires i < |es|
  {
    && es[i].payload.kind.Created? && Mapped(es[i]) && !Stale(o, es[i].created)
    && forall h | 0 <= h < i && es[h].payload.kind.Created? && !Mapped(es[h]) ::
         es[h].created.value <= es[i].created.value
  }

  ghost predicate AfterAnnouncement(o: Org, es: seq<Event>, e: Event)
    requires forall e | e in es :: e.payload.Subscription? && e.created.Some?
  {
    exists i, j :: 0 <= i <= j < |es| && Announces(o, es, i) && es[j] == e
  }

  lemma AnnouncesLater(o: Org, es: seq<Event>, i: nat, who: Subject, config: Config)
    requires Told(es, who) && HoldsOther(o, who) && 0 < i < |es| && !Starts(o, es[0], who)
    ensures forall e | e in es[1..] :: e in es
    ensures Announces(o, es, i) <==> Announces(OrgAfter(o, es[0], config), es[1..], i - 1)
  {
    var rest, o' := es[1..], OrgAfter(o, es[0], config);
    assert es[0] in es && es[i] in es && rest[i - 1] == es[i];
    RowStep(o, es[0], who, config);
    assert forall e | e in rest :: e in es;
    assert forall h | 0 < h < i :: es[h] == rest[h - 1];
    if Announces(o', rest, i - 1) {
      forall h | 0 <= h < i && es[h].payload.kind.Created? && !Mapped(es[h])
        ensures es[h].created.value <= es[i].created.value
      {
        if h > 0 {
          assert rest[h - 1] == es[h];
        }
      }
    }
    if Announces(o, es, i) {
      forall h | 0 <= h < i - 1 && rest[h].payload.kind.Created? && !Mapped(rest[h])
        ensures rest[h].created.value <= rest[i - 1].created.value
      {
        assert rest[h] == es[h + 1];
      }
    }
  }

  // Such a row takes exactly the events that come at or after an announcement.
  lemma {:induction false} ResubscribedTakes(o: Org, es: seq<Event>, e: Event, who: Subject, config: Config)
    requires Told(es, who) && HoldsOther(o, who)
    ensures e in Taken(o, es, who, config) <==> AfterAnnouncement(o, es, e)
    decreases |es|
  {
    if es != [] {
      var first, rest := es[0], es[1..];
      assert first in es && forall f | f in rest :: f in es;
      if Starts(o, first, who) {
        assert Announces(o, es, 0);
        if e in es {
          var j :| 0 <= j < |es| && es[j] == e;
          assert 0 <= 0 <= j && Announces(o, es, 0);
        }
      } else {
        var o' := OrgAfter(o, first, config);
        RowStep(o, first, who, config);
        ResubscribedTakes(o', rest, e, who, config);
        if AfterAnnouncement(o', rest, e) {
          var i, j :| 0 <= i <= j < |rest| && Announces(o', rest, i) && rest[j] == e;
          AnnouncesLater(o, es, i + 1, who, config);
          assert Announces(o, es, i + 1) && es[j + 1] == e;
        }
        if AfterAnnouncement(o, es, e) {
          var i, j :| 0 <= i <= j < |es| && Announces(o, es, i) && es[j] == e;
          assert i > 0;
          AnnouncesLater(o, es, i, who, config);
          assert Announces(o', rest, i - 1) && rest[j - 1] == e;
        }
      }
    }
  }

  // A customer who subscribes again: on a row that still holds "old", the same
  // two events of "s" end past due in one order and active in the other.
  lemma ResubscriptionDiverges()
    ensures
      var o := Org(1, Some("c"), Some("old"), None, "starter", Some("canceled"), None, None);
      var created := Event("a", Some(1), Subscription(Created,
        Sub(Some("s"), Some("c"), "active", None, Some("starter"), None, None, Some(9), None, None, None)));
      var updated := Event("b", Some(2), Subscription(Updated,
        Sub(Some("s"), Some("c"), "past_due", None, Some("starter"), None, None, Some(9), None, None, None)));
      && OrgAfter(OrgAfter(o, created, []), updated, []).planStatus == Some("past_due")
      && OrgAfter(OrgAfter(o, updated, []), created, []).planStatus == Some("active")
  {
  }

  // ------------------------------------------------ when the order matters

  // Two deliveries of the same events, however ordered and repeated, to a row in
  // any state. Each ends following the subscription exactly when it takes some
  // event; where both do they agree on the watermark exactly when the newest event
  // taken is the same, and then, if that is definite, on the terms.
  lemma {:induction false} OrderAgreesIff(o: Org, es: seq<Event>, fs: seq<Event>, who: Subject, config: Config)
    requires Told(es, who) && SameEvents(es, fs)
    ensures forall e | e in fs :: e.payload.Subscription?
    ensures
      var x, y := RunOrg(o, es, config), RunOrg(o, fs, config);
      var tx, ty := Taken(o, es, who, config), Taken(o, fs, who, config);
      && (HoldsOther(o, who) ==> (HoldsOther(x, who) <==> tx == []) && (HoldsOther(y, who) <==> ty == []))
      && (!HoldsOther(o, who) ==> (tx == [] <==> ty == []))
      && (tx == [] && ty == [] ==> TermsOf(x) == TermsOf(y) && x.subscriptionId == y.subscriptionId)
      && (tx != [] && ty != [] ==>
            && (x.lastCreated == y.lastCreated <==> Newest(tx) == Newest(ty))
            && (Newest(tx) == Newest(ty) && Definite(Newest(tx), config) ==>
                  TermsOf(x) == TermsOf(y) && x.subscriptionId == y.subscriptionId))
  {
    Settles(o, es, who, config);
    Settles(o, fs, who, config);
    if !HoldsOther(o, who) && es != [] {
      assert es[0] in fs;
      SameNewest(es, fs);
      HolderTakesNewest(o, es, who, config);
      HolderTakesNewest(o, fs, who, config);
    }
  }

  // On a row that holds this subscription or none the watermark never depends on
  // the order, nor do the terms if the newest event is definite.
  lemma {:induction false} OrderIrrelevant(o: Org, es: seq<Event>, fs: seq<Event>, who: Subject, config: Config)
    requires es != [] && Told(es, who) && SameEvents(es, fs) && !HoldsOther(o, who)
    ensures
      var x, y := RunOrg(o, es, config), RunOrg(o, fs, config);
      && x.lastCreated == y.lastCreated
      && (Definite(Newest(es), config) ==> TermsOf(x) == TermsOf(y) && x.subscriptionId == y.subscriptionId)
  {
    assert es[0] in fs;
    SameNewest(es, fs);
    HolderTakesNewest(o, es, who, config);
    HolderTakesNewest(o, fs, who, config);
    Settles(o, es, who, config);
    Settles(o, fs, who, config);
    if !Stale(o, Newest(es).created) {
      NewestIs(Taken(o, es, who, config), Newest(es));
      NewestIs(Taken(o, fs, who, config), Newest(es));
    }
  }

  datatype Field = Plan | Standing | TrialEnd | End

  datatype Content = Text(text: string) | OptionalText(name: Option<string>) | Instant(time: Option<Time>)

  function Get(o: Org, f: Field): Content {
    match f
    case Plan => Text(o.plan)
    case Standing => OptionalText(o.planStatus)
    case TrialEnd => Instant(o.trialEnds)
    case End => Instant(o.periodEnd)
  }

  // What an event writes to a field, or None where it keeps what the row has.
  function Names(e: Event, f: Field, config: Config): Option<Content>
    requires e.payload.Subscription?
  {
    var sub := Applied(e);
    if !Mapped(e) then None
    else
      match f
      case Plan => if TierOf(config, sub).Some? then Some(Text(TierOf(config, sub).value)) else None
      case Standing => Some(OptionalText(MapStatus(sub.status)))
      case TrialEnd => Some(Instant(Iso(sub.trialEnd)))
      case End => if PeriodEnd(sub, e.created).Some? then Some(Instant(PeriodEnd(sub, e.created))) else None
  }

  lemma FieldStep(o: Org, e: Event, f: Field, who: Subject, config: Config)
    requires About(e, who) && who.subscription != ""
    ensures !Ignored(o, e) ==>
      Get(OrgAfter(o, e, config), f) == (if Names(e, f, config).Some? then Names(e, f, config).value else Get(o, f))
  {
  }

  // The newest event names the field, or no event that counts names anything else
  // than what the row has.
  ghost predicate Decided(o: Org, es: seq<Event>, f: Field, config: Config)
    requires es != [] && forall e | e in es :: e.payload.Subscription? && e.created.Some?
  {
    || Names(Newest(es), f, config).Some?
    || forall e | e in es && !Stale(o, e.created) && Names(e, f, config).Some? :: Names(e, f, config).value == Get(o, f)
  }

  // No event of the list is newer than m, and only m itself is as new.
  ghost predicate UpTo(es: seq<Event>, m: Event, who: Subject) {
    && m.created.Some? && About(m, who)
    && forall e | e in es :: About(e, who) && e.created.value <= m.created.value && (e.created == m.created ==> e == m)
  }

  // m names the field, and is in the row already or still to come.
  lemma {:induction false} NamedByNewest(o: Org, es: seq<Event>, m: Event, f: Field, who: Subject, config: Config)
    requires UpTo(es, m, who) && who.subscription != "" && !HoldsOther(o, who) && Names(m, f, config).Some?
    requires (m in es && !Stale(o, m.created)) || (o.lastCreated == m.created && Get(o, f) == Names(m, f, config).value)
    ensures Get(RunOrg(o, es, config), f) == Names(m, f, config).value
    decreases |es|
  {
    if es != [] {
      var e := es[0];
      assert e in es && forall g | g in es[1..] :: g in es;
      RowStep(o, e, who, config);
      FieldStep(o, e, f, who, config);
      NamedByNewest(OrgAfter(o, e, config), es[1..], m, f, who, config);
    }
  }

  // No event that counts names anything else.
  lemma {:induction false} NothingElseNamed(o: Org, o0: Org, es: seq<Event>, f: Field, who: Subject, config: Config)
    requires who.subscription != "" && forall e | e in es ::
      About(e, who)
      && (!Stale(o0, e.created) && Names(e, f, config).Some? ==> Names(e, f, config).value == Get(o, f))
    requires o0.lastCreated.Some? ==> o.lastCreated.Some? && o0.lastCreated.value <= o.lastCreated.value
    ensures Get(RunOrg(o, es, config), f) == Get(o, f)
    decreases |es|
  {
    if es != [] {
      var e := es[0];
      assert e in es && forall g | g in es[1..] :: g in es;
      RowStep(o, e, who, config);
      FieldStep(o, e, f, who, config);
      NothingElseNamed(OrgAfter(o, e, config), o0, es[1..], f, who, config);
    }
  }

  lemma {:induction false} AllUpToNewest(es: seq<Event>, who: Subject)
    requires es != [] && Told(es, who)
    ensures UpTo(es, Newest(es), who)
  {
  }

  // Where the field is decided, every order and repetition leaves the same.
  lemma {:induction false} DecidedAgrees(o: Org, es: seq<Event>, fs: seq<Event>, f: Field, who: Subject, config: Config)
    requires es != [] && Told(es, who) && !HoldsOther(o, who) && SameEvents(es, fs) && Decided(o, es, f, config)
    ensures Get(RunOrg(o, fs, config), f) == Get(RunOrg(o, es, config), f)
  {
    var m := Newest(es);
    AllUpToNewest(es, who);
    if Names(m, f, config).Some? && !Stale(o, m.created) {
      NamedByNewest(o, es, m, f, who, config);
      NamedByNewest(o, fs, m, f, who, config);
    } else {
      assert forall e | e in es && Stale(o, m.created) :: Stale(o, e.created);
      NothingElseNamed(o, o, es, f, who, config);
      NothingElseNamed(o, o, fs, f, who, config);
    }
  }

  // Nothing up to an event that does not name the field changes it afterwards.
  lemma {:induction false} KeptAfter(o: Org, es: seq<Event>, m: Event, f: Field, who: Subject, config: Config)
    requires UpTo(es, m, who) && who.subscription != "" && !HoldsOther(o, who) && Names(m, f, config).None?
    requires !Stale(o, m.created)
    ensures Get(RunOrg(o, [m] + es, config), f) == Get(o, f)
  {
    var o' := OrgAfter(o, m, config);
    RowStep(o, m, who, config);
    FieldStep(o, m, f, who, config);
    assert ([m] + es)[1..] == es;
    NothingElseNamed(o', o', es, f, who, config);
  }

  // Where it is not, two orders disagree: the newest event first, and the newest
  // event right after one that names something else.
  lemma UndecidedDisagrees(o: Org, es: seq<Event>, f: Field, who: Subject, config: Config)
    returns (fs: seq<Event>, gs: seq<Event>)
    requires es != [] && Told(es, who) && !HoldsOther(o, who) && !Decided(o, es, f, config)
    ensures SameEvents(es, fs) && SameEvents(es, gs)
    ensures Get(RunOrg(o, fs, config), f) != Get(RunOrg(o, gs, config), f)
  {
    var m := Newest(es);
    AllUpToNewest(es, who);
    var e :| e in es && !Stale(o, e.created) && Names(e, f, config).Some? && Names(e, f, config).value != Get(o, f);
    fs, gs := [m] + es, [e] + ([m] + es);
    var later := OrgAfter(o, e, config);
    RowStep(o, e, who, config);
    FieldStep(o, e, f, who, config);
    KeptAfter(o, es, m, f, who, config);
    KeptAfter(later, es, m, f, who, config);
    assert gs[1..] == [m] + es;
  }

  // Exactly when the order does not matter for one field: every order and every
  // repetition of the events leaves the same content, on a row that holds this
  // subscription or none, if and only if the field is decided.
  lemma {:induction false} FieldOrderIff(o: Org, es: seq<Event>, f: Field, who: Subject, config: Config)
    requires es != [] && Told(es, who) && !HoldsOther(o, who)
    ensures (forall fs | SameEvents(es, fs) :: Get(RunOrg(o, fs, config), f) == Get(RunOrg(o, es, config), f))
       <==> Decided(o, es, f, config)
  {
    if Decided(o, es, f, config) {
      forall fs | SameEvents(es, fs)
        ensures Get(RunOrg(o, fs, config), f) == Get(RunOrg(o, es, config), f)
      {
        DecidedAgrees(o, es, fs, f, who, config);
      }
    } else {
      var fs, gs := UndecidedDisagrees(o, es, f, who, config);
      assert SameEvents(es, fs) && SameEvents(es, gs);
    }
  }

  lemma SameTerms(o: Org, p: Org)
    ensures TermsOf(o) == TermsOf(p) <==> forall f :: Get(o, f) == Get(p, f)
  {
    if forall f :: Get(o, f) == Get(p, f) {
      assert Get(o, Plan) == Get(p, Plan) && Get(o, Standing) == Get(p, Standing);
      assert Get(o, TrialEnd) == Get(p, TrialEnd) && Get(o, End) == Get(p, End);
    }
  }

  // And for all terms together.
  lemma {:induction false} TermsOrderIff(o: Org, es: seq<Event>, who: Subject, config: Config)
    requires es != [] && Told(es, who) && !HoldsOther(o, who)
    ensures (forall fs | SameEvents(es, fs) :: TermsOf(RunOrg(o, fs, config)) == TermsOf(RunOrg(o, es, config)))
       <==> forall f :: Decided(o, es, f, config)
  {
    var after := RunOrg(o, es, config);
    if forall f :: Decided(o, es, f, config) {
      forall fs | SameEvents(es, fs)
        ensures TermsOf(RunOrg(o, fs, config)) == TermsOf(after)
      {
        forall f
          ensures Get(RunOrg(o, fs, config), f) == Get(after, f)
        {
          DecidedAgrees(o, es, fs, f, who, config);
        }
        SameTerms(RunOrg(o, fs, config), after);
      }
    } else {
      var f :| !Decided(o, es, f, config);
      var fs, gs := UndecidedDisagrees(o, es, f, who, config);
      SameTerms(RunOrg(o, fs, config), after);
      SameTerms(RunOrg(o, gs, config), after);
      assert SameEvents(es, fs) && SameEvents(es, gs);
    }
  }

  // Without a known tier the order does matter: an event that keeps "what we
  // had" keeps whatever happened to be there when it was applied.
  lemma UnknownTierDiverges()
    ensures
      var o := Org(1, None, None, None, "none", None, None, None);
      var known := Event("a", Some(1), Subscription(Created,
        Sub(Some("s"), None, "active", None, Some("starter"), Some(1), None, Some(9), None, None, None)));
      var unknown := Event("b", Some(2), Subscription(Updated,
        Sub(Some("s"), None, "active", None, None, Some(1), None, Some(9), None, None, None)));
      && OrgAfter(OrgAfter(o, known, []), unknown, []).plan == "starter"
      && OrgAfter(OrgAfter(o, unknown, []), known, []).plan == "none"
  {
  }

  // ------------------------------------------------ a checkout among them

  // A checkout and the announcement of its subscription leave the same row in
  // either order, unless the checkout lifts a pending payment to a plan that the
  // announcement does not name.
  lemma CheckoutCommutesIff(o: Org, p: Payload, e: Event, who: Subject, config: Config)
    requires p.Checkout? && p.subscription == Some(who.subscription) && p.customer == who.customer
    requires who.subscription != "" && About(e, who) && e.payload.kind.Created?
    ensures OrgAfter(AfterCheckout(o, p), e, config) == AfterCheckout(OrgAfter(o, e, config), p)
       <==> !(&& ClearsPending(o, p) && p.tier.value != o.plan
              && !Stale(o, e.created) && Mapped(e) && TierOf(config, Applied(e)).None?)
  {
  }

  // Such a pair: the plan ends as "starter" or stays "none".
  lemma CheckoutDiverges()
    ensures
      var o := Org(1, None, None, None, "none", Some("pending_payment"), None, None);
      var p := Checkout(Some(1), Some("c"), Some("s"), Some("starter"));
      var e := Event("a", Some(1), Subscription(Created,
        Sub(Some("s"), Some("c"), "active", None, None, Some(1), None, Some(9), None, None, None)));
      && OrgAfter(AfterCheckout(o, p), e, []).plan == "starter"
      && AfterCheckout(OrgAfter(o, e, []), p).plan == "none"
  {
  }

  // ------------------------------------------------ among other events

  // Organisation k is the one the events about `who` belong to: no other row
  // holds this customer or subscription. What k itself holds is left open.
  predicate Home(orgs: seq<Org>, k: nat, who: Subject) {
    && who.subscription != "" && k < |orgs|
    && forall j | 0 <= j < |orgs| && j != k ::
         && orgs[j].subscriptionId != Some(who.subscription)
         && (Truthy(who.customer) ==> orgs[j].customerId != who.customer)
  }

  predicate BelongsTo(orgs: seq<Org>, k: nat, e: Event) {
    Target(orgs, e.payload) == Some(k)
  }

  predicate Apart(o: Org, customer: Option<string>, subscription: Option<string>, who: Subject) {
    && (Truthy(customer) ==> customer != o.customerId && customer != who.customer)
    && (Truthy(subscription) ==> subscription != o.subscriptionId && subscription != Some(who.subscription))
  }

  // An event of any kind that names neither the organisation nor its ids.
  predicate Elsewhere(o: Org, e: Event, who: Subject) {
    match e.payload
    case Checkout(hint, customer, subscription, _) => hint != Some(o.id) && Apart(o, customer, subscription, who)
    case Subscription(_, sub) => sub.metaOrg != Some(o.id) && Apart(o, sub.customer, sub.id, who)
    case Invoice(_, _, payer, forSubscription) => Apart(o, payer, forSubscription, who)
    case Unhandled => true
  }

  // Events of one subscription, all attributed to row k, among any others.
  ghost predicate Stream(orgs: seq<Org>, k: nat, es: seq<Event>, who: Subject) {
    && Home(orgs, k, who) && Dated(Own(es, who))
    && forall e | e in es :: (About(e, who) && BelongsTo(orgs, k, e)) || (!About(e, who) && Elsewhere(orgs[k], e, who))
  }

  function Own(es: seq<Event>, who: Subject): (own: seq<Event>)
    ensures forall e :: e in own <==> e in es && About(e, who)
  {
    if es == [] then []
    else
      var rest := Own(es[1..], who);
      if About(es[0], who) then [es[0]] + rest else rest
  }

  lemma {:induction false} FirstAt(orgs: seq<Org>, k: nat, p: Org -> bool)
    requires k < |orgs| && forall j | 0 <= j < |orgs| && j != k :: !p(orgs[j])
    ensures First(orgs, p) == if p(orgs[k]) then Some(k) else None
  {
  }

  // Rows that agree on ids elsewhere are searched with the same result.
  lemma {:induction false} FirstSame(a: seq<Org>, b: seq<Org>, id: int)
    requires |a| == |b| && forall j | 0 <= j < |a| :: a[j].id == b[j].id
    ensures First(a, (o: Org) => o.id == id) == First(b, (o: Org) => o.id == id)
  {
  }

  // Rows may change around an organisation, and it may take up the ids itself:
  // the events of the subscription stay attributed to it.
  lemma AttributionStable(orgs: seq<Org>, orgs': seq<Org>, k: nat, f: Event, who: Subject)
    requires Home(orgs, k, who) && Home(orgs', k, who) && |orgs| == |orgs'|
    requires forall j | 0 <= j < |orgs| :: orgs[j].id == orgs'[j].id
    requires orgs'[k].customerId == orgs[k].customerId || orgs'[k].customerId == who.customer
    requires orgs'[k].subscriptionId == orgs[k].subscriptionId || orgs'[k].subscriptionId == Some(who.subscription)
    requires About(f, who) && BelongsTo(orgs, k, f)
    ensures BelongsTo(orgs', k, f)
  {
    var sub := f.payload.sub;
    if Truthy(who.customer) {
      FirstAt(orgs, k, (o: Org) => o.customerId == who.customer);
      FirstAt(orgs', k, (o: Org) => o.customerId == who.customer);
    }
    FirstAt(orgs, k, (o: Org) => o.subscriptionId == sub.id);
    FirstAt(orgs', k, (o: Org) => o.subscriptionId == sub.id);
    if sub.metaOrg.Some? {
      FirstSame(orgs, orgs', sub.metaOrg.value);
    }
  }

  // An event of the subscription changes row k only, and its ids only to those of
  // the subscription.
  lemma OwnEvent(b: Books, k: nat, e: Event, who: Subject, config: Config)
    requires Home(b.orgs, k, who) && About(e, who) && BelongsTo(b.orgs, k, e)
    ensures
      var orgs' := BooksAfter(b, e, config).orgs;
      && orgs' == b.orgs[k := OrgAfter(b.orgs[k], e, config)] && Home(orgs', k, who)
      && orgs'[k].id == b.orgs[k].id
      && (orgs'[k].customerId == b.orgs[k].customerId || orgs'[k].customerId == who.customer)
      && (orgs'[k].subscriptionId == b.orgs[k].subscriptionId || orgs'[k].subscriptionId == Some(who.subscription))
  {
  }

  // Any other event leaves row k alone and gives no row the ids.
  lemma OtherEvent(b: Books, k: nat, e: Event, who: Subject, config: Config)
    requires Home(b.orgs, k, who) && Elsewhere(b.orgs[k], e, who)
    ensures
      var orgs' := BooksAfter(b, e, config).orgs;
      && |orgs'| == |b.orgs| && orgs'[k] == b.orgs[k] && Home(orgs', k, who)
      && forall j | 0 <= j < |b.orgs| :: orgs'[j].id == b.orgs[j].id
  {
    NotTargeted(b.orgs, k, e, who);
  }

  lemma NotTargeted(orgs: seq<Org>, k: nat, e: Event, who: Subject)
    requires Home(orgs, k, who) && Elsewhere(orgs[k], e, who)
    ensures !BelongsTo(orgs, k, e)
  {
  }

  lemma StreamStep(b: Books, k: nat, es: seq<Event>, who: Subject, config: Config)
    requires es != [] && Stream(b.orgs, k, es, who)
    ensures Stream(BooksAfter(b, es[0], config).orgs, k, es[1..], who)
  {
    var e, orgs' := es[0], BooksAfter(b, es[0], config).orgs;
    assert e in es;
    if About(e, who) {
      OwnEvent(b, k, e, who, config);
    } else {
      OtherEvent(b, k, e, who, config);
    }
    forall f | f in es[1..]
      ensures (About(f, who) && BelongsTo(orgs', k, f)) || (!About(f, who) && Elsewhere(orgs'[k], f, who))
    {
      assert f in es;
      if About(f, who) {
        AttributionStable(b.orgs, orgs', k, f, who);
      }
    }
  }

  // Whatever happens around it, the organisation ends as if only the events of its
  // subscription had been applied to it, in their order; and these change no other
  // row.
  lemma {:induction false} StreamProjects(b: Books, k: nat, es: seq<Event>, who: Subject, config: Config)
    requires Stream(b.orgs, k, es, who)
    ensures
      var after := RunBooks(b, es, config).orgs;
      && after[k] == RunOrg(b.orgs[k], Own(es, who), config)
      && (Own(es, who) == es ==> after == b.orgs[k := after[k]])
    decreases |es|
  {
    if es != [] {
      var e := es[0];
      assert e in es;
      StreamStep(b, k, es, who, config);
      StreamProjects(BooksAfter(b, e, config), k, es[1..], who, config);
      if About(e, who) {
        OwnEvent(b, k, e, who, config);
        assert ([e] + Own(es[1..], who))[1..] == Own(es[1..], who);
      } else {
        OtherEvent(b, k, e, who, config);
        OwnIsShorter(es[1..], who);
      }
    }
  }

  lemma {:induction false} OwnIsShorter(es: seq<Event>, who: Subject)
    ensures |Own(es, who)| <= |es|
  {
    if es != [] {
      OwnIsShorter(es[1..], who);
    }
  }

  // Two runs of the inbox, each with its own duplicates, failures, order and events
  // of other organisations, in which the same events of one subscription got
  // through. On a row that holds it or none they agree on the watermark, and on the
  // terms if the newest of these events is definite.
  lemma {:induction false} InboxConverges(s: State, ds: seq<Delivery>, ds': seq<Delivery>, k: nat, who: Subject,
                                          config: Config)
    requires Stream(s.books.orgs, k, ThroughEvents(s, ds), who)
    requires Stream(s.books.orgs, k, ThroughEvents(s, ds'), who)
    requires Own(ThroughEvents(s, ds), who) != [] && !HoldsOther(s.books.orgs[k], who)
    requires SameEvents(Own(ThroughEvents(s, ds), who), Own(ThroughEvents(s, ds'), who))
    ensures
      var a, b := Run(s, ds, config).books.orgs, Run(s, ds', config).books.orgs;
      var newest := Newest(Own(ThroughEvents(s, ds), who));
      && |a| == |b| == |s.books.orgs| && a[k].lastCreated == b[k].lastCreated
      && (Definite(newest, config) ==> TermsOf(a[k]) == TermsOf(b[k]) && a[k].subscriptionId == b[k].subscriptionId)
  {
    InboxProjects(s, ds, k, who, config);
    InboxProjects(s, ds', k, who, config);
    OrderIrrelevant(s.books.orgs[k], Own(ThroughEvents(s, ds), who), Own(ThroughEvents(s, ds'), who), who, config);
  }

  // Every law of this module about one row is one about the inbox.
  lemma {:induction false} InboxProjects(s: State, ds: seq<Delivery>, k: nat, who: Subject, config: Config)
    requires Stream(s.books.orgs, k, ThroughEvents(s, ds), who)
    ensures
      var orgs := Run(s, ds, config).books.orgs;
      && |orgs| == |s.books.orgs|
      && orgs[k] == RunOrg(s.books.orgs[k], Own(ThroughEvents(s, ds), who), config)
  {
    InboxRuns(s, ds, config);
    StreamProjects(s.books, k, ThroughEvents(s, ds), who, config);
  }
}

// What the inbox guarantees over whole runs: every event id counts exactly once,
// and what no event of whatever kind undoes.
module BillingLaws {
  import opened Prelude
  import opened Billing

  // ------------------------------------------------ exactly once

  function Run(s: State, ds: seq<Delivery>, config: Config): State
    decreases |ds|
  {
    if ds == [] then s else Run(Deliver(s, ds[0], config), ds[1..], config)
  }

  function RunOnce(s: State, ds: seq<Delivery>, config: Config): State
    decreases |ds|
  {
    if ds == [] then s else RunOnce(Once(s, ds[0].event, ds[0].now, config), ds[1..], config)
  }

  function DoneIds(s: State): set<string> {
    set id | id in s.inbox && s.inbox[id].processedAt.Some?
  }

  // Of each event id not done yet, the first delivery that did not fail.
  function Kept(done: set<string>, ds: seq<Delivery>): seq<Delivery>
    decreases |ds|
  {
    if ds == [] then []
    else if ds[0].event.id in done || Fails(ds[0]) then Kept(done, ds[1..])
    else [ds[0]] + Kept(done + {ds[0].event.id}, ds[1..])
  }

  // Organisation rows, inbox and audit trail of any run, duplicates and failed
  // attempts included, are those of processing each kept delivery once.
  lemma {:induction false} ExactlyOnce(s: State, ds: seq<Delivery>, config: Config)
    ensures Run(s, ds, config) == RunOnce(s, Kept(DoneIds(s), ds), config)
    decreases |ds|
  {
    if ds != [] {
      var d, rest := ds[0], ds[1..];
      var next := Deliver(s, d, config);
      ExactlyOnce(next, rest, config);
      if !(d.event.id in DoneIds(s) || Fails(d)) {
        assert DoneIds(next) == DoneIds(s) + {d.event.id};
        assert Kept(DoneIds(s), ds) == [d] + Kept(DoneIds(next), rest);
      }
    }
  }

  ghost predicate FirstGood(done: set<string>, ds: seq<Delivery>, i: nat)
    requires i < |ds|
  {
    && !Fails(ds[i]) && ds[i].event.id !in done
    && forall j | 0 <= j < i :: ds[j].event.id == ds[i].event.id ==> Fails(ds[j])
  }

  // FirstGood, seen from the second delivery on.
  lemma FirstGoodShift(done: set<string>, ds: seq<Delivery>, i: nat)
    requires 0 < i < |ds|
    ensures
      var done' := if ds[0].event.id in done || Fails(ds[0]) then done else done + {ds[0].event.id};
      FirstGood(done, ds, i) <==> FirstGood(done', ds[1..], i - 1)
  {
  }

  // Exactly those deliveries are kept ...
  lemma {:induction false} KeptAreFirstGood(done: set<string>, ds: seq<Delivery>, d: Delivery)
    ensures d in Kept(done, ds) <==> exists i :: 0 <= i < |ds| && ds[i] == d && FirstGood(done, ds, i)
    decreases |ds|
  {
    if ds != [] {
      var kept := !(ds[0].event.id in done || Fails(ds[0]));
      var done' := if kept then done + {ds[0].event.id} else done;
      KeptAreFirstGood(done', ds[1..], d);
      assert FirstGood(done, ds, 0) == kept;
      if exists i :: 0 <= i < |ds| && ds[i] == d && FirstGood(done, ds, i) {
        var i :| 0 <= i < |ds| && ds[i] == d && FirstGood(done, ds, i);
        if i > 0 {
          FirstGoodShift(done, ds, i);
          assert ds[1..][i - 1] == d;
        }
      }
      if exists i :: 0 <= i < |ds[1..]| && ds[1..][i] == d && FirstGood(done', ds[1..], i) {
        var i :| 0 <= i < |ds[1..]| && ds[1..][i] == d && FirstGood(done', ds[1..], i);
        FirstGoodShift(done, ds, i + 1);
        assert ds[i + 1] == d;
      }
    }
  }

  // ... and no event id twice, nor one that was done already.
  lemma {:induction false} KeptDistinct(done: set<string>, ds: seq<Delivery>)
    ensures forall a | 0 <= a < |Kept(done, ds)| :: Kept(done, ds)[a].event.id !in done
    ensures forall a, b | 0 <= a < b < |Kept(done, ds)| :: Kept(done, ds)[a].event.id != Kept(done, ds)[b].event.id
    decreases |ds|
  {
    if ds != [] {
      if ds[0].event.id in done || Fails(ds[0]) {
        KeptDistinct(done, ds[1..]);
      } else {
        KeptDistinct(done + {ds[0].event.id}, ds[1..]);
      }
    }
  }

  // ------------------------------------------------ runs of events

  function RunBooks(b: Books, es: seq<Event>, config: Config): (b': Books)
    ensures |b'.orgs| == |b.orgs|
    decreases |es|
  {
    if es == [] then b else RunBooks(BooksAfter(b, es[0], config), es[1..], config)
  }

  function EventsOf(ds: seq<Delivery>): seq<Event> {
    if ds == [] then [] else [ds[0].event] + EventsOf(ds[1..])
  }

  lemma {:induction false} OnceBooks(s: State, ds: seq<Delivery>, config: Config)
    ensures RunOnce(s, ds, config).books == RunBooks(s.books, EventsOf(ds), config)
    decreases |ds|
  {
    if ds != [] {
      OnceBooks(Once(s, ds[0].event, ds[0].now, config), ds[1..], config);
    }
  }

  // Events that got through, by id: those with a delivery that did not fail.
  function ThroughEvents(s: State, ds: seq<Delivery>): seq<Event> {
    EventsOf(Kept(DoneIds(s), ds))
  }

  // A run of the inbox is a run of the events that got through.
  lemma {:induction false} InboxRuns(s: State, ds: seq<Delivery>, config: Config)
    ensures Run(s, ds, config).books == RunBooks(s.books, ThroughEvents(s, ds), config)
  {
    ExactlyOnce(s, ds, config);
    OnceBooks(s, Kept(DoneIds(s), ds), config);
  }

  // A failed payment and the one that makes up for it leave an organisation in
  // good standing as it was, and lead to good standing from any other. A payment
  // alone leaves a cancelled or trialing organisation as it is.
  lemma PaymentMadeGood(o: Org, failure: Payload, payment: Payload, created: Option<int>, later: Option<int>)
    requires failure.Invoice? && !failure.paid && payment.Invoice? && payment.paid
    ensures
      var paid := AfterInvoice(AfterInvoice(o, failure, created), payment, later);
      && paid == o.(planStatus := Some("active"), periodEnd := paid.periodEnd)
      && (o.planStatus == Some("active") && o.periodEnd.Some? ==> paid == o)
    ensures o.planStatus == Some("canceled") || o.planStatus == Some("trialing") ==>
      AfterInvoice(o, payment, later) == o
  {
  }

  // In no run of events does an organisation lose its customer id or the end of
  // its period once it has them.
  lemma {:induction false} KnownStaysKnown(b: Books, es: seq<Event>, config: Config, j: nat)
    requires j < |b.orgs|
    ensures
      var before, after := b.orgs[j], RunBooks(b, es, config).orgs[j];
      && after.id == before.id
      && (before.customerId.Some? ==> after.customerId.Some?)
      && (before.periodEnd.Some? ==> after.periodEnd.Some?)
    decreases |es|
  {
    if es != [] {
      KnownStaysKnown(BooksAfter(b, es[0], config), es[1..], config, j);
    }
  }

  // Nor does any watermark move back.
  lemma {:induction false} WatermarkMonotone(b: Books, es: seq<Event>, config: Config, j: nat)
    requires j < |b.orgs|
    ensures
      var before, after := b.orgs[j].lastCreated, RunBooks(b, es, config).orgs[j].lastCreated;
      before.Some? ==> after.Some? && before.value <= after.value
    decreases |es|
  {
    if es != [] {
      WatermarkMonotone(BooksAfter(b, es[0], config), es[1..], config, j);
    }
  }
}

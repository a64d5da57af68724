// The Stripe webhook inbox: verified events are stored once per event id and
// applied to the organisation rows; a failed attempt leaves no trace.
module Billing {
  import opened Prelude

  // Times are unix seconds; a stored time is one the calendar can express.
  type Time = int
  const MIN_TIME: int := -62135596800
  const MAX_TIME: int := 253402300799

  datatype Org = Org(
    id: int,
    customerId: Option<string>,
    subscriptionId: Option<string>,
    lastCreated: Option<int>,
    plan: string,
    planStatus: Option<string>,
    trialEnds: Option<Time>,
    periodEnd: Option<Time>)

  datatype SubKind = Created | Updated | Deleted

  datatype Sub = Sub(
    id: Option<string>,
    customer: Option<string>,
    status: string,
    priceId: Option<string>,
    metaTier: Option<string>,
    metaOrg: Option<int>,
    trialEnd: Option<int>,
    currentPeriodEnd: Option<int>,
    itemPeriodEnd: Option<int>,
    endedAt: Option<int>,
    canceledAt: Option<int>)

  datatype Payload =
    | Checkout(hint: Option<int>, customer: Option<string>, subscription: Option<string>, tier: Option<string>)
    | Subscription(kind: SubKind, sub: Sub)
    | Invoice(paid: bool, invoiceId: Option<string>, payer: Option<string>, forSubscription: Option<string>)
    | Unhandled

  datatype Event = Event(id: string, created: Option<int>, payload: Payload)

  // tier -> price id, in the order the tiers are configured.
  type Config = seq<(string, string)>

  datatype Audit =
    | SubscriptionSync(org: int, kind: SubKind, subscription: Option<string>, fromPlan: string, toPlan: string,
                       fromStatus: Option<string>, toStatus: string)
    | PendingCleared(org: int, tier: string)
    | CheckoutCompleted(org: int, customer: Option<string>, subscription: Option<string>)
    | PaymentFailed(org: int, invoice: Option<string>, fromStatus: Option<string>)
    | PaymentRecovered(org: int, invoice: Option<string>)

  datatype InboxRow = InboxRow(orgId: Option<int>, receivedAt: Time, processedAt: Option<Time>)

  datatype Books = Books(orgs: seq<Org>, audit: seq<Audit>)

  datatype State = State(books: Books, inbox: map<string, InboxRow>)

  datatype Outcome = Processed | Duplicate | Stored | Raised

  const PLANS := {"starter", "professional", "consultant"}

  // ------------------------------------------------ reading an event

  predicate Truthy(s: Option<string>) {
    s.Some? && s.value != ""
  }

  function Iso(t: Option<int>): Option<Time> {
    if t.Some? && MIN_TIME <= t.value <= MAX_TIME then t else None
  }

  function MapStatus(status: string): Option<string> {
    if status == "trialing" || status == "active" || status == "past_due" || status == "unpaid" || status == "canceled"
    then Some(status)
    else if status == "incomplete" then Some("past_due")
    else if status == "incomplete_expired" then Some("canceled")
    else if status == "paused" then Some("unpaid")
    else None
  }

  // The subscription object as applied: a deletion counts as canceled.
  function Effective(kind: SubKind, sub: Sub): Sub {
    if kind.Deleted? then sub.(status := "canceled") else sub
  }

  function TierForPrice(config: Config, price: Option<string>): Option<string> {
    if config == [] || !Truthy(price) then None
    else if config[0].1 == price.value then Some(config[0].0)
    else TierForPrice(config[1..], price)
  }

  function TierOf(config: Config, sub: Sub): Option<string> {
    var t := TierForPrice(config, sub.priceId);
    if Truthy(t) then t else if Truthy(sub.metaTier) then sub.metaTier else None
  }

  function NonZero(t: Option<int>): Option<int> {
    if t == Some(0) then None else t
  }

  function PeriodEnd(sub: Sub, created: Option<int>): Option<Time> {
    var end := Iso(sub.currentPeriodEnd.OrElse(sub.itemPeriodEnd));
    if MapStatus(sub.status) == Some("canceled") && end.None?
    then Iso(NonZero(sub.endedAt).OrElse(NonZero(sub.canceledAt)).OrElse(created))
    else end
  }

  // ------------------------------------------------ attributing an event

  function First(orgs: seq<Org>, p: Org -> bool): (k: Option<nat>)
    ensures k.Some? ==> k.value < |orgs| && p(orgs[k.value])
    ensures k.Some? ==> forall j | 0 <= j < k.value :: !p(orgs[j])
    ensures k.None? ==> forall j | 0 <= j < |orgs| :: !p(orgs[j])
  {
    if orgs == [] then None
    else if p(orgs[0]) then Some(0)
    else
      var rest := First(orgs[1..], p);
      if rest.Some? then Some(rest.value + 1) else None
  }

  // A stored customer id is the strongest key, then a stored subscription id,
  // then the hint the event carries.
  function FindOrg(orgs: seq<Org>, hint: Option<int>, customer: Option<string>, subscription: Option<string>)
    : (k: Option<nat>)
    ensures k.Some? ==> k.value < |orgs|
  {
    var byCustomer := if Truthy(customer) then First(orgs, (o: Org) => o.customerId == customer) else None;
    var bySubscription :=
      if Truthy(subscription) then First(orgs, (o: Org) => o.subscriptionId == subscription) else None;
    var byHint := if hint.Some? then First(orgs, (o: Org) => o.id == hint.value) else None;
    byCustomer.OrElse(bySubscription).OrElse(byHint)
  }

  // ------------------------------------------------ one event's effect

  function SyncedOrg(o: Org, kind: SubKind, sub: Sub, config: Config, created: Option<int>): Org {
    var status := MapStatus(sub.status);
    if status.None? then o
    else
      var tier := TierOf(config, sub);
      o.(subscriptionId := sub.id,
         plan := if tier.Some? then tier.value else o.plan,
         planStatus := status,
         trialEnds := Iso(sub.trialEnd),
         periodEnd := PeriodEnd(sub, created).OrElse(o.periodEnd),
         customerId := sub.customer.OrElse(o.customerId))
  }

  predicate Superseded(o: Org, kind: SubKind, sub: Sub) {
    !kind.Created? && Truthy(o.subscriptionId) && sub.id != o.subscriptionId
  }

  predicate Stale(o: Org, created: Option<int>) {
    created.Some? && o.lastCreated.Some? && created.value < o.lastCreated.value
  }

  function AfterSubscription(o: Org, kind: SubKind, sub: Sub, config: Config, created: Option<int>): Org {
    if Stale(o, created) || Superseded(o, kind, sub) then o
    else
      var synced := SyncedOrg(o, kind, Effective(kind, sub), config, created);
      if created.Some? then synced.(lastCreated := created) else synced
  }

  function SubscriptionAudit(o: Org, kind: SubKind, sub: Sub, config: Config, created: Option<int>): seq<Audit> {
    var status := MapStatus(Effective(kind, sub).status);
    if Stale(o, created) || Superseded(o, kind, sub) || status.None? then []
    else
      [SubscriptionSync(o.id, kind, sub.id, o.plan, AfterSubscription(o, kind, sub, config, created).plan,
                        o.planStatus, status.value)]
  }

  predicate ClearsPending(o: Org, p: Payload)
    requires p.Checkout?
  {
    o.planStatus == Some("pending_payment") && Truthy(p.subscription) && p.tier.Some? && p.tier.value in PLANS
  }

  function AfterCheckout(o: Org, p: Payload): Org
    requires p.Checkout?
  {
    var linked := o.(customerId := p.customer.OrElse(o.customerId),
                     subscriptionId := p.subscription.OrElse(o.subscriptionId));
    if ClearsPending(o, p) then linked.(plan := p.tier.value, planStatus := Some("trialing")) else linked
  }

  function AfterInvoice(o: Org, p: Payload, created: Option<int>): Org
    requires p.Invoice?
  {
    if !p.paid then o.(planStatus := Some("past_due"), periodEnd := o.periodEnd.OrElse(Iso(created)))
    else if o.planStatus == Some("past_due") || o.planStatus == Some("unpaid") then o.(planStatus := Some("active"))
    else o
  }

  function InvoiceAudit(o: Org, p: Payload): seq<Audit>
    requires p.Invoice?
  {
    if !p.paid then [PaymentFailed(o.id, p.invoiceId, o.planStatus)]
    else if o.planStatus == Some("past_due") || o.planStatus == Some("unpaid")
      then [PaymentRecovered(o.id, p.invoiceId)]
    else []
  }

  function Target(orgs: seq<Org>, p: Payload): (k: Option<nat>)
    ensures k.Some? ==> k.value < |orgs|
  {
    match p
    case Checkout(hint, customer, _, _) => FindOrg(orgs, hint, customer, None)
    case Subscription(_, sub) => FindOrg(orgs, sub.metaOrg, sub.customer, sub.id)
    case Invoice(_, _, payer, forSubscription) => FindOrg(orgs, None, payer, forSubscription)
    case Unhandled => None
  }

  function OrgAfter(o: Org, e: Event, config: Config): Org {
    match e.payload
    case Checkout(_, _, _, _) => AfterCheckout(o, e.payload)
    case Subscription(kind, sub) => AfterSubscription(o, kind, sub, config, e.created)
    case Invoice(_, _, _, _) => AfterInvoice(o, e.payload, e.created)
    case Unhandled => o
  }

  function AuditOf(o: Org, e: Event, config: Config): seq<Audit> {
    match e.payload
    case Checkout(_, customer, subscription, tier) =>
      (if ClearsPending(o, e.payload) then [PendingCleared(o.id, tier.value)] else [])
      + [CheckoutCompleted(o.id, customer, subscription)]
    case Subscription(kind, sub) => SubscriptionAudit(o, kind, sub, config, e.created)
    case Invoice(_, _, _, _) => InvoiceAudit(o, e.payload)
    case Unhandled => []
  }

  // An attributed event touches exactly one organisation row.
  function BooksAfter(b: Books, e: Event, config: Config): Books {
    var k := Target(b.orgs, e.payload);
    if k.None? then b
    else
      var o := b.orgs[k.value];
      Books(b.orgs[k.value := OrgAfter(o, e, config)], b.audit + AuditOf(o, e, config))
  }

  function Attribution(b: Books, e: Event): Option<int> {
    var k := Target(b.orgs, e.payload);
    if k.None? then None else Some(b.orgs[k.value].id)
  }

  // ------------------------------------------------ deliveries

  // fault: what an attempt had written, uncommitted, when it raised.
  datatype Delivery = Delivery(event: Event, now: Time, fault: Option<Books>)

  predicate Fails(d: Delivery) {
    d.fault.Some? && !d.event.payload.Unhandled?
  }

  predicate Done(s: State, id: string) {
    id in s.inbox && s.inbox[id].processedAt.Some?
  }

  // Processing one event, with no check for duplicates: store, apply, mark done.
  function Once(s: State, e: Event, now: Time, config: Config): State {
    var received := if e.id in s.inbox then s.inbox[e.id].receivedAt else now;
    State(BooksAfter(s.books, e, config),
          s.inbox[e.id := InboxRow(Attribution(s.books, e), received, Some(now))])
  }

  function Deliver(s: State, d: Delivery, config: Config): State {
    if Done(s, d.event.id) || Fails(d) then s else Once(s, d.event, d.now, config)
  }

  function DeliveryOutcome(s: State, d: Delivery): Outcome {
    if Done(s, d.event.id) then Duplicate
    else if Fails(d) then Raised
    else if Attribution(s.books, d.event).Some? then Processed
    else Stored
  }

  class BillingStore {
    var orgs: seq<Org>
    var audit: seq<Audit>
    var inbox: map<string, InboxRow>

    function View(): State
      reads this
    {
      State(Books(orgs, audit), inbox)
    }

    constructor (orgs: seq<Org>)
      ensures View() == State(Books(orgs, []), map[])
    {
      this.orgs, audit, inbox := orgs, [], map[];
    }

    method ApplySubscription(k: nat, kind: SubKind, sub: Sub, config: Config, created: Option<int>)
      requires k < |orgs|
      modifies `orgs, `audit
      ensures orgs == old(orgs)[k := SyncedOrg(old(orgs[k]), kind, sub, config, created)]
      ensures audit == old(audit) + (if MapStatus(sub.status).None? then [] else
        [SubscriptionSync(old(orgs[k]).id, kind, sub.id, old(orgs[k]).plan, orgs[k].plan,
                          old(orgs[k]).planStatus, MapStatus(sub.status).value)])
    {
      var status := MapStatus(sub.status);
      if status.None? {
        return;
      }
      var tier := TierOf(config, sub);
      var cur := orgs[k];
      var plan := if tier.Some? then tier.value else cur.plan;
      var periodEnd := Iso(if sub.currentPeriodEnd.Some? then sub.currentPeriodEnd else sub.itemPeriodEnd);
      if status.value == "canceled" && periodEnd.None? {
        periodEnd := Iso(NonZero(sub.endedAt).OrElse(NonZero(sub.canceledAt)).OrElse(created));
      }
      orgs := orgs[k := cur.(
        subscriptionId := sub.id, plan := plan, planStatus := status, trialEnds := Iso(sub.trialEnd),
        periodEnd := if periodEnd.Some? then periodEnd else cur.periodEnd,
        customerId := if sub.customer.Some? then sub.customer else cur.customerId)];
      audit := audit + [SubscriptionSync(cur.id, kind, sub.id, cur.plan, plan, cur.planStatus, status.value)];
    }

    method ProcessCheckout(k: nat, p: Payload)
      requires k < |orgs| && p.Checkout?
      modifies `orgs, `audit
      ensures orgs == old(orgs)[k := AfterCheckout(old(orgs[k]), p)]
      ensures audit == old(audit)
        + (if ClearsPending(old(orgs[k]), p) then [PendingCleared(old(orgs[k]).id, p.tier.value)] else [])
        + [CheckoutCompleted(old(orgs[k]).id, p.customer, p.subscription)]
      ensures
        var before, after := old(orgs[k]), orgs[k];
        // ids are never cleared; the standing changes exactly when a pending
        // payment is lifted, and the plan only then
        && (before.customerId.Some? ==> after.customerId.Some?)
        && (before.subscriptionId.Some? ==> after.subscriptionId.Some?)
        && (after.planStatus != before.planStatus <==>
              before.planStatus == Some("pending_payment") && Truthy(p.subscription)
              && p.tier.Some? && p.tier.value in PLANS)
        && (after.plan != before.plan ==> after.planStatus != before.planStatus && after.plan in PLANS)
        && after.periodEnd == before.periodEnd && after.lastCreated == before.lastCreated
    {
      var cur := orgs[k];
      orgs := orgs[k := cur.(
        customerId := if p.customer.Some? then p.customer else cur.customerId,
        subscriptionId := if p.subscription.Some? then p.subscription else cur.subscriptionId)];
      if orgs[k].planStatus == Some("pending_payment") && Truthy(p.subscription)
         && p.tier.Some? && p.tier.value in PLANS {
        orgs := orgs[k := orgs[k].(plan := p.tier.value, planStatus := Some("trialing"))];
        audit := audit + [PendingCleared(cur.id, p.tier.value)];
      }
      audit := audit + [CheckoutCompleted(cur.id, p.customer, p.subscription)];
    }

    method ProcessSubscription(k: nat, kind: SubKind, sub: Sub, config: Config, created: Option<int>)
      requires k < |orgs|
      modifies `orgs, `audit
      ensures orgs == old(orgs)[k := AfterSubscription(old(orgs[k]), kind, sub, config, created)]
      ensures audit == old(audit) + SubscriptionAudit(old(orgs[k]), kind, sub, config, created)
    {
      var held, last := orgs[k].subscriptionId, orgs[k].lastCreated;
      if created.Some? && last.Some? && created.value < last.value {
        return;
      }
      if !kind.Created? && Truthy(held) && sub.id != held {
        return;
      }
      var obj := if kind.Deleted? then sub.(status := "canceled") else sub;
      ApplySubscription(k, kind, obj, config, created);
      if created.Some? {
        orgs := orgs[k := orgs[k].(lastCreated := created)];
      }
    }

    method ProcessInvoice(k: nat, p: Payload, created: Option<int>)
      requires k < |orgs| && p.Invoice?
      modifies `orgs, `audit
      ensures orgs == old(orgs)[k := AfterInvoice(old(orgs[k]), p, created)]
      ensures audit == old(audit) + InvoiceAudit(old(orgs[k]), p)
      ensures
        var before, after := old(orgs[k]), orgs[k];
        // a payment changes a lapsed standing only; a failure keeps a known
        // period end; nothing else is touched
        && (p.paid && after != before ==>
              (before.planStatus == Some("past_due") || before.planStatus == Some("unpaid"))
              && after == before.(planStatus := Some("active")))
        && (p.paid ==> after.planStatus != Some("past_due") && after.planStatus != Some("unpaid"))
        && (!p.paid ==> after.planStatus == Some("past_due"))
        && (before.periodEnd.Some? ==> after.periodEnd == before.periodEnd)
        && after == before.(planStatus := after.planStatus, periodEnd := after.periodEnd)
    {
      var cur := orgs[k];
      if !p.paid {
        orgs := orgs[k := cur.(
          planStatus := Some("past_due"),
          periodEnd := if cur.periodEnd.Some? then cur.periodEnd else Iso(created))];
        audit := audit + [PaymentFailed(cur.id, p.invoiceId, cur.planStatus)];
      } else if cur.planStatus == Some("past_due") || cur.planStatus == Some("unpaid") {
        orgs := orgs[k := cur.(planStatus := Some("active"))];
        audit := audit + [PaymentRecovered(cur.id, p.invoiceId)];
      }
    }

    method Process(e: Event, config: Config) returns (org: Option<int>)
      modifies `orgs, `audit
      ensures Books(orgs, audit) == BooksAfter(old(Books(orgs, audit)), e, config)
      ensures org == Attribution(old(Books(orgs, audit)), e)
    {
      var target := Target(orgs, e.payload);
      if target.None? {
        return None;
      }
      var k := target.value;
      org := Some(orgs[k].id);
      match e.payload
      case Checkout(_, _, _, _) => ProcessCheckout(k, e.payload);
      case Subscription(kind, sub) => ProcessSubscription(k, kind, sub, config, e.created);
      case Invoice(_, _, _, _) => ProcessInvoice(k, e.payload, e.created);
    }

    // d.fault, when present, is where an exception struck: whatever had been
    // written by then is rolled back together with the inbox row.
    method HandleEvent(d: Delivery, config: Config) returns (outcome: Outcome)
      modifies this
      ensures View() == Deliver(old(View()), d, config)
      ensures outcome == DeliveryOutcome(old(View()), d)
    {
      var e := d.event;
      if e.id in inbox && inbox[e.id].processedAt.Some? {
        return Duplicate;
      }
      var committed := (orgs, audit, inbox);
      if e.id !in inbox {
        inbox := inbox[e.id := InboxRow(None, d.now, None)];
      }
      var org: Option<int> := None;
      if !e.payload.Unhandled? {
        if d.fault.Some? {
          orgs, audit := d.fault.value.orgs, d.fault.value.audit;
          orgs, audit, inbox := committed.0, committed.1, committed.2;
          return Raised;
        }
        org := Process(e, config);
      }
      inbox := inbox[e.id := inbox[e.id].(orgId := org, processedAt := Some(d.now))];
      outcome := if org.Some? then Processed else Stored;
    }
  }
}

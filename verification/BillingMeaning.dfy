// What an event means to the rows it meets, said on the event and the rows alone:
// whom it is attributed to, what it leaves in the row, and what the audit trail and
// the inbox tell of it.
module BillingMeaning {
  import opened Prelude
  import opened Billing
  import opened BillingLaws

  // ------------------------------------------------ attribution

  // k is the first row that holds the customer id; failing any, the first that holds
  // the subscription id; failing both, the first with the hinted id; or none is.
  ghost predicate Attributed(orgs: seq<Org>, hint: Option<int>, customer: Option<string>, subscription: Option<string>,
                             k: Option<nat>)
  {
    if customer.Some? && customer.value != "" && exists i :: 0 <= i < |orgs| && orgs[i].customerId == customer then
      && k.Some? && k.value < |orgs| && orgs[k.value].customerId == customer
      && forall j | 0 <= j < k.value :: orgs[j].customerId != customer
    else if subscription.Some? && subscription.value != ""
         && exists i :: 0 <= i < |orgs| && orgs[i].subscriptionId == subscription then
      && k.Some? && k.value < |orgs| && orgs[k.value].subscriptionId == subscription
      && forall j | 0 <= j < k.value :: orgs[j].subscriptionId != subscription
    else if hint.Some? && exists i :: 0 <= i < |orgs| && orgs[i].id == hint.value then
      && k.Some? && k.value < |orgs| && orgs[k.value].id == hint.value
      && forall j | 0 <= j < k.value :: orgs[j].id != hint.value
    else
      k.None?
  }

  lemma FindOrgExactly(orgs: seq<Org>, hint: Option<int>, customer: Option<string>,
                       subscription: Option<string>)
    ensures Attributed(orgs, hint, customer, subscription, FindOrg(orgs, hint, customer, subscription))
  {
  }

  // A checkout names no subscription to look up, an invoice gives no hint.
  lemma TargetExactly(orgs: seq<Org>, p: Payload)
    ensures
      match p
      case Checkout(hint, customer, _, _) => Attributed(orgs, hint, customer, None, Target(orgs, p))
      case Subscription(_, sub) => Attributed(orgs, sub.metaOrg, sub.customer, sub.id, Target(orgs, p))
      case Invoice(_, _, payer, forSubscription) => Attributed(orgs, None, payer, forSubscription, Target(orgs, p))
      case Unhandled => Target(orgs, p).None?
  {
  }

  // The row changes, and no other.
  lemma AppliedWhereAttributed(b: Books, e: Event, config: Config)
    ensures
      var k, orgs' := Target(b.orgs, e.payload), BooksAfter(b, e, config).orgs;
      && |orgs'| == |b.orgs| && (forall j | 0 <= j < |orgs'| && Some(j) != k :: orgs'[j] == b.orgs[j])
      && (k.Some? ==> orgs'[k.value] == OrgAfter(b.orgs[k.value], e, config))
  {
  }

  // ------------------------------------------------ a new organisation

  // Organisation k is new, and nobody else holds the ids it is about to get.
  ghost predicate NewTo(orgs: seq<Org>, k: nat, customer: string, subscription: string) {
    && k < |orgs| && orgs[k].customerId.None? && orgs[k].subscriptionId.None? && orgs[k].lastCreated.None?
    && customer != "" && subscription != ""
    && forall j | 0 <= j < |orgs| && j != k ::
         && orgs[j].id != orgs[k].id
         && orgs[j].customerId != Some(customer) && orgs[j].subscriptionId != Some(subscription)
  }

  predicate SignsUp(orgs: seq<Org>, k: nat, customer: string, subscription: string, checkout: Event,
                    announcement: Event)
    requires k < |orgs|
  {
    && checkout.payload.Checkout? && checkout.payload.hint == Some(orgs[k].id)
    && checkout.payload.customer == Some(customer) && checkout.payload.subscription == Some(subscription)
    && announcement.payload.Subscription? && announcement.payload.kind.Created?
    && announcement.payload.sub.id == Some(subscription) && announcement.payload.sub.customer == Some(customer)
    && announcement.payload.sub.metaOrg == Some(orgs[k].id)
    && MapStatus(announcement.payload.sub.status).Some?
    && checkout.id != announcement.id
  }

  lemma CheckoutLinks(b: Books, k: nat, customer: string, subscription: string, checkout: Event,
                      announcement: Event, config: Config)
    requires k < |b.orgs| && SignsUp(b.orgs, k, customer, subscription, checkout, announcement)
    requires forall j | 0 <= j < |b.orgs| && j != k ::
      b.orgs[j].id != b.orgs[k].id && b.orgs[j].customerId != Some(customer)
    ensures
      var orgs' := BooksAfter(b, checkout, config).orgs;
      && |orgs'| == |b.orgs| && (forall j | 0 <= j < |orgs'| && j != k :: orgs'[j] == b.orgs[j])
      && orgs'[k].id == b.orgs[k].id && orgs'[k].lastCreated == b.orgs[k].lastCreated
      && orgs'[k].customerId == Some(customer) && orgs'[k].subscriptionId == Some(subscription)
  {
    FindOrgExactly(b.orgs, Some(b.orgs[k].id), Some(customer), None);
  }

  lemma AnnouncementLinks(b: Books, k: nat, customer: string, subscription: string, checkout: Event,
                          announcement: Event, config: Config)
    requires k < |b.orgs| && SignsUp(b.orgs, k, customer, subscription, checkout, announcement)
    requires b.orgs[k].lastCreated.None?
    requires forall j | 0 <= j < |b.orgs| && j != k ::
      && b.orgs[j].id != b.orgs[k].id
      && b.orgs[j].customerId != Some(customer) && b.orgs[j].subscriptionId != Some(subscription)
    ensures
      var orgs' := BooksAfter(b, announcement, config).orgs;
      && |orgs'| == |b.orgs| && (forall j | 0 <= j < |orgs'| && j != k :: orgs'[j] == b.orgs[j])
      && orgs'[k].id == b.orgs[k].id
      && orgs'[k].customerId == Some(customer) && orgs'[k].subscriptionId == Some(subscription)
  {
    FindOrgExactly(b.orgs, Some(b.orgs[k].id), Some(customer), Some(subscription));
  }

  // A new organisation's first checkout and the announcement of its subscription,
  // delivered in either order, leave it holding both ids, and nobody else changed.
  lemma FirstSignUp(s: State, k: nat, customer: string, subscription: string, checkout: Delivery,
                    announcement: Delivery, config: Config)
    requires NewTo(s.books.orgs, k, customer, subscription)
    requires SignsUp(s.books.orgs, k, customer, subscription, checkout.event, announcement.event)
    requires !Done(s, checkout.event.id) && !Done(s, announcement.event.id) && !Fails(checkout) && !Fails(announcement)
    ensures forall ds | ds == [checkout, announcement] || ds == [announcement, checkout] ::
      var orgs' := Run(s, ds, config).books.orgs;
      && |orgs'| == |s.books.orgs| && (forall j | 0 <= j < |orgs'| && j != k :: orgs'[j] == s.books.orgs[j])
      && orgs'[k].customerId == Some(customer) && orgs'[k].subscriptionId == Some(subscription)
  {
    var a, b := checkout.event, announcement.event;
    CheckoutLinks(s.books, k, customer, subscription, a, b, config);
    AnnouncementLinks(BooksAfter(s.books, a, config), k, customer, subscription, a, b, config);
    AnnouncementLinks(s.books, k, customer, subscription, a, b, config);
    CheckoutLinks(BooksAfter(s.books, b, config), k, customer, subscription, a, b, config);
    TwoDeliveries(s, checkout, announcement, config);
    TwoDeliveries(s, announcement, checkout, config);
  }

  lemma {:induction false} TwoDeliveries(s: State, d: Delivery, e: Delivery, config: Config)
    requires !Done(s, d.event.id) && !Done(s, e.event.id) && !Fails(d) && !Fails(e) && d.event.id != e.event.id
    ensures Run(s, [d, e], config).books == BooksAfter(BooksAfter(s.books, d.event, config), e.event, config)
  {
    var s1 := Deliver(s, d, config);
    assert [d, e][1..] == [e] && [e][1..] == [];
    assert Run(s1, [e], config) == Run(Deliver(s1, e, config), [], config);
    assert !Done(s1, e.event.id);
  }

  // ------------------------------------------------ what a subscription event leaves

  predicate Taken(o: Org, e: Event)
    requires e.payload.Subscription?
  {
    // not older than what was heard last ...
    && !(e.created.Some? && o.lastCreated.Some? && e.created.value < o.lastCreated.value)
    // ... and about the subscription held, unless it announces one
    && (e.payload.kind.Created? || o.subscriptionId.None? || o.subscriptionId.value == ""
        || e.payload.sub.id == o.subscriptionId)
  }

  predicate Known(status: string) {
    status in {"trialing", "active", "past_due", "unpaid", "canceled", "incomplete", "incomplete_expired", "paused"}
  }

  // The status an event counts as: a deletion is a cancellation.
  function Reported(e: Event): string
    requires e.payload.Subscription?
  {
    if e.payload.kind.Deleted? then "canceled" else e.payload.sub.status
  }

  // The standing after an event that counts, by the status it reports; an event that
  // is ignored, or whose status is unknown, leaves all but the watermark.
  lemma StandingExactly(o: Org, e: Event, config: Config)
    requires e.payload.Subscription?
    ensures var o', status := OrgAfter(o, e, config), Reported(e);
      && (!Taken(o, e) ==> o' == o)
      && (Taken(o, e) ==> o'.lastCreated == if e.created.Some? then e.created else o.lastCreated)
      && (!Known(status) ==> o' == o.(lastCreated := o'.lastCreated))
      && (Taken(o, e) && Known(status) ==>
            && o'.subscriptionId == e.payload.sub.id
            && o'.customerId == (if e.payload.sub.customer.Some? then e.payload.sub.customer else o.customerId)
            && (o'.planStatus == Some("trialing") <==> status == "trialing")
            && (o'.planStatus == Some("active") <==> status == "active")
            && (o'.planStatus == Some("past_due") <==> status in {"past_due", "incomplete"})
            && (o'.planStatus == Some("unpaid") <==> status in {"unpaid", "paused"})
            && (o'.planStatus == Some("canceled") <==> status in {"canceled", "incomplete_expired"}))
  {
  }

  // The first tier configured with a price.
  lemma {:induction false} TierForPriceExactly(config: Config, price: Option<string>)
    ensures TierForPrice(config, price).None? <==>
      price.None? || price.value == "" || forall i | 0 <= i < |config| :: config[i].1 != price.value
    ensures TierForPrice(config, price).Some? ==>
      exists i :: 0 <= i < |config| && config[i] == (TierForPrice(config, price).value, price.value)
                  && forall j | 0 <= j < i :: config[j].1 != price.value
  {
    if config != [] {
      TierForPriceExactly(config[1..], price);
      if TierForPrice(config, price).Some? && config[0].1 != price.value {
        var i :| 0 <= i < |config| - 1 && config[1..][i] == (TierForPrice(config[1..], price).value, price.value)
                 && forall j | 0 <= j < i :: config[1..][j].1 != price.value;
        assert config[i + 1] == config[1..][i];
        forall j | 0 <= j < i + 1
          ensures config[j].1 != price.value
        {
          if j > 0 {
            assert config[j] == config[1..][j - 1];
          }
        }
      }
    }
  }

  // The plan: the tier of the price, else the tier the subscription names, else as
  // it was.
  lemma {:induction false} PlanExactly(o: Org, e: Event, config: Config)
    requires e.payload.Subscription? && Taken(o, e) && Known(Reported(e))
    ensures
      var sub, plan := e.payload.sub, OrgAfter(o, e, config).plan;
      var tier := TierForPrice(config, sub.priceId);
      if tier.Some? && tier.value != "" then plan == tier.value
      else plan == if sub.metaTier.Some? && sub.metaTier.value != "" then sub.metaTier.value else o.plan
  {
  }

  // A time the calendar can express, years 1 to 9999.
  predicate Expressible(t: int) {
    -62135596800 <= t < 253402300800
  }

  // The trial end as given, if it is a time at all.
  lemma TrialEndExactly(o: Org, e: Event, config: Config)
    requires e.payload.Subscription? && Taken(o, e) && Known(Reported(e))
    ensures
      var end, o' := e.payload.sub.trialEnd, OrgAfter(o, e, config);
      if end.Some? && Expressible(end.value) then o'.trialEnds == end else o'.trialEnds.None?
  {
  }

  // What a cancelled subscription falls back on.
  function Fallback(sub: Sub, created: Option<int>): Option<int> {
    if sub.endedAt.Some? && sub.endedAt.value != 0 then sub.endedAt
    else if sub.canceledAt.Some? && sub.canceledAt.value != 0 then sub.canceledAt
    else created
  }

  // The period end an event names: the subscription's, else its item's, else, when it
  // is cancelled, its end, its cancellation or the event.
  lemma PeriodEndNamed(sub: Sub, created: Option<int>)
    ensures
      var given := if sub.currentPeriodEnd.Some? then sub.currentPeriodEnd else sub.itemPeriodEnd;
      var fallback := Fallback(sub, created);
      PeriodEnd(sub, created) ==
        if given.Some? && Expressible(given.value) then given
        else if sub.status in {"canceled", "incomplete_expired"} && fallback.Some? && Expressible(fallback.value)
          then fallback
        else None
  {
    assert MapStatus(sub.status) == Some("canceled") <==> sub.status in {"canceled", "incomplete_expired"};
  }

  // It is stored; where none is named the old one stays.
  lemma PeriodEndStored(o: Org, e: Event, config: Config)
    requires e.payload.Subscription? && Taken(o, e) && Known(Reported(e))
    ensures
      var named := PeriodEnd(e.payload.sub.(status := Reported(e)), e.created);
      OrgAfter(o, e, config).periodEnd == if named.Some? then named else o.periodEnd
  {
  }

  // ------------------------------------------------ what a checkout and an invoice leave

  lemma CheckoutExactly(o: Org, e: Event, config: Config)
    requires e.payload.Checkout?
    ensures
      var p, o' := e.payload, OrgAfter(o, e, config);
      var lifts := o.planStatus == Some("pending_payment") && p.subscription.Some? && p.subscription.value != ""
                   && p.tier.Some? && p.tier.value in {"starter", "professional", "consultant"};
      && (p.customer.Some? ==> o'.customerId == p.customer) && (p.customer.None? ==> o'.customerId == o.customerId)
      && (p.subscription.Some? ==> o'.subscriptionId == p.subscription)
      && (p.subscription.None? ==> o'.subscriptionId == o.subscriptionId)
      && (lifts ==> o'.plan == p.tier.value && o'.planStatus == Some("trialing"))
      && (!lifts ==> o'.plan == o.plan && o'.planStatus == o.planStatus)
      && o' == o.(customerId := o'.customerId, subscriptionId := o'.subscriptionId,
                  plan := o'.plan, planStatus := o'.planStatus)
  {
  }

  lemma InvoiceExactly(o: Org, e: Event, config: Config)
    requires e.payload.Invoice?
    ensures
      var o' := OrgAfter(o, e, config);
      && o' == o.(planStatus := o'.planStatus, periodEnd := o'.periodEnd)
      && (if e.payload.paid then
            && o'.periodEnd == o.periodEnd
            && o'.planStatus ==
                 if o.planStatus in {Some("past_due"), Some("unpaid")} then Some("active") else o.planStatus
          else
            && o'.planStatus == Some("past_due")
            && (o.periodEnd.Some? ==> o'.periodEnd == o.periodEnd)
            && (o.periodEnd.None? ==>
                  o'.periodEnd == if e.created.Some? && Expressible(e.created.value) then e.created else None))
  {
  }

  // ------------------------------------------------ what is told of it

  // Each audit entry names the organisation and what it changed from and to.
  lemma AuditRetells(o: Org, e: Event, config: Config)
    ensures forall a | a in AuditOf(o, e, config) ::
      var o' := OrgAfter(o, e, config);
      match a
      case SubscriptionSync(org, kind, subscription, fromPlan, toPlan, fromStatus, toStatus) =>
        && e.payload.Subscription? && org == o.id && kind == e.payload.kind && subscription == e.payload.sub.id
        && fromPlan == o.plan && toPlan == o'.plan && fromStatus == o.planStatus && Some(toStatus) == o'.planStatus
      case PendingCleared(org, tier) =>
        e.payload.Checkout? && org == o.id && tier == o'.plan && o'.planStatus != o.planStatus
      case CheckoutCompleted(org, customer, subscription) =>
        e.payload.Checkout? && org == o.id && customer == e.payload.customer && subscription == e.payload.subscription
      case PaymentFailed(org, invoice, fromStatus) =>
        && e.payload.Invoice? && !e.payload.paid && org == o.id && invoice == e.payload.invoiceId
        && fromStatus == o.planStatus
      case PaymentRecovered(org, invoice) =>
        e.payload.Invoice? && e.payload.paid && org == o.id && invoice == e.payload.invoiceId && o' != o
  {
  }

  // No plan or standing changes without an entry.
  lemma NoChangeUntold(o: Org, e: Event, config: Config)
    ensures
      var o' := OrgAfter(o, e, config);
      && (o'.plan != o.plan || o'.planStatus != o.planStatus ==> AuditOf(o, e, config) != [])
      && (e.payload.Checkout? || (e.payload.Invoice? && !e.payload.paid) ==> AuditOf(o, e, config) != [])
  {
  }

  // What a delivery leaves in the inbox, and its outcome.
  lemma DeliveryExactly(s: State, d: Delivery, config: Config)
    ensures
      var s', id := Deliver(s, d, config), d.event.id;
      var done := id in s.inbox && s.inbox[id].processedAt.Some?;
      var raises := d.fault.Some? && !d.event.payload.Unhandled?;
      var k := Target(s.books.orgs, d.event.payload);
      && (done <==> DeliveryOutcome(s, d) == Duplicate) && (!done && raises <==> DeliveryOutcome(s, d) == Raised)
      && (!done && !raises && k.Some? <==> DeliveryOutcome(s, d) == Processed)
      && (done || raises ==> s' == s)
      && (!done && !raises ==>
            && s'.books == BooksAfter(s.books, d.event, config) && id in s'.inbox
            && s'.inbox[id].processedAt == Some(d.now)
            && s'.inbox[id].receivedAt == (if id in s.inbox then s.inbox[id].receivedAt else d.now)
            && (k.Some? ==> s'.inbox[id].orgId == Some(s.books.orgs[k.value].id))
            && (k.None? ==> s'.inbox[id].orgId.None?)
            && (forall other | other in s.inbox && other != id ::
                  other in s'.inbox && s'.inbox[other] == s.inbox[other])
            && forall other | other in s'.inbox && other != id :: other in s.inbox)
  {
  }
}

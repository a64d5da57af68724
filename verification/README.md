# Verified model of the compliance back office

A Dafny model of the stateful rules of amlkit, an anti-money-laundering back
office, with proofs of what those rules promise. Each module follows one part of
the Python code. Code that updates rows in place is a class whose methods carry
the state change in their contracts; the same step is given as a function or
relation on values, and whole runs are reasoned about through that. Code made of
expressions is functions and lemmas.

| module | models |
|---|---|
| Prelude, Text, Clock, Sums, StableSort | optional values, text order, whole-second truncation, finite sums, Python's list sort |
| Forest, Ownership, OwnershipLaws, OwnershipMeaning | arbitrary (even cyclic) parent links; the cached, cycle-guarded ownership walk; conservation, order independence and monotonicity of the opacity band; which owners the total adds up, in terms of the rows |
| OwnerIntake, IntakeMeaning | the checks before a beneficial owner is recorded, and the structure they keep |
| Billing, BillingLaws, BillingMeaning, Convergence | the Stripe webhook inbox; exactly-once processing; whom an event is attributed to and what it leaves, field by field; what subscription events that arrive in any order end with, and exactly when the order matters |
| Login, Totp (with MfaLockout) | password lockout, TOTP replay refusal, MFA lockout |
| OneTime, OneTimeHistory, Sessions | single-use credentials under interleaving, and what must have come before an acceptance; the session cap |
| Calendar, Retention, RetentionFix | ISO dates and leap days; every writer of a retention date; the one-off extensions |
| Purge, PurgeLaws, PurgeMeaning | the guarded sweep that deletes expired customers, and what keeps one |
| FreezeReports, FreezeLaws | freeze obligations and the CNMR reports that discharge them |
| AlertQueue, AlertLaws | alert order, paging and counts |
| FormEncoding, Luhn, Money | nested form encoding, the Luhn check, currency amounts |

Stakes and decimal amounts are exact reals, times are integer microseconds
(seconds for Stripe), stored instants are truncated to the second where the code
does so. Tables are maps from row id to row (the two retention extensions and
the organisations of the billing store read their rows in a fixed order, so
those are sequences). A failed transaction restores the state it started from.

Where the code and its own text differ, the model follows the code:

- `extend_closed_retention` says that a second run changes nothing. That holds on
  the same day. A closed row with neither a closure record nor an exit date is
  dated from "today", so a run on a later day can extend it again;
  `RetentionFix.DueAgainIff` says exactly when, `RetentionFix.SecondRunExtends`
  gives a row.
- `recompute_retention` only ever extends, but `reactivate_customer` resets the
  date without recomputing. `Retention.ReactivationShortensIff` says exactly when
  this moves the date back, `Retention.ReactivationShortens` gives a case; without
  transactions or reports dated ahead it never does
  (`Retention.RetentionNeverShortens`).
- The limit "cannot exceed 100%" on direct stakes is checked after rounding to two
  decimals, so totals up to 100.005 pass (`OwnerIntake.TotalCheckExact`,
  `OwnerIntake.AcceptedAboveHundred`). It does not reach stakes below another
  owner, whose sum can exceed 100 (`OwnershipLaws.ClampNeeded`).
- Fifteen minutes of lockout can be up to one second short, because stored
  instants lose their fraction: exactly when they have one (`Login.LockHoldsIff`,
  `MfaLockout.GuessingRateFromWholeSecond`, `MfaLockout.FallsShort`).
- Credentials are claimed by row id, and ids of deleted rows may be used again:
  backup codes are deleted when new ones are issued, UAE PASS states go with
  their customer. A secret is accepted at most once if and only if no new row
  takes an id that a redeemer in flight still holds for a spent secret
  (`OneTime.AcceptedOnceIff`, `OneTime.ReusedIdDoublesSecret`). Links need no
  condition (`OneTime.EachLinkOnce`).
- Subscription events of one subscription converge out of order when the newest
  names all terms and the organisation holds that subscription or none. Otherwise
  the order can matter: exactly when is said by `Convergence.TermsOrderIff` (a
  newest event without a tier, a mapped status or a period end) and by
  `Convergence.ResubscribedTakes` (an organisation that still holds another
  subscription); `Convergence.UnknownTierDiverges` and
  `Convergence.ResubscriptionDiverges` give cases.
- A purge reads once who is eligible and then deletes one customer after another
  without looking again. What was eligible at the read is deleted even if it was
  reactivated, closed anew or given new work in between
  (`PurgeLaws.ActiveAtDeletionIff`, `PurgeLaws.PurgedOnTimeIff`,
  `PurgeLaws.DeletedWithWorkIff`, each with a run in which it happens).
- The one-off fix of legacy CNMR drafts looks at reported freezes only; one that
  was resolved with its CNMR still a draft stays as it is
  (`FreezeReports.FixEstablishesInvIff`, `FreezeReports.ResolvedDraftStays`).
- The database backfill of money columns also splits negative amounts, which
  `Money.from_decimal` refuses (`Money.BackfillAgrees`, `Money.NegativeBackfilled`).

## Model

| member | source | states |
|---|---|---|
| Forest.RootedOrCycle | amlkit/cases/manager.py:742-760 | In a finite table with any parent links, a chain ends at a root if and only if it never reaches a row that lies on a cycle |
| Forest.CycleNotRooted | amlkit/cases/manager.py:751-753 | A row met again on its own chain has no root above it |
| Forest.HeightStep | amlkit/cases/manager.py:742-760 | Depth and rootedness of a row are determined by its parent's, one level apart |
| Ownership.Climb | amlkit/cases/manager.py:742-760 | The upward walk ends on every parent graph with an unbroken chain of uncached rows from the start to a row of known share, a root, or a row on a cycle |
| Ownership.Eff | amlkit/cases/manager.py:738-767 | The cached walk returns the recursive share for every table, cyclic ones included, from any correct cache, and leaves a correct cache |
| Ownership.ShareStep | amlkit/cases/manager.py:761-766 | A root's share is its own stake, any other row's is its stake times its parent's share over 100 |
| Ownership.ShareZeroOnCycle | amlkit/cases/manager.py:751-753 | A row whose chain reaches a cycle owns nothing |
| Ownership.ShareNonNegative | amlkit/cases/manager.py:762 | Every share is non-negative, whatever stakes are recorded |
| Ownership.BestUnique | amlkit/cases/manager.py:769-775 | The largest share per owner and parent is determined by the rows, not by how they are visited |
| Ownership.BestShares | amlkit/cases/manager.py:769-775 | One pass with a shared cache yields, for every group of counted leaves, the largest share in it and no other group |
| Ownership.IdentifiedOwnership | amlkit/cases/manager.py:720-776 | The result is the sum over groups of the largest recursive share, clamped at 100 |
| Ownership.OwnershipState | amlkit/cases/manager.py:679-717 | The band is the one the recursive definition gives, with its thresholds at 50 and 75 and nominee control first |
| Ownership.TableOfRows | amlkit/cases/manager.py:730 | The dict of rows by id holds every row under its id and nothing else |
| OwnershipLaws.RowOrderIrrelevant | amlkit/cases/manager.py:769-776 | Any permutation of the rows gives the same identified ownership and the same band |
| OwnershipLaws.LeavesWithinShare | amlkit/cases/manager.py:720-776 | If roots and every sibling group sum to at most 100, the counted leaves below any row, on a cycle or not, hold no more than that row's effective share |
| OwnershipLaws.LeavesWithinWhole | amlkit/cases/manager.py:720-776 | Under the same condition all counted leaves together hold at most 100 |
| OwnershipLaws.GroupsWithinLeaves | amlkit/cases/manager.py:769-775 | Deduplication never counts more than the leaves hold |
| OwnershipLaws.Conservation | amlkit/cases/manager.py:769-776 | Under the same condition the deduplicated total is at most 100 and the final clamp changes nothing |
| OwnershipLaws.ClampNeeded | amlkit/cases/manager.py:720-776 | Limiting direct stakes alone does not suffice: one corporate owner of 100 with two owners of 60 below totals 120 before the clamp |
| OwnershipLaws.RaisedTotal | amlkit/cases/manager.py:769-776 | Raising stakes with links, flags and keys fixed never lowers the total |
| OwnershipLaws.RaisedNeverMoreOpaque | amlkit/cases/manager.py:712-717 | Raising stakes never moves a customer to a more opaque band |
| OwnershipMeaning.RootShare | amlkit/cases/manager.py:755-762 | An owner without a recorded parent owns its stake if that is positive, else nothing |
| OwnershipMeaning.ChildOwns | amlkit/cases/manager.py:761-766 | An owner below another owns its positive stake in it, times what the other owns, over 100 |
| OwnershipMeaning.CountedExactly | amlkit/cases/manager.py:769-773 | Counted are exactly the beneficial owners that are not nominees and are nobody's parent |
| OwnershipMeaning.GroupExactly | amlkit/cases/manager.py:774 | Two rows are one owner if and only if their keys are equal and not empty and their parents are equal |
| OwnershipMeaning.TotalOfOwners | amlkit/cases/manager.py:769-776 | The total before the clamp is what some of the counted rows hold: no two of them have the same key and parent, and every counted row has the key and parent of one that holds no less, or is one itself |
| OwnershipMeaning.NothingMerged | amlkit/cases/manager.py:769-776 | If no two counted rows agree on both key and parent, the total is all that the counted rows hold |
| OwnershipMeaning.OwnerUnderTwoParents | amlkit/cases/manager.py:774 | One person holding all of two companies that own 60 and 40 counts for 100, fully transparent |
| OwnershipMeaning.BandsExactly | amlkit/cases/manager.py:698-717 | Each band, as a condition on the rows' flags and the total |
| OwnerIntake.TotalCheckExact | amlkit/datamodel.py:186-188 | The rounded check admits exactly the totals up to 100.005 |
| OwnerIntake.AcceptedAboveHundred | amlkit/datamodel.py:186-188 | A direct stake of 40.004 beside one of 60 is accepted, for a total of 100.004 |
| OwnerIntake.CheckDepth | amlkit/cases/manager.py:579-601 | On a structure whose links stay inside it, the walk accepts exactly when the parent's chain has a root and the new row's true level is at most 10, and its counter is that level |
| OwnerIntake.OwnerRegister.CheckStructure | amlkit/cases/manager.py:532-601 | No refusal exactly for admissible requests; otherwise the first failed condition is named, and a circular chain is never found |
| OwnerIntake.OwnerRegister.AddUbo | amlkit/cases/manager.py:604-676 | An admissible request adds exactly one row with its derived flag, any other changes nothing and names the first failed condition; validity is kept |
| OwnerIntake.BeneficialExactly | amlkit/cases/manager.py:630-636 | A beneficial owner is a non-nominee with at least 25 percent or a senior official, and nobody else |
| IntakeMeaning.TopWithinExactly | amlkit/cases/manager.py:579-601 | Depth is the length of the chain of recorded rows, each the parent of the one before, up to one without a parent |
| IntakeMeaning.AdmittedExactly | amlkit/cases/manager.py:532-655 | A request is admitted if and only if it has a name, a stake from 0 to 100 if any, a customer of the organisation that shares no spelling with it, fewer than 200 rows so far, a parent, if any, among them with at most nine rows up to the top, and, without a parent, direct stakes of at most 100.005 in all |
| IntakeMeaning.RefusedExactly | amlkit/cases/manager.py:532-655 | Otherwise the refusal names the first of these, in this order, that fails |
| OwnerIntake.RecordedAsAsked | amlkit/cases/manager.py:637-671 | What the recorded row says, field by field, its flag included; a refused request leaves nothing |
| OwnerIntake.DirectExactly | amlkit/cases/manager.py:640-648 | Which stakes count towards the limit on direct stakes |
| OwnerIntake.ChainedIsForest | amlkit/cases/manager.py:579-601 | A valid structure is acyclic and no chain in it exceeds 10 levels |
| OwnerIntake.AddKeepsValid | amlkit/cases/manager.py:637-671 | One accepted row keeps every customer's structure valid |
| OwnerIntake.RunStaysValid | amlkit/cases/manager.py:604-676 | Every state of every run of additions and onboardings is valid |
| OwnerIntake.RunStructure | amlkit/cases/manager.py:564-601 | In every run: parents stay within customer and organisation, no cycle, at most 10 levels, at most 200 rows, direct stakes at most 100 after rounding (100.005 before) |
| Billing.First | amlkit/billing/service.py:56-58 | A lookup by stored id returns the first matching organisation, and none only if none matches |
| Billing.BillingStore.ApplySubscription | amlkit/billing/service.py:95-116 | One organisation row takes the mapped status, tier, dates and ids with their fallbacks, with one audit row; an unmapped status changes nothing |
| Billing.BillingStore.ProcessCheckout | amlkit/billing/service.py:123-146 | Ids are never cleared; the standing changes exactly when a pending payment meets a subscription and a sold tier, and the plan only then; period end and watermark stay |
| Billing.BillingStore.ProcessSubscription | amlkit/billing/service.py:148-174 | A stale or superseded event changes nothing; any other is applied, a deletion as canceled, and moves the watermark |
| Billing.BillingStore.ProcessInvoice | amlkit/billing/service.py:176-196 | A payment changes a lapsed standing only and leaves none lapsed; a failure marks past due and keeps a known period end; nothing else is touched |
| Billing.BillingStore.Process | amlkit/billing/service.py:119-197 | An attributed event changes exactly the one organisation it is attributed to, an unattributed one nothing |
| Billing.BillingStore.HandleEvent | amlkit/billing/service.py:200-226 | A delivery of a finished event or one that raises leaves organisations, audit and inbox as they were; any other is applied and marked processed |
| BillingMeaning.FindOrgExactly | amlkit/billing/service.py:51-68 | Whom an event is attributed to: the first row that holds its customer id, only if there is none the first that holds its subscription id, only then the row with the hinted id, else nobody |
| BillingMeaning.TargetExactly | amlkit/billing/service.py:123-179 | Which ids each kind of event is attributed by |
| BillingMeaning.AppliedWhereAttributed | amlkit/billing/service.py:119-197 | An event changes the row it is attributed to, by the rule for one row, and no other |
| BillingMeaning.FirstSignUp | amlkit/billing/service.py:119-174 | A new organisation's first checkout and announcement, in either order, leave it with both ids and every other organisation as it was |
| BillingMeaning.StandingExactly | amlkit/billing/service.py:24-174 | What an event of a subscription leaves as status, ids and watermark, and when it leaves everything as it was |
| BillingMeaning.TierForPriceExactly | amlkit/billing/stripe_client.py:54-58 | The tier of the first configured price that is the one asked for, or none |
| BillingMeaning.PlanExactly | amlkit/billing/service.py:100-102 | The plan is the tier sold at the price, else the one named by the subscription, else as before |
| BillingMeaning.TrialEndExactly | amlkit/billing/service.py:106-113 | The trial end is the one given, if it is a representable time |
| BillingMeaning.PeriodEndNamed | amlkit/billing/service.py:71-105 | Which period end an event names, with its fallbacks for cancellations |
| BillingMeaning.PeriodEndStored | amlkit/billing/service.py:106-113 | The period end named is stored, and without one the old stays |
| BillingMeaning.CheckoutExactly | amlkit/billing/service.py:123-146 | What a checkout leaves, field by field, with the exact condition under which it lifts a pending payment |
| BillingMeaning.InvoiceExactly | amlkit/billing/service.py:176-196 | What a failed or a paid invoice leaves, field by field |
| BillingMeaning.AuditRetells | amlkit/billing/service.py:114-196 | Every audit entry retells the change made: whose, from which plan and status to which |
| BillingMeaning.NoChangeUntold | amlkit/billing/service.py:114-196 | No change of plan or status, no checkout and no failed payment goes without an audit entry |
| BillingMeaning.DeliveryExactly | amlkit/billing/service.py:200-226 | When a delivery is a duplicate, raises or is processed, and what it leaves in the inbox |
| BillingLaws.ExactlyOnce | amlkit/billing/service.py:200-226 | For every delivery sequence with duplicates and failing attempts, rows, inbox and audit equal those of processing each kept delivery once |
| BillingLaws.KeptAreFirstGood | amlkit/billing/service.py:200-226 | The kept deliveries are exactly, per event id not done before, the first that did not fail |
| BillingLaws.KeptDistinct | amlkit/billing/service.py:203-206 | No event id is kept twice, nor one that was already done |
| BillingLaws.InboxRuns | amlkit/billing/service.py:200-226 | The organisation rows and the audit trail after any run of the inbox are those of applying, in order, the events that got through |
| BillingLaws.PaymentMadeGood | amlkit/billing/service.py:176-196 | A failed payment and the one that makes up for it leave an organisation in good standing as it was; a payment alone never revives a cancelled one nor ends a trial |
| BillingLaws.KnownStaysKnown | amlkit/billing/service.py:106-113 | In no run of events, of whatever types, does an organisation lose its customer id or its period end |
| BillingLaws.WatermarkMonotone | amlkit/billing/service.py:160-173 | In no run of events, of whatever types, does any organisation's watermark move back |
| Convergence.RowStep | amlkit/billing/service.py:95-116 | One event of a subscription on one row: ignored, it changes nothing; otherwise it moves the watermark, changes nothing else if its status is unmapped, and decides terms and subscription if it falls back on nothing |
| Convergence.Settles | amlkit/billing/service.py:148-174 | Events of one subscription with distinct creation times, in any order with any repetition, on a row in any state: if the row never follows them only the watermark can change; if it does, the newest event taken decides, provided that one has a mapped status, a known tier and a period end, whatever the others lack |
| Convergence.HolderTakesNewest | amlkit/billing/service.py:160-167 | A row that holds this subscription or none takes the newest event unless it is older than the watermark, when it takes none |
| Convergence.ResubscribedTakes | amlkit/billing/service.py:165-167 | A row that holds another subscription takes exactly the events at or after an announcement of mapped status that is older neither than the watermark nor than an unmapped announcement before it |
| Convergence.ConvergesIff | amlkit/billing/service.py:148-174 | The run ends with the terms, subscription and watermark of the newest event, if that falls back on nothing, exactly when the row takes it |
| Convergence.Converges | amlkit/billing/service.py:148-174 | On a row that holds this subscription or none, the run ends with the newest event if that falls back on nothing; with a newest event older than the watermark nothing changes |
| Convergence.ResubscriptionDiverges | amlkit/billing/service.py:165-167 | On a row that still holds an old subscription, two events of a new one end past due in one order and active in the other |
| Convergence.OrderAgreesIff | amlkit/billing/service.py:148-174 | Two deliveries of the same events to a row in any state: each ends following the subscription exactly when it takes some event; where both do they agree on the watermark exactly when the newest event taken is the same, and then on the terms if that falls back on nothing |
| Convergence.OrderIrrelevant | amlkit/billing/service.py:148-174 | On a row that holds this subscription or none the watermark never depends on the order, nor do the terms if the newest event falls back on nothing |
| Convergence.FieldOrderIff | amlkit/billing/service.py:95-113 | On such a row, every order and repetition leaves the same plan (or status, trial end, period end) if and only if the newest event names it, or no event that is not stale names anything else than what the row has |
| Convergence.TermsOrderIff | amlkit/billing/service.py:95-113 | Every order and repetition leaves the same terms if and only if that holds of all four fields |
| Convergence.UnknownTierDiverges | amlkit/billing/service.py:100-102 | Such a case: a newest event without a tier, and two orders that end in different plans |
| Convergence.CheckoutCommutesIff | amlkit/billing/service.py:130-146 | A checkout and the announcement of its subscription leave the same row in either order, unless a fresh announcement of mapped status names no tier and the checkout lifts a pending payment to another plan |
| Convergence.CheckoutDiverges | amlkit/billing/service.py:130-146 | Such a pair, ending with plan starter or none |
| Convergence.AttributionStable | amlkit/billing/service.py:51-68 | While rows change around an organisation, the events of its subscription stay attributed to it |
| Convergence.StreamProjects | amlkit/billing/service.py:119-197 | Among events of every kind for other organisations, the organisation ends as if only the events of its subscription had been applied to it, in their order; and these change no other row |
| Convergence.InboxProjects | amlkit/billing/service.py:119-226 | The same through the inbox, with duplicates and failing attempts |
| Convergence.InboxConverges | amlkit/billing/service.py:119-226 | Two runs of the whole inbox, each with its own duplicates, failures and events of others, in which the same events of a subscription got through: on a row that holds it or none they agree on the watermark, and on the terms if the newest of these falls back on nothing |
| Login.Operator.Login | amlkit/auth.py:549-630 | Each attempt has the specified outcome and effect: a live lock changes nothing, an expired one starts a new window, the eighth wrong password locks, success clears |
| Login.AttemptExactly | amlkit/auth.py:549-630 | Outcome and effect of an attempt, in terms of count, lock, password and clock |
| Login.LockedAfterEight | amlkit/auth.py:571-583 | In every run, a lock is written only by the eighth wrong password, with no success since the first of them |
| Login.GuessingRate | amlkit/auth.py:549-596 | In any sequential run without success, a wrong password that follows m earlier ones comes at least floor((count+m)/8) times (15 minutes less one second) after the first |
| Login.RefusedChangesNothing | amlkit/auth.py:550-557 | Attempts refused during a lock change neither count nor lock |
| Login.LockHoldsIff | amlkit/auth.py:577-580 | A lock holds for the whole fifteen minutes if and only if it is recorded on a whole second |
| Login.TruncationIsReal | amlkit/auth.py:577-580 | A lock can lapse 999999 microseconds early, never a full second |
| Totp.FindStep | amlkit/auth.py:1009-1014 | The earliest step within one of the clock that is newer than the last accepted one and whose code matches, or none exists |
| Totp.CandidateExactly | amlkit/auth.py:1009-1014 | Found is the earliest step within one of the clock that gives the code and is newer than the last accepted one; none only if there is no such step |
| Totp.MfaSecret.Claim | amlkit/auth.py:1015-1021 | The conditional update succeeds exactly for a newer step, and then stores it |
| Totp.MfaSecret.Verify | amlkit/auth.py:986-1022 | Undisturbed, a verification succeeds exactly when a newer matching step lies in the window; the last step then strictly increases |
| Totp.AcceptedOnce | amlkit/auth.py:1003-1022 | Under every interleaving of reads and claims, accepted steps strictly increase, so none is accepted twice, each within one step of its verifier's clock (RFC 6238, section 5.2) |
| Totp.AcceptedWasPresented | amlkit/auth.py:1003-1022 | Under every interleaving, whatever is accepted was presented: its code is that of its step, within one step of the clock it was read at |
| Totp.ReadThenClaim | amlkit/auth.py:1003-1022 | Undisturbed, a code is accepted exactly if a step within one of the clock gives it and is newer than the last accepted one; otherwise nothing changes |
| MfaLockout.MfaRow.CheckCode | amlkit/auth.py:1041-1086 | Each check has the specified outcome and effect: refused while locked, cleared on success, the fifth miss locks and restarts the count |
| MfaLockout.CheckExactly | amlkit/auth.py:1051-1086 | Outcome and effect of a check, in terms of count, lock, code and clock |
| MfaLockout.LockedAfterFiveIff | amlkit/auth.py:1062-1081 | In every run, a check locks if and only if it is the fifth miss since the last acceptance or lock |
| MfaLockout.GuessingRate | amlkit/auth.py:1051-1086 | In any sequential run without success, a miss that follows m earlier ones comes at least floor((failed+m)/5) times 900 seconds after the first, in whole seconds |
| MfaLockout.GuessingRateExactClock | amlkit/auth.py:1051-1086 | In microseconds the same bound is missed by less than one second in all |
| MfaLockout.GuessingRateFromWholeSecond | amlkit/auth.py:1051-1086 | From a first miss on a whole second the bound is exact in microseconds |
| MfaLockout.FallsShort | amlkit/auth.py:1072-1075 | From any other instant it is not: after five misses at once the sixth is heard less than 900 seconds later |
| MfaLockout.NotExactInMicroseconds | amlkit/auth.py:1072-1075 | A sixth miss 899.000001 seconds after the first shows that the 900 seconds are whole seconds |
| OneTime.CredentialStore.CreateLink | amlkit/auth.py:715-729 | Exactly the operator's unused links of that kind are voided and one new row is added |
| OneTime.CredentialStore.GenerateBackupCodes | amlkit/auth.py:1364-1380 | The operator's old codes are deleted and the new ones inserted, nothing else changes |
| OneTime.CredentialStore.Lookup | amlkit/auth.py:750-767 | A lookup finds exactly unused, unexpired credentials whose owner, purpose and binding fit |
| OneTime.CredentialStore.Claim | amlkit/auth.py:767-778 | A claim wins exactly on an unused row, then marks it and its operator; a losing claim changes nothing |
| OneTimeHistory.LinkIssued | amlkit/auth.py:715-729 | Issuing a link, row by row: the owner's unused ones of that kind become used, one row with the given expiry is new |
| OneTimeHistory.StateIssued | amlkit/auth.py:1298-1319 | Issuing a sign-in state adds one row with its binding and expiry, and changes nothing else |
| OneTimeHistory.CodesIssued | amlkit/auth.py:1364-1380 | Issuing backup codes replaces exactly the owner's codes by the given ones |
| OneTimeHistory.RowClaimed | amlkit/auth.py:767-778 | A claim marks one row used and does to its owner what its kind calls for: unlock, mark the mail address verified, or nothing |
| OneTimeHistory.RowWasIssued | amlkit/auth.py:715-1380 | In every run, each row carries what the last action that took its id issued, except for the mark of use |
| OneTimeHistory.UsableExactly | amlkit/auth.py:750-767 | A lookup finds exactly an unused row with that secret: links and states not past their expiry, states under their binding, codes of the caller, unlock links of an active operator |
| OneTimeHistory.AcceptedInOrder | amlkit/auth.py:750-1361 | In every run, whatever is accepted was issued, then looked up by that redeemer with its secret, no later than the expiry it was issued with, a state under the binding it was issued with, a code by the operator it was issued to |
| OneTimeHistory.InOrderAccepted | amlkit/auth.py:750-1361 | Conversely, such a lookup right after its issue, then claimed, is accepted, for an unlock link if the operator is active |
| OneTimeHistory.NothingOutOfOrder | amlkit/auth.py:750-1361 | A run in which no lookup so follows its issue, for instance because all come after expiry, accepts nothing |
| OneTimeHistory.ExpiredLinkRefused | amlkit/auth.py:765-766 | An unlock link that expires at 1000, looked up at 5000 and claimed, is not accepted |
| OneTime.EachRowOnce | amlkit/auth.py:1342-1361 | Under every interleaving of issues, lookups and claims no stored credential is redeemed twice |
| OneTime.IssueVoidsEarlier | amlkit/auth.py:782-804 | Issuing a link leaves every earlier one of the same operator and kind used |
| OneTime.AtMostOneLive | amlkit/auth.py:782-877 | In every run at most one unlock and one email link is unused per operator |
| OneTime.AcceptedOnceIff | amlkit/auth.py:1174-1196 | Under every interleaving of issues, deletions, lookups and claims, no secret can be accepted twice, whoever claims next, if and only if no new row ever took the id that a redeemer in flight holds for an already accepted secret |
| OneTime.StepSafeIff | amlkit/auth.py:1364-1380 | One step keeps that property if and only if its new rows avoid those ids; lookups, claims, deletions and voidings always keep it |
| OneTime.EachSecretOnce | amlkit/auth.py:750-1361 | As long as the condition has held, no secret has been accepted twice |
| OneTime.EachLinkOnce | amlkit/auth.py:750-877 | Unlock and email links need no condition while their operator's rows stay: each is accepted at most once, whatever happens to codes and states |
| OneTime.ReusedIdDoublesSecret | amlkit/auth.py:1364-1380 | The condition can fail: for any ten old codes, ten new ones and ten ids, a run with two lookups in flight accepts one code twice |
| OneTime.ReusedIdExample | amlkit/auth.py:1370-1379 | Such a run with written-out codes and ids |
| Sessions.SessionStore.Oldest | amlkit/auth.py:900-905 | A live session that no live one of the operator was created before, or none is live |
| Sessions.SessionStore.EnforceLimit | amlkit/auth.py:882-912 | A session is revoked exactly when live ones have reached the limit, and it is an oldest one |
| Sessions.SessionStore.CreateSession | amlkit/auth.py:290-310 | At most one eviction, then one new row with its lifetime |
| Sessions.SessionStore.Revoke | amlkit/auth.py:404-409 | Exactly the given session is revoked |
| Sessions.LiveExactly | amlkit/auth.py:891-897 | Live are the operator's sessions that are not revoked and expire strictly later |
| Sessions.NewSessionExactly | amlkit/auth.py:290-310 | A new session lasts fourteen days, counted in whole seconds |
| Sessions.CreatedExactly | amlkit/auth.py:882-912 | A sign-in adds its session and revokes exactly one oldest live one if the limit is reached, otherwise none |
| Sessions.RevokedExactly | amlkit/auth.py:404-409 | Revoking ends one session and leaves every other as it was |
| Sessions.CreateKeepsCap | amlkit/auth.py:290-310 | The new session is live, the cap holds, an evicted session was created no later than every survivor, other operators are untouched |
| Sessions.RunCapped | amlkit/auth.py:882-912 | Every state of every run of sign-ins, revocations and passing time respects the cap |
| Sessions.SessionCap | amlkit/auth.py:882-912 | At every instant no operator has more than max(1, limit) unrevoked sessions with expiry strictly ahead |
| Calendar.IsoOrder | amlkit/cases/manager.py:128 | Dates order as their ISO texts do, and equal texts are equal dates (RFC 3339, section 5.1) |
| Calendar.StampOrder | amlkit/cases/manager.py:175-181 | The greatest timestamp as text carries the latest day |
| Calendar.IsoExample | amlkit/cases/manager.py:133 | The fifth of January 2026 is written 2026-01-05 |
| Calendar.MonthLengths | amlkit/cases/manager.py:131-136 | The lengths of the months, with 28 or 29 days in February, from the year 1 to the year 9999 |
| Calendar.GregorianCount | amlkit/cases/manager.py:131-136 | The years 1 to n have 365n + n/4 - n/100 + n/400 days, so leap years fall as in the Gregorian calendar |
| Calendar.RetentionFrom | amlkit/cases/manager.py:131-136 | A retention date exists exactly when ten years later is still in the calendar |
| Calendar.RetentionMonotone | amlkit/cases/manager.py:131-136 | A later start never gives an earlier retention date, leap days included |
| Calendar.RetentionIsTenYears | amlkit/cases/manager.py:131-136 | Same month and day ten years on, except that 29 February becomes 28 |
| Retention.CustomerFile.constructor | amlkit/cases/manager.py:422 | Onboarding stores the retention date of the day |
| Retention.OnboardCalm | amlkit/cases/manager.py:422 | A freshly onboarded customer satisfies every retention invariant |
| Retention.ClosingExactly | amlkit/cases/manager.py:784-822 | When closing is refused or raises, and what it leaves |
| Retention.ClosedUntil | amlkit/cases/manager.py:784-822 | Closing leaves exactly the latest of the dates that today and everything recorded call for, whatever the row said before |
| Retention.ReactivatingExactly | amlkit/cases/manager.py:825-851 | When reactivating is refused or raises, and what it leaves |
| Retention.RecordingExactly | amlkit/cases/manager.py:1122-1123 | Recording adds its stamp and can move nothing but the retention date; if it raises nothing changes |
| Retention.CustomerFile.RecomputeRetention | amlkit/cases/manager.py:148-194 | The date becomes that of the latest anchor when that is later, else stays |
| Retention.CustomerFile.RecordTransaction | amlkit/cases/manager.py:1122-1123 | A recorded transaction is followed by a recomputation, or leaves nothing if that raises |
| Retention.CustomerFile.SubmitReport | amlkit/api/mobile.py:1816-1831 | A finalised report is followed by a recomputation in the same transaction |
| Retention.CustomerFile.CloseRelationship | amlkit/cases/manager.py:784-822 | Closing dates the file from today and then recomputes; a closed file is refused |
| Retention.CustomerFile.ReactivateCustomer | amlkit/cases/manager.py:825-851 | Reactivating resets the date from today without recomputing; an open file is refused |
| Retention.MaxStampLatest | amlkit/cases/manager.py:175-181 | The day of the greatest stored timestamp is the latest day recorded |
| Retention.AnchorIsLatest | amlkit/cases/manager.py:169-185 | The anchor is the latest of exit date, last transaction and last submitted report, and one of them |
| Retention.RecomputedCovers | amlkit/cases/manager.py:148-194 | A recomputation never moves the date back and ends covering every anchor |
| Retention.RecordingExtends | amlkit/cases/manager.py:1122-1123 | Recording a transaction or report only ever extends, whatever its date |
| Retention.ClosingExtends | amlkit/cases/manager.py:806-822 | Closing never moves the date back, although it first resets it |
| Retention.ReactivationShortensIff | amlkit/cases/manager.py:841-847 | Reactivating moves the date back if and only if a recorded stamp's own retention date lies beyond today's |
| Retention.ReactivationShortens | amlkit/cases/manager.py:841-847 | Such a case: onboarded on 1 January 2026 with a transaction dated 2027, closed and reactivated that day, the date falls back from 2037 to 2036 |
| Retention.RetentionNeverShortens | amlkit/cases/manager.py:784-851 | With a monotone clock and nothing dated ahead, over any run the date never moves earlier and always covers the latest anchor |
| Retention.KeptRun | amlkit/cases/manager.py:784-851 | In every run, whatever the dates, a step moves the date earlier exactly when it reactivates a closed customer with something dated that far ahead |
| RetentionFix.CustomerTable.ExtendRetentionUntil | amlkit/db.py:1306-1371 | Exactly the rows whose recomputed date is later are reported and, unless dry, extended; a date that cannot be computed leaves every row as it was |
| RetentionFix.CustomerTable.ExtendClosedRetention | amlkit/cases/manager.py:197-241 | The same for closed customers, row by row; a date that cannot be computed leaves the rows before it extended |
| RetentionFix.ChangesExactly | amlkit/db.py:1344-1358 | The report names exactly the rows that are due, each with its old and new date |
| RetentionFix.FixedRow | amlkit/db.py:1323-1326 | A row is only ever extended, reaches its base's retention date, keeps every other field, and is not due again |
| RetentionFix.LegacyReaches | amlkit/db.py:1345-1358 | Afterwards a legacy row's date ends no earlier than ten years after onboarding and after the latest reactivation, or after the exit date when closed |
| RetentionFix.ClosureReaches | amlkit/cases/manager.py:223-227 | Afterwards a closed row's date ends no earlier than ten years after its closure |
| RetentionFix.RaisesExactly | amlkit/cases/manager.py:131-136 | Which rows stop a fix: those it is for whose day has no tenth anniversary in the calendar |
| RetentionFix.LeftAlone | amlkit/cases/manager.py:207-219 | Rows without an organisation or a date are left alone, by the closure fix also open customers and those of organisations it is not run for |
| RetentionFix.SecondRunIdle | amlkit/db.py:1323-1324 | A second run reports and changes nothing |
| RetentionFix.DueAgainIff | amlkit/cases/manager.py:223-226 | On a later day a closed row is extended again if and only if it has no closure date at all, its date lies before that day's, and the two days' retention dates differ |
| RetentionFix.SecondRunExtends | amlkit/cases/manager.py:197-206 | Such a row exists, against the promise that a second run changes nothing |
| Purge.WithoutExactly | amlkit/cases/manager.py:984-997 | What a purge removes is exactly what belongs to the purged customers of that organisation, table by table; every remaining row is unchanged |
| Purge.WithoutMore | amlkit/cases/manager.py:945-999 | Purging customers one by one equals purging them together, although alerts and reviews are found through rows that go too |
| Purge.RetentionStore.PurgeCustomer | amlkit/cases/manager.py:980-997 | The fourteen deletions in their order, with the cascade to freezes, remove exactly that customer's rows, after one audit row |
| Purge.RetentionStore.DeleteObjects | amlkit/cases/manager.py:951-970 | Deleting stored files fails exactly when one of the customer's refuses, and touches only that customer's |
| Purge.RetentionStore.SweepOne | amlkit/cases/manager.py:945-999 | One customer is purged if all its files go; otherwise it keeps every row and gets an audit row |
| Purge.RetentionStore.Sweep | amlkit/cases/manager.py:944-999 | The sweep purges exactly the eligible customers whose files all go, in any order |
| Purge.RetentionStore.PurgeExpired | amlkit/cases/manager.py:884-1007 | Undisturbed: dry or disabled runs change nothing; a real run purges exactly the eligible customers whose files go, reports the others with their reasons, and leaves an audit trail of all |
| PurgeMeaning.EligibleExactly | amlkit/cases/manager.py:854-924 | Eligible, on the rows: closed, stored date and ten years from the exit date both past, and no work open |
| PurgeMeaning.ReasonsExactly | amlkit/cases/manager.py:854-881 | Each reason is given if and only if there is such work, an unresolved freeze, an unsubmitted report or an open alert, and at most once |
| PurgeMeaning.SkippedExactly | amlkit/cases/manager.py:907-942 | Skipped are exactly the expired customers with such work, each with these reasons |
| PurgeMeaning.GoneExactly | amlkit/cases/manager.py:980-997 | Which rows of each table go with one customer |
| PurgeMeaning.FilesExactly | amlkit/cases/manager.py:951-959 | The files deleted with a customer are those of its documents |
| PurgeMeaning.DeletableExactly | amlkit/cases/manager.py:951-970 | A customer keeps its rows exactly when one of its stored files cannot be deleted |
| PurgeMeaning.PurgedExactly | amlkit/cases/manager.py:943-1007 | What an undisturbed purge leaves: eligible customers with a stored file that refuses to go stay, the others go with their files, nobody else loses a file, and the audit trail tells of each one purged, failed or skipped, with its reasons, exactly once |
| PurgeMeaning.KeptForFreeze | amlkit/cases/manager.py:864-867 | A customer with one unresolved freeze is skipped for that reason and no other |
| PurgeLaws.EligibleMeans | amlkit/cases/manager.py:854-924 | Eligible means closed, stored date and policy window both past, no unresolved freeze, no unsubmitted report, no open alert |
| PurgeLaws.BlockedByWork | amlkit/cases/manager.py:854-881 | The reasons given are non-empty exactly when some freeze, report, alert or transaction alert of the customer is open |
| PurgeLaws.DeletedWasEligible | amlkit/cases/manager.py:907-999 | With any number of purges and other work interleaved, a customer leaves only by a deletion of a purge that found it eligible when it read |
| PurgeLaws.NeverPurgedEarly | amlkit/cases/manager.py:120-128 | A customer closed on day D and not reactivated leaves only by such a purge; when that read after the closure, it read after the retention date of D |
| PurgeLaws.PurgedOnTimeIff | amlkit/cases/manager.py:907-999 | For a customer closed during the run: the purge read after the retention date of that closure if and only if it read after the closure |
| PurgeLaws.ActiveAtDeletionIff | amlkit/cases/manager.py:943-997 | A customer is no longer closed when it is deleted if and only if it was reactivated after the purge read and not closed again |
| PurgeLaws.WorkStep | amlkit/cases/manager.py:854-881 | Whether a piece of work of a customer is open is decided by the step that opens or settles it; closing, reactivating, reading and deleting other customers leave it as it was |
| PurgeLaws.DeletedWithWorkIff | amlkit/cases/manager.py:943-997 | A customer is deleted with work left open if and only if, after the purge read, some step opened work of that customer that no later step settled |
| PurgeLaws.ActiveCustomerDeleted | amlkit/cases/manager.py:943-997 | Any eligible customer can be reactivated after the read and deleted all the same |
| PurgeLaws.FrozenCustomerDeleted | amlkit/cases/manager.py:943-997 | Any eligible customer can be given a freeze after the read and deleted all the same |
| PurgeLaws.DeletedOnClosure | amlkit/cases/manager.py:943-997 | Any eligible customer can be reactivated and closed again after the read, and is then deleted on the day of that closure |
| PurgeLaws.EligibleExample | amlkit/cases/manager.py:907-924 | A customer closed in 2010 and kept until 2020 is eligible in 2026 |
| FreezeReports.FreezeDesk.CreateFreeze | amlkit/cases/manager.py:2296-2364 | A request of a known type and risk category adds one pending obligation, any other nothing |
| FreezeReports.FreezeDesk.ExecuteFreeze | amlkit/cases/manager.py:2367-2436 | Executed exactly once, never after resolution, only within the organisation |
| FreezeReports.FreezeDesk.FileReport | amlkit/cases/freeze.py:85-154 | Drafts and links one report to an executed freeze; with one linked it is handed back and nothing changes |
| FreezeReports.FreezeDesk.MarkFreezeReported | amlkit/cases/freeze.py:163-193 | Exactly the freezes of the organisation waiting for this report become reported |
| FreezeReports.FreezeDesk.SubmitReport | amlkit/api/mobile.py:1803-1831 | Report and freezes change together, only for an unsubmitted, exportable report of the organisation |
| FreezeReports.FreezeDesk.ResolveFreeze | amlkit/cases/manager.py:2439-2558 | Resolved exactly when reason, reference, notes, linked draft, execution and linked alert allow it |
| FreezeReports.FreezeDesk.SaveReport | amlkit/cases/reports.py:151-195 | Only a draft of the organisation is overwritten; a finalised report never |
| FreezeReports.FreezeDesk.FinaliseLegacyDrafts | amlkit/db.py:1390-1432 | Each disagreeing draft is finalised once, at the reporting time of one of its freezes; nothing else changes |
| FreezeLaws.CreateExactly | amlkit/cases/manager.py:2296-2364 | Which requests create a freeze, and the freeze created |
| FreezeLaws.ExecuteExactly | amlkit/cases/manager.py:2367-2436 | Which freezes can be executed, and what that leaves |
| FreezeLaws.FileExactly | amlkit/cases/freeze.py:85-154 | When a draft is opened and linked, and for whom |
| FreezeLaws.SubmitExactly | amlkit/api/mobile.py:1803-1831 | Which reports are finalised, and exactly which freezes are reported with them, at the same instant |
| FreezeLaws.ResolveExactly | amlkit/cases/manager.py:2439-2558 | Exactly when a freeze is resolved, and for which reason |
| FreezeLaws.SaveExactly | amlkit/cases/reports.py:151-195 | A saved draft is a new report or replaces the payload of a draft of the organisation |
| FreezeLaws.FinalisedExactly | amlkit/db.py:1390-1432 | The fix submits exactly the CNMR drafts that a freeze of their organisation was reported on, at the time one of these was reported |
| FreezeLaws.ResolvedForReason | amlkit/cases/manager.py:2463-2544 | In every run, a freeze is resolved as a false positive only with twenty characters of notes and no true-positive alert of its organisation, by clearance only once executed and with a reference, as delisted only once executed, and never over a draft |
| FreezeLaws.OrganisationsApart | amlkit/cases/manager.py:2296-2544 | No operation touches or makes a freeze or report of another organisation |
| FreezeLaws.ReportedWhenFinalised | amlkit/cases/freeze.py:163-193 | In every run a freeze is reported at the instant its report is finalised |
| FreezeLaws.ConfirmedMatchStays | amlkit/cases/manager.py:2518-2524 | A pending freeze whose alert is a true positive is not resolved as a false positive |
| FreezeReports.FixAgrees | amlkit/db.py:1403-1432 | Afterwards reported implies submitted for every such pair, and running the fix again changes nothing |
| FreezeReports.FixEstablishesInvIff | amlkit/db.py:1390-1415 | The fix turns legacy data into data that satisfies the invariant if and only if no freeze was resolved while its CNMR stayed a draft |
| FreezeReports.ResolvedDraftStays | amlkit/db.py:1403-1415 | A freeze resolved with its CNMR still a draft: the fix changes nothing and the invariant fails |
| FreezeReports.StepKeepsInv | amlkit/cases/manager.py:2389-2544 | Every operation keeps both state machines in agreement, and no two freezes share a report |
| FreezeReports.StepForward | amlkit/cases/manager.py:2389-2544 | Every operation only moves statuses forward, never rewrites a stage's record, and leaves submitted reports alone |
| FreezeReports.RunConsistent | amlkit/cases/freeze.py:85-193 | Over every run the two never contradict each other, and between any two moments everything has only moved forward |
| StableSort.SortIsStable | amlkit/queries.py:548-551 | Sorting a list that is in one order by another gives the order by the second, ties by the first |
| StableSort.SortedUnique | amlkit/queries.py:546-553 | An order that tells all members apart has exactly one sorted arrangement |
| AlertQueue.ReadQueue | amlkit/queries.py:536-589 | The result is the page of the ordered, filtered light read, less what the second read no longer finds, in the page's order |
| AlertQueue.ApiAlerts | amlkit/api/mobile.py:1328-1340 | The page and the flag for clamped limit and offset |
| AlertQueue.AlertCounts | amlkit/queries.py:50-67 | One bucket per category that occurs, each with the exact numbers of open and staged alerts |
| AlertLaws.ThreeSortsAreOne | amlkit/queries.py:548-551 | The three successive stable sorts equal the one lexicographic order rank, created descending, id descending |
| AlertLaws.PriorityFirst | amlkit/queries.py:546-553 | No lower-priority category precedes a higher one, under any sort key |
| AlertLaws.RankExactly | amlkit/queries.py:34 | The order of the categories by name, with every other one last |
| AlertLaws.QueueOrder | amlkit/queries.py:546-553 | Which of two rows of the queue comes first, in terms of category, score or creation time, and id |
| AlertLaws.MatchesExactly | amlkit/queries.py:520-544 | Which rows the queue is asked for |
| AlertLaws.QueueExactly | amlkit/queries.py:537-553 | The queue holds each matching alert exactly once and nothing else, whatever order the rows were read in |
| AlertLaws.PagesConcatenate | amlkit/queries.py:554 | Consecutive pages concatenate to the queue, so none is skipped or repeated |
| AlertLaws.RestoredExactly | amlkit/queries.py:562-572 | Of a page exactly the alerts still there are returned, as they are at the second read |
| AlertLaws.RestoredInOrder | amlkit/queries.py:566-572 | They keep the page's order |
| AlertLaws.TruncatedExactly | amlkit/api/mobile.py:1328-1340 | Over an unchanged set the flag is true exactly when a page starting before the end leaves alerts unseen |
| AlertLaws.CountsMatchQueue | amlkit/queries.py:50-67 | Uncapped counts are the sizes of the unlimited queue per category |
| FormEncoding.Flatten | amlkit/billing/stripe_client.py:80-95 | The appending loop and its recursion produce the pairs of the recursive definition |
| FormEncoding.ParseRender | amlkit/billing/stripe_client.py:84 | Reading a bracketed name back gives its path of keys, so distinct paths have distinct names |
| FormEncoding.NamesArePaths | amlkit/billing/stripe_client.py:80-95 | The output is the leaves of the tree, in order, each under the name of its path |
| FormEncoding.SentExactly | amlkit/billing/stripe_client.py:80-95 | A pair is sent if and only if its name is the path, through dicts by key and through lists by index, to a leaf with that text |
| FormEncoding.SentExample | amlkit/billing/stripe_client.py:81 | A list with a flag, a null and a text inside two dicts is sent as a[b][0]=true and a[b][2]=x |
| FormEncoding.NamesDistinct | amlkit/billing/stripe_client.py:80-95 | For non-empty, bracket-free keys the flattened names are pairwise distinct |
| FormEncoding.DictDropsNothing | amlkit/billing/stripe_client.py:108 | Turning the pairs into a dict drops none of them |
| FormEncoding.DecodeFlatten | amlkit/billing/stripe_client.py:80-95 | The tree without nulls and empty containers can be rebuilt from the pairs |
| FormEncoding.IndexedWellFormed | amlkit/billing/stripe_client.py:90 | List indices are good, distinct keys, so lists need no condition of their own |
| FormEncoding.BadKeysCollide | amlkit/billing/stripe_client.py:84 | With an empty or a bracketed key two different entries get the same name |
| Luhn.LuhnCheck | amlkit/pii.py:31-43 | Over any script: false below five characters or with a non-digit, an error where isdigit accepts a digit that int does not, otherwise whether the Luhn total is divisible by ten |
| Luhn.ValidExactly | amlkit/pii.py:31-43 | Valid are the strings of at least five decimal digits whose sum, read from the right two digits at a time, ends in zero |
| Luhn.SingleErrorCaught | amlkit/pii.py:31-43 | Changing exactly one digit of a valid string to another makes it invalid |
| Luhn.AsciiErrorCaught | amlkit/pii.py:31-43 | In plain digits, changing exactly one character does |
| Luhn.TranspositionCaught | amlkit/pii.py:31-43 | Swapping two neighbours of a valid string stays valid if and only if their digits are equal or are 0 and 9 |
| Luhn.CheckDigitUnique | amlkit/pii.py:31-43 | Every prefix of at least four digits has exactly one valid check digit |
| Money.Make | amlkit/money.py:17-26 | Construction succeeds exactly for non-negative units and nanos below a billion |
| Money.TotalNanosFaithful | amlkit/money.py:47-82 | On one currency the total-nanos view is injective, ordered as the decimals, and turns addition into integer addition |
| Money.FromDecimalFloors | amlkit/money.py:29-34 | Conversion of a non-negative amount drops less than one nano |
| Money.NineDecimalsExact | amlkit/money.py:29-34 | With at most nine decimals conversion is exact |
| Money.RoundTrip | amlkit/money.py:29-41 | Converting to a decimal and back gives the same money |
| Money.SumUndershoots | amlkit/money.py:29-82 | Converting n amounts and summing undershoots the exact sum by less than n nanos |
| Money.SumExact | amlkit/money.py:29-82 | With at most nine decimals the sum is exact |
| Money.BackfillMoneyColumns | amlkit/db.py:1479-1500 | Exactly the rows without a split get one |
| Money.BackfillAgrees | amlkit/db.py:1486-1500 | The backfill equals the constructor's split if and only if the amount is non-negative, and running it again changes nothing |
| Money.NegativeBackfilled | amlkit/db.py:1489-1492 | At -1 the backfill writes -1 units where the constructor refuses |

## Left out

- Rounding of floating-point stakes and amounts, and the precision of Decimal contexts: stakes and amounts are exact reals; a stake that is NULL, NaN or infinite is "no stake".
- Case folding, white-space squeezing and canonical name keys: the spellings of a customer and of an owner are given as sets of forms.
- The deletion of an owner row that is its own parent, because a fresh primary key never equals a recorded parent, and the audit row of recording an owner.
- Audit rows, except in billing and purging.
- Foreign-key actions other than the cascade from a customer to its freezes (SET NULL on alert, owner and report references; cascades to tables the purge does not list); every row of a customer is taken to carry the customer's organisation.
- Concurrent inserts of the same Stripe event (the IntegrityError path); a creation time that is not an integer counts as missing.
- Invoice and checkout events of the same organisation in the convergence results: they carry no ordering guard, so they are covered by the exactly-once results, and a checkout beside the announcement by Convergence.CheckoutCommutesIff.
- Lost updates between concurrent sign-ins, code checks and freeze executions: these read a counter or status and write an absolute value, so each is one atomic step. Other read-then-write operations outside the credentials and the purge (recording an owner, report and freeze work) are atomic steps as well.
- OwnerIntake.OwnerRegister.AddUbo: the checks and the insert are one step; two concurrent calls that both pass the checks before either inserts are not modelled.
- Purge.RetentionStore.PurgeExpired: one undisturbed call; what may come between its read and its deletions is in PurgeLaws.
- Password hashing, HMAC, one-time-password generation and token randomness: uninterpreted, with new secrets taken to differ from earlier ones.
- The unknown-email path of sign-in, sign-in through UAE PASS, and the mails sent on a lock.
- MfaLockout.GuessingRate: stated in whole seconds, since that is what the code compares; the loss in microseconds is bounded by MfaLockout.GuessingRateExactClock.
- TOTP re-enrolment: one enrolled secret at a time.
- OneTime.CredentialStore.Lookup: starts from the row with the presented secret; empty tokens and the secondary checks of the HTTP layer are not modelled.
- OneTime.EachLinkOnce: rows of links are taken to stay; deleting an operator, which the code never does, would delete them.
- Stored dates that are not ISO texts: transactions and reports carry a valid date followed by any text.
- Retention.CustomerFile.RecordTransaction: amounts, monitoring rules and the alerts they raise are not modelled.
- Retention.CustomerFile.constructor: a day whose retention date leaves the calendar, where onboarding raises, is excluded.
- Deleting reports by a purge while freeze runs go on; the retention recomputation inside a report submission is in Retention, not in FreezeReports.
- FreezeReports.FreezeDesk.FileReport: the payload's fields and their serialisation are one text, absent where the export raises; exportability is a flag.
- The alert category of an entity, JSON columns and the enrichment of queue rows: a row carries its category. The queue's filters on one alert or one customer only narrow the light read.
- Which characters outside ASCII are digits: a parameter of the Luhn check.
- The regular expressions of the redaction, which are not about state.
- FormEncoding.NamesDistinct: keys are taken as texts; keys of other types are what str makes of them.
- HTTP, templates, mail, storage and Stripe calls, screening, matching, risk scoring and goAML export: outcomes they return are inputs here, the rest is not part of this model.

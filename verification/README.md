# SeatFlow: a verified model of inventory, money and delivery

SeatFlow sells numbered seats for sessions of events. This project models the parts of it where a
mistake loses a seat or money, and proves in Dafny 4.11 what they keep:

- **Holds.** `Schedule` models events and sessions, `HoldModel` the inventory, hold and outbox tables and
  what each database transaction commits. `HoldInvariant` proves one invariant over them, `HoldRuns` carries
  it over every run and shows what no run undoes, `HoldEffects` says what each transaction
  changes and when it throws, `HoldIdempotency` covers replays, races and batched expiry. `ScheduleExact` and
  `HoldLifecycle` give reference definitions read off the rows alone - when each calendar transaction commits, the
  next status of every hold and session, the answer to every acquisition and payment - and prove that the
  transactions follow them.
  `HoldService` is the same program statement by statement, as a class over mutable tables that rolls back
  when a transaction throws; each method is proved against the transaction it implements.
- **Row locks.** `RowLocks` takes the transactions apart: locks are acquired one row at a time, interleaved
  at will. It proves that every commit still equals the indivisible transaction, which supports the
  atomic steps of the hold modules. `RowWaits` says who waits for whom, over rows and holds, and exactly
  when the running transactions can come to a standstill.
- **Refunds.** `RefundLifecycle` is the decision on one event, `RefundPricing` the amounts, `Refunds` all
  refunds of one payment with the database's triggers and CHECKs, `RefundOutcomes` how one refund ends under
  arbitrary events as they commit, `RefundSeats` what the refunds cover seat by seat.
- **Disputes.** `Disputes` models one dispute, its ledger entries and the tickets it revokes; `DisputeOrder` says
  when the order of its events matters.
- **Event delivery.** `OutboxDispatch` interleaves dispatchers row by row beside a stream no rollback
  reaches; `DispatchService` is the dispatcher with its retry loop; `EventCursor` is the client's cursor.
- **Algorithms.** `CalendarTime` and `ZonedTime` (venue-local times), `IpAddress` and `IpAddressExact`
  (address recognisers against RFC 3986), `Pricing` and `Materialisation` (priced sections and their
  inventory rows), `RowLabels`, `Slugs`.

`dafny verify dfyconfig.toml` checks everything.

## Reading the model

A row id is a position in its table, so an insertion always gets a fresh id. A transaction is a function
from tables to new tables, or to a throw that leaves the old ones. The clock is a parameter, and so is the
ceiling on a hold's seats, taken after it is clamped to its allowed range. Amounts are
unbounded integers except where the program tests a range. The outbox is a map from deduplication key to
session, since the key is unique.

Pausing, resuming, archiving and restoring write without a guard after an earlier read; the model lets them
write from any state, and only the CHECK constraints stand in the way.

## What the proofs found

Each of these is stated as a lemma; the model follows the code.

- A duplicate acquisition that races the first call and loses is replayed only if its seats could be taken
  again. While the first hold is live it gets a conflict, because the seat test runs before the unique index
  (`HoldIdempotency.RaceReplaysExactly`).
- Cancelling locks a session's rows first and its holds second. Acquiring with lazy expiry, releasing, booking and
  even creating a checkout lock a hold first and its rows second, so each of them and a cancellation can wait for
  each other (`RowWaits.CanStandStill`). Expiring and releasing also free rows in no particular order, which
  clashes with the seat order of an acquisition (`RowWaits.FreeingCanStandStill`). Without these two patterns no
  standstill over hold and inventory rows exists (`RowWaits.StandstillExactly`). The database aborts one transaction of a circle. An
  acquisition, release, sweep, checkout or payment is then run again, five times at most in all; a cancellation
  is run again only when the failure arrives as a write conflict (P2034), three times at most in all, and
  otherwise fails.
- A refund's outcome can depend on the order in which its events arrive. Events are compared with the time the
  first outcome was processed, not with the time it occurred, so of two opposite outcomes the later delivery
  may be dropped as stale and the refund never goes under review
  (`RefundOutcomes.LateOutcomesDependOnOrder`; exactly when, `RefundOutcomes.OrderFreeExactly`).
- A contradictory event for a refund that had already failed makes it count again. The amount is caught only
  when it exceeds what is left; otherwise a seat can end up covered twice and an open seat unrefundable
  (`RefundSeats.CoverBreaksExactly`, `RefundSeats.ContradictionCanOverlap`).
- The cap on a full refund never takes effect. An order refunded seat by seat is never capped unless it is under
  review, and then no request is accepted (`RefundSeats.RemainingStaysExact`); a capped amount would
  fail the seat-total trigger in any case (`RefundSeats.WholeCommitsExactly`).
- A progress report never moves a submitted refund at any later time: it would write the submission time again,
  which a trigger refuses (`RefundOutcomes.ProgressExactly`).
- A provider's CANCELLED event for a live refund, and a CLOSED event for a live dispute, never commit: the
  row CHECKs want a cancellation time and an outcome that the code does not set
  (`Refunds.CancellationNeverCommits`, `Disputes.ClosedNeverCommits`).
- A CLOSED event can decide a dispute by its place in the order: processed before an outcome it aborts, processed
  after it it puts the dispute under review (`DisputeOrder.ClosedDependsOnOrder`; exactly when,
  `DisputeOrder.OrderFreeExactly`). Delivered again until it commits, it always ends in review
  (`DisputeOrder.RedeliveryDecides`).
- The review code for a cancelled session is never given, nor does the snapshot test before booking ever fail: a
  cancelled session has no active hold, and an active hold always has its seats (`HoldLifecycle.FulfilmentExactly`).
- The stale writes of archiving and restoring commit exactly when the status read earlier is still the event's own:
  the CHECK constraint does the work of the missing guard (`ScheduleExact.ArchiveExactly`, `ScheduleExact.RestoreExactly`).
- A lost dispute leaves the ledger off by twice the disputed amount (`Disputes.LossDoublesInLedger`).
- A cursor window of zero keeps every id instead of none (`EventCursor.RepeatNeedsBurst`).

## Model

| member | source | states |
|---|---|---|
| `Schedule.NoConflict` | src/server/events/event-session-service.ts:125-144 | The conflict query answers no exactly when the half-open range is disjoint from every other live session of the space; touching ranges are allowed |
| `Schedule.KeepsDisjoint` | src/server/events/event-session-service.ts:152-264 | Every transaction over events and sessions leaves the live sessions of a space pairwise disjoint, without help from the exclusion constraint |
| `Schedule.CreateKeepsDisjoint` | src/server/events/event-session-service.ts:152-202 | Creating a session keeps live ranges disjoint |
| `Schedule.UpdateKeepsDisjoint` | src/server/events/event-session-service.ts:204-264 | Moving a draft keeps live ranges disjoint, its own old range aside |
| `Schedule.PublishKeepsDisjoint` | src/server/events/event-session-service.ts:300-378 | Publishing keeps live ranges disjoint |
| `Schedule.SalesStatusKeepsDisjoint` | src/server/events/event-session-service.ts:380-422 | The unguarded pause and resume writes never bring back a range that was cancelled |
| `Schedule.KeepsRows` | prisma/migrations/20260718030000_phase_3_events_sessions_access_pricing/migration.sql:238-272 | Every transaction leaves rows that meet the lifecycle and range CHECKs |
| `Schedule.MakesProgress` | src/server/events/event-service.ts:177-292 | No transaction, stale archive and restore writes included, revives a cancelled session or forgets that an event was cancelled |
| `Schedule.OnlyCancellationCancels` | src/server/events/event-session-service.ts:380-466 | Only the two cancelling transactions cancel a session |
| `Schedule.ApplyKeepsValid` | src/server/events/event-session-service.ts:152-466 | The whole calendar invariant is kept by every transaction |
| `Schedule.SellableExactly` | src/features/holds/eligibility.ts:55-70 | A session sells exactly when its event is published, it is on sale, inside its sales window and has inventory; its own start adds nothing |
| `Schedule.PublicationOpensSales` | src/server/events/event-session-service.ts:300-378 | Which status publication gives, and when the session is sellable at once |
| `ScheduleExact.CreateEventExactly` | src/server/events/event-service.ts:43-78 | A new event is a draft, and nothing else changes |
| `ScheduleExact.CreateExactly` | src/server/events/event-session-service.ts:152-202 | A session is created exactly for an open event and an ordered range beside every other live session of its space, and then as a draft |
| `ScheduleExact.UpdateExactly` | src/server/events/event-session-service.ts:204-264 | A session is moved exactly when it is a draft of an open event and the new range is ordered and fits; its row is then exactly the new one |
| `ScheduleExact.PublishExactly` | src/server/events/event-session-service.ts:300-378 | Publication commits exactly for a priced draft of an open event whose sales have not ended and whose range is its own, which sells at once from its sales start on, and for a session already published, which it leaves alone |
| `ScheduleExact.SalesStatusExactly` | src/server/events/event-session-service.ts:380-422 | Pausing and resuming, on whatever row they find, commit exactly when it was published and not cancelled; it is then paused or on sale |
| `ScheduleExact.BlockedExactly` | src/features/holds/eligibility.ts:55-70 | Which of the eight reasons is given, each exactly when |
| `ScheduleExact.PublishEventExactly` | src/server/events/event-service.ts:123-175 | An event is published exactly when it is a draft with a session ready to sell; a published one is left alone |
| `ScheduleExact.ArchiveExactly` | src/server/events/event-service.ts:246-265 | A stale archive commits exactly when the status it read is still what the event's timestamps say, and remembers it |
| `ScheduleExact.RestoreExactly` | src/server/events/event-service.ts:267-292 | A stale restore commits exactly when the status it read is still what the timestamps say and the event was not cancelled |
| `ScheduleExact.RestoreUndoesArchive` | src/server/events/event-service.ts:246-292 | Archiving and restoring a draft or published event gives back the calendar |
| `HoldInvariant.PointsExactly` | src/server/holds/expiry-service.ts:14-30 | The update by hold id frees exactly the seats that those holds list |
| `HoldInvariant.ExpireKeepsInv` | src/server/holds/expiry-service.ts:38-62 | Expiring active holds never meets an event already announced, and keeps the invariant |
| `HoldInvariant.ReleaseKeepsInv` | src/server/holds/hold-service.ts:347-401 | Releasing never throws and keeps the invariant |
| `HoldInvariant.CancelSessionKeepsInv` | src/server/events/event-session-service.ts:440-466 | Cancelling a session keeps the invariant: no active hold stays on it |
| `HoldInvariant.CancelEventKeepsInv` | src/server/events/event-service.ts:190-243 | Cancelling an event, with all its sessions, keeps the invariant |
| `HoldInvariant.LockedAll` | src/server/holds/hold-service.ts:208-255 | The count of locked rows equals the request exactly when every requested seat exists |
| `HoldInvariant.ClaimKeepsInv` | src/server/holds/hold-service.ts:205-303 | A committed claim keeps the invariant |
| `HoldInvariant.AcquireKeepsInv` | src/server/holds/hold-service.ts:197-305 | Lazy expiry and claim together keep the invariant |
| `HoldInvariant.FulfilFindsItsSeats` | src/features/checkout/lifecycle.ts:46-82 | A FULFIL decision always finds every seat of the hold still held by it, at the hold's own expiry |
| `HoldInvariant.BookKeepsInv` | src/server/payments/webhook-service.ts:485-637 | Booking a paid hold keeps the invariant, and neither the snapshot test nor the inventory count ever stops it |
| `HoldInvariant.PublishKeepsInv` | src/server/holds/inventory-service.ts:44-107 | Materialising inventory at publication keeps the invariant and every existing row |
| `HoldInvariant.CalendarKeepsInv` | src/server/events/event-session-service.ts:152-422 | The other calendar transactions keep it too |
| `HoldRuns.AcquireExact` | src/server/holds/hold-service.ts:197-305 | Acquisition commits if and only if the session sells, every seat exists and is free or held by an overdue hold, the key is new and the user holds nothing live there |
| `HoldRuns.AcquireDoes` | src/server/holds/hold-service.ts:257-303 | What a committed acquisition writes: all requested seats, the overdue holds expired, everything else untouched |
| `HoldRuns.StepKeepsInv` | src/server/holds/hold-service.ts:174-401 | Every transaction keeps the invariant, committed or rolled back |
| `HoldRuns.RunKeepsInv` | src/server/holds/hold-service.ts:174-401 | Every state any run reaches satisfies the invariant |
| `HoldRuns.EmptyInv` | prisma/migrations/20260718040000_phase_4a_session_inventory_and_holds/migration.sql:88-160 | The empty tables satisfy it |
| `HoldRuns.SpaceNeverDoubleBooked` | src/server/events/event-session-service.ts:125-144 | After any run of any transactions no instant of a space belongs to two sessions that are not cancelled |
| `HoldRuns.StepIsLater` | src/server/holds/expiry-service.ts:14-87 | Terminal holds, BOOKED seats, cancelled sessions and announcements survive each transaction unchanged |
| `HoldRuns.RunIsLater` | src/server/holds/expiry-service.ts:14-170 | They survive every run |
| `HoldRuns.SeatStatesOverRun` | src/server/holds/hold-service.ts:205-283 | In every reachable state a seat is HELD exactly when it points at an active hold of its session that lists it with the same expiry, BOOKED exactly when sold, and an active hold owns all its seats |
| `HoldRuns.NoDoubleAllocation` | src/server/holds/hold-service.ts:239-283 | No run leaves two live or sold holds over one seat |
| `HoldRuns.CancelledForGood` | src/server/events/event-session-service.ts:424-466 | A cancelled session never sells again and never carries an active hold, whatever runs after |
| `HoldRuns.BookedWhen` | src/features/checkout/lifecycle.ts:46-82 | A paid order books its hold exactly when the order is open, the hold active and unexpired, and its session open |
| `HoldRuns.PaidHoldIsBooked` | src/server/payments/webhook-service.ts:485-637 | The same after any run; and then every seat of the hold is BOOKED |
| `HoldEffects.ExpireDoes` | src/server/holds/expiry-service.ts:38-62 | Expiry never throws, ends exactly the given holds, frees exactly the seats they list, announces each once and touches nothing else |
| `HoldEffects.ReleaseDoes` | src/server/holds/hold-service.ts:371-401 | A release never throws; it ends exactly an active hold and otherwise changes nothing |
| `HoldEffects.CancelSessionDoes` | src/server/events/event-session-service.ts:440-466 | A cancellation commits exactly when the session is not cancelled yet; it cancels only that session, releases exactly the active holds on it and announces it once |
| `HoldEffects.CancelEventDoes` | src/server/events/event-service.ts:190-243 | Throws exactly for a missing or archived event; otherwise cancels exactly its sessions that are draft, scheduled, on sale or paused, so that none stays open, releases exactly the active holds on those, announces each once and leaves everything else |
| `HoldEffects.BookDoes` | src/server/payments/webhook-service.ts:574-637 | Booking converts exactly its hold and books exactly the seats it lists |
| `HoldEffects.PublishDoes` | src/server/holds/inventory-service.ts:44-107 | A committed publication leaves exactly one row per sellable seat, new ones free, existing ones as they were; announced exactly when a row is new |
| `HoldEffects.FreedIsChanged` | src/server/holds/expiry-service.ts:14-30 | The count reported is the number of rows that change |
| `HoldLifecycle.HoldsFollow` | src/server/holds/expiry-service.ts:14-87 | Against a reference definition on the rows alone: after any transaction every hold keeps its fields and has exactly the status the definition gives it, be it released, expired, converted or as before |
| `HoldLifecycle.OnlyAcquisitionsCreate` | src/server/holds/hold-service.ts:257-283 | A hold is added exactly by an acquisition that is valid and allowed: one, with the seats, owner, key and expiry requested |
| `HoldLifecycle.SessionsFollow` | src/server/events/event-session-service.ts:152-466 | After any transaction every session has exactly the status the reference definition gives it |
| `HoldLifecycle.PublishCommits` | src/server/holds/inventory-service.ts:44-107 | A publication fails on its inventory exactly when the session has rows of seats the map no longer sells, or a new row's announcement is not fresh |
| `HoldLifecycle.InvalidExactly` | src/features/holds/schema.ts:35-53 | A call is refused as invalid exactly when its seats are none, more than allowed or repeated |
| `HoldLifecycle.NoHoldIsLarger` | src/features/holds/schema.ts:35-53 | No run leaves a hold of more seats than allowed |
| `HoldLifecycle.RefusedFor` | src/server/holds/hold-service.ts:219-303 | Which refusal an acquisition gets, each exactly when, on the tables before the call |
| `HoldLifecycle.FulfilmentExactly` | src/features/checkout/lifecycle.ts:46-82 | The answer to a verified payment: done already, booked or for review, each exactly when, and the review code |
| `HoldLifecycle.OverduePayment` | src/server/payments/webhook-service.ts:485-510 | A payment that finds its active hold overdue is reviewed, and commits the expiry of the session's overdue holds |
| `HoldLifecycle.RunKeepsAddressed` | src/server/inventory-events/outbox-service.ts:15-55 | Over every run each announcement names the session of its hold, or the session it is about |
| `HoldIdempotency.SelectionsMatchIffSameSet` | src/features/holds/idempotency.ts:6-10 | For requests without duplicates the length-and-membership test is set equality |
| `HoldIdempotency.FindsTheHold` | src/server/holds/hold-service.ts:130-155 | The unique index makes the lookup find the one hold that carries the key |
| `HoldIdempotency.AcquiredHoldIsStored` | src/server/holds/hold-service.ts:257-303 | A successful call leaves its hold in the table, active, with the requested seats |
| `HoldIdempotency.ReplayedForever` | src/server/holds/hold-service.ts:130-195 | After a success and any run, the same key with the same seats in any order returns the same hold and changes nothing, even once the hold is terminal; other seats are always refused |
| `HoldIdempotency.ClaimStops` | src/server/holds/hold-service.ts:239-257 | With the key already used, the claim stops at the unique index exactly when its seats are all free |
| `HoldIdempotency.RaceReplaysExactly` | src/server/holds/hold-service.ts:306-318 | A duplicate that raced the first call is replayed exactly when its seats could be taken again |
| `HoldIdempotency.RaceAgainstLiveHold` | src/server/holds/hold-service.ts:239-318 | While the first hold is live a racing duplicate is refused, not replayed: the seat test comes before the unique index |
| `HoldIdempotency.ExpireInTwo` | src/server/holds/expiry-service.ts:126-163 | Expiring two disjoint groups in turn is expiring them at once: same tables, same events, counts that add up |
| `HoldIdempotency.SweepersPartition` | src/server/holds/expiry-service.ts:108-163 | However sweepers interleave, their batches partition what they expire; the end state is the one-shot expiry of it and the reported counts are exactly its holds and seats |
| `HoldIdempotency.CompleteSweep` | src/server/holds/expiry-service.ts:108-170 | Sweepers that leave nothing overdue reach the state of expiring everything overdue at once |
| `HoldService.Database.ReleaseInventoryForHolds` | src/server/holds/expiry-service.ts:14-30 | Frees exactly the rows that point at the holds, and counts them |
| `HoldService.Database.EnqueueExpiredHoldEvents` | src/server/inventory-events/outbox-service.ts:42-55 | One row per hold; throws exactly when some key is already there |
| `HoldService.Database.ReleaseExpiredHoldsForSession` | src/server/holds/expiry-service.ts:38-62 | The session's overdue holds, and no others, are expired, freed and announced |
| `HoldService.Database.ExpireReturned` | src/server/holds/expiry-service.ts:44-62 | Given the holds its update returned, in any order: frees their seats, counts them and announces each, or throws at a used key |
| `HoldService.Database.ReleaseActiveHoldsForSession` | src/server/holds/expiry-service.ts:69-87 | The session's active holds are released and freed, with no event |
| `HoldService.Database.TryIdempotentReplay` | src/server/holds/hold-service.ts:130-155 | No answer exactly when no hold of this user and session has the key; otherwise that hold is replayed exactly when it has the same set of seats, and refused for any other |
| `HoldService.Database.CheckClaim` | src/server/holds/hold-service.ts:219-255 | The first failing test after the locks, in the program's order |
| `HoldService.Database.InsertHold` | src/server/holds/hold-service.ts:257-301 | The writes after the tests: it throws when a locked seat is no longer free or a unique index is hit, and otherwise leaves the specified tables |
| `HoldService.Database.AcquireTransaction` | src/server/holds/hold-service.ts:197-305 | Commits exactly the specified tables; a throw undoes even the lazy expiries |
| `HoldService.Database.AcquireOrReplay` | src/server/holds/hold-service.ts:196-329 | The error handling around it: a key clash looks the key up again |
| `HoldService.Database.AcquireSeatHold` | src/server/holds/hold-service.ts:174-334 | The whole call, validation and replay included |
| `HoldService.Database.ReleaseSeatHold` | src/server/holds/hold-service.ts:347-401 | Owner only, idempotent, guarded by status |
| `HoldService.Database.ClaimOverdue` | src/server/holds/expiry-service.ts:128-138 | Takes the earliest overdue holds that nobody else has locked, as many as the batch allows |
| `HoldService.Database.SweepBatch` | src/server/holds/expiry-service.ts:127-163 | One batch, past whatever holds others have locked, expires exactly what it claimed, with exact counts |
| `HoldService.Database.SweepExpiredHolds` | src/server/holds/expiry-service.ts:108-170 | Without a limit it expires everything overdue; with one, the earliest the batches can take; its counts of holds, seats and batches are exact and it terminates |
| `HoldService.Database.CancelEventSession` | src/server/events/event-session-service.ts:440-466 | Cancels the session, releases its holds and announces it, or changes nothing |
| `HoldService.Database.ReleaseAndAnnounce` | src/server/events/event-service.ts:227-236 | The loop over sessions is one release of all their holds |
| `HoldService.Database.CancelWholeEvent` | src/server/events/event-service.ts:190-243 | Cancels the event and every open session, or changes nothing |
| `HoldService.Database.BookSeats` | src/server/payments/webhook-service.ts:560-637 | Books the hold's seats, converts it and announces it; a seat no longer held by it makes it throw |
| `HoldService.Database.FulfilPaidOrder` | src/server/payments/webhook-service.ts:485-637 | The fulfilment decision and its writes |
| `RowLocks.SnapshotMissesNothing` | src/server/events/event-session-service.ts:441-455 | Holding the locks of all its rows, a serializable cancellation's old snapshot misses no active hold |
| `RowLocks.CommitIsAtomic` | src/server/holds/hold-service.ts:205-303 | Under any interleaving of row locks, what an acquisition, cancellation, release, sweep or booking commits is what the indivisible transaction would do at that moment; a booking of an active hold finds every seat |
| `RowLocks.SellIsEnd` | src/server/payments/webhook-service.ts:576-595 | Booking the seats a hold lists that point at it is booking every seat that points at it |
| `RowLocks.CommitExactly` | src/server/holds/hold-service.ts:205-303 | What a commit leaves in every row and hold, written out: claimed, freed, sold or untouched |
| `RowLocks.ReadsStand` | src/server/payments/checkout-service.ts:97-170 | What a transaction has locked nobody else changes, so what a checkout or payment tested still holds when it commits |
| `RowLocks.OnlyCommitsWrite` | src/server/holds/hold-service.ts:197-305 | No step but a commit changes the committed tables |
| `RowLocks.CancelNeedsItsLock` | src/server/holds/hold-service.ts:208-217 | An acquisition that has read the session holds a lock that any cancellation of the session needs too |
| `RowLocks.OthersSurvive` | src/server/events/event-service.ts:211-236 | A commit spoils nothing another running transaction has read under its locks |
| `RowLocks.NextKeepsInv` | src/server/holds/hold-service.ts:205-303 | Every lock, read and commit step keeps the invariant |
| `RowLocks.RunKeepsInv` | src/server/holds/hold-service.ts:205-303 | So does every interleaving |
| `RowLocks.RunIsSafe` | src/server/events/event-session-service.ts:440-456 | No interleaving commits an active hold on a cancelled session or two active holds over one row |
| `RowLocks.SafeFromTheStart` | src/server/holds/inventory-service.ts:44-67 | So it is from the moment a session's inventory is materialised |
| `RowWaits.FreeCanMove` | src/server/holds/hold-service.ts:205-303 | A transaction that waits for no hold or row another has locked always has a step that changes the state, and aborts only when it must throw |
| `RowWaits.WaitsIncrease` | src/server/holds/hold-service.ts:209-217 | Along waits for rows locked in order the row waited for grows |
| `RowWaits.NoCycle` | src/server/events/event-service.ts:211-217 | While no transaction but cancellations has locked a hold, or none but checkouts and payments has and no cancellation runs, no transactions wait in a circle over rows or holds |
| `RowWaits.SomeoneCanProceed` | src/server/holds/hold-service.ts:209-217 | Then, while transactions run, one of them has a step that changes the state |
| `RowWaits.CanStandStill` | src/server/payments/checkout-service.ts:97-150 | A cancellation that has locked the rows and needs the hold, and an acquisition, release, booking or checkout that has locked the hold and needs a row: for each of them a reachable state in which nobody can go on |
| `RowWaits.FreeingCanStandStill` | src/server/holds/expiry-service.ts:38-53 | Freeing a hold locks rows out of order: a reachable standstill of two acquisitions, and of an acquisition and a release |
| `RowWaits.StandstillExactly` | src/server/events/event-session-service.ts:440-455 | Over every choice of which transactions run: no run ever stands still exactly when nothing expires, releases or sweeps holds, and cancellations do not run beside checkouts and payments |
| `RefundLifecycle.ReviewIsFinal` | src/features/refunds/lifecycle.ts:65-67 | No decision leaves review |
| `RefundLifecycle.DeliveryOutcome` | src/features/refunds/lifecycle.ts:59-86 | The decision function alone, folded over statuses: where it leads a live refund, in closed form |
| `RefundLifecycle.OrderIndependent` | src/features/refunds/lifecycle.ts:59-86 | The decision function alone: without review events where it leads depends only on the set of outcomes |
| `RefundLifecycle.ReviewEventsDependOnOrder` | src/features/refunds/lifecycle.ts:75-80 | Even the decision alone depends on the order of a review event: it freezes a live refund but is dropped after an outcome |
| `RefundOutcomes.SettledRun` | src/server/refunds/settlement-service.ts:147-170 | A recorded outcome stands exactly until an event mismatches the refund, or contradicts the outcome and did not occur before the outcome was applied |
| `RefundOutcomes.ProgressExactly` | src/server/refunds/settlement-service.ts:113-312 | A progress report moves a live refund exactly when its submission time may still be written; otherwise, and on a cancellation, nothing commits |
| `RefundOutcomes.ProgressRun` | prisma/migrations/20260719120000_phase_5c2a_refunds_disputes_ledger/migration.sql:664-716 | A submitted refund stays exactly as it is whatever progress is reported later |
| `RefundOutcomes.FinalStatus` | src/server/refunds/settlement-service.ts:113-312 | The final status of a live refund in the service, in closed form, for every sequence of events with their times: staleness test, row CHECKs and write-once columns included |
| `RefundOutcomes.OrderFreeExactly` | src/features/refunds/lifecycle.ts:99-105 | For any events of which some decides, the final status is the same in every order exactly when one mismatches the refund; or both outcomes are reported by events that are never stale; or one is, no review is asked for and no cancellation occurred from the first processing time on; or none is; and then what it is |
| `RefundOutcomes.LateOutcomesDependOnOrder` | src/server/refunds/settlement-service.ts:160-170 | A failure and an older success: whichever is processed first stands, and the refund never goes under review |
| `RefundOutcomes.DeliveriesCommit` | prisma/migrations/20260719120000_phase_5c2a_refunds_disputes_ledger/migration.sql:664-716 | Beside a payment's other refunds, with every trigger and CHECK, events delivered to one refund commit exactly as they would to it alone |
| `RefundPricing.CalculateCheckoutTotal` | src/features/checkout/totals.ts:8-29 | Accepts exactly the lists with one currency, no negative price and a total in range, and returns their sum |
| `RefundPricing.CalculateSeatRefund` | src/features/refunds/calculation.ts:98-128 | The loop finds the first bad seat or prices all of them, as specified |
| `RefundPricing.SelectExact` | src/features/refunds/calculation.ts:104-113 | Selection succeeds exactly when every seat named is refundable, at exactly their prices |
| `RefundPricing.SeatRefundExact` | src/features/refunds/calculation.ts:98-128 | Accepted exactly when all seats named are open and together fit; duplicates count once |
| `RefundPricing.SeatRejectionExact` | src/features/refunds/calculation.ts:98-128 | Why a seat refund is rejected; each reason given is true of the request |
| `RefundPricing.MixedSeatsExactly` | src/features/refunds/calculation.ts:98-128 | Rejected for mixed currencies exactly when all seats named are open and one is in another currency than the payment's |
| `RefundPricing.MixedFullExactly` | src/features/refunds/calculation.ts:60-92 | The same of a full refund and the open seats |
| `RefundPricing.FullRefundExact` | src/features/refunds/calculation.ts:60-92 | The whole price of the open seats when it fits; otherwise capped, and then not what its seats cost |
| `RefundPricing.EligibleFits` | src/features/refunds/calculation.ts:31-33 | Every accepted refund is positive and fits what is left |
| `Refunds.RewriteShape` | src/server/refunds/settlement-service.ts:113-312 | A provider or submission step never newly commits money; only an escalation makes a released refund count again |
| `Refunds.UncheckedStepKeepsSolvent` | src/server/refunds/refund-service.ts:165-270 | Each step keeps succeeded plus live refunds not under review within the captured amount |
| `Refunds.NeverOverRefunded` | src/features/refunds/calculation.ts:21-33 | Over any requests and events, even without the aggregate CHECK, what is returned never exceeds what was captured |
| `Refunds.ReopensExactly` | src/server/refunds/settlement-service.ts:147-186 | A released refund counts again exactly when an event finds it by its provider id and mismatches it, or reports another terminal status and is not stale |
| `Refunds.AggregateRefusesExactly` | prisma/migrations/20260719120000_phase_5c2a_refunds_disputes_ledger/migration.sql:155-159 | The aggregate CHECK refuses exactly those events when the refund is worth more than is left |
| `Refunds.FreshPayment` | prisma/migrations/20260719120000_phase_5c2a_refunds_disputes_ledger/migration.sql:155-159 | A payment without refunds satisfies both invariants |
| `Refunds.RunKeepsBalanced` | prisma/migrations/20260719120000_phase_5c2a_refunds_disputes_ledger/migration.sql:735-756 | With the CHECK, succeeded plus in-flight stays within the captured amount over every run |
| `Refunds.ReplayChangesNothing` | src/server/refunds/refund-service.ts:181-205 | A replayed request key reserves nothing more |
| `Refunds.Submitted` | src/server/refunds/submission-service.ts:73-280 | A new refund that is claimed and submitted is in flight with its submission time and provider id, and nothing else changed |
| `Refunds.Adopted` | src/server/refunds/submission-service.ts:190-228 | A submission whose outcome is unknown stays in flight, and adopting the provider's id later leads to the same row |
| `Refunds.SettledBy` | src/server/refunds/settlement-service.ts:147-240 | A matching success or failure settles a submitted refund; its amount leaves what is in flight and, on success, is what has been returned |
| `Refunds.ReleasedByFailure` | src/server/refunds/submission-service.ts:288-345 | A rejected refund is failed and its amount refundable again at once |
| `Refunds.CancellationNeverCommits` | prisma/migrations/20260719120000_phase_5c2a_refunds_disputes_ledger/migration.sql:268-289 | A provider's CANCELLED event for a live refund never commits: nothing sets the time the row CHECK wants |
| `RefundSeats.CheckoutTotalIsSeatPrice` | src/features/checkout/totals.ts:8-29 | The checkout total is the price of all the booking's seats |
| `RefundSeats.CoverCosts` | src/features/refunds/calculation.ts:21-29 | Disjoint covering refunds are priced at exactly the seats they cover |
| `RefundSeats.RemainingIsOpenSeats` | src/features/refunds/calculation.ts:31-33 | What is left equals the price of the open seats |
| `RefundSeats.RequestIsSeatScoped` | src/server/refunds/refund-service.ts:221-256 | An accepted request by seat covers open seats only, at their prices |
| `RefundSeats.WholeCommitsExactly` | src/server/refunds/refund-service.ts:181-270 | A request for the whole booking commits exactly when its key is new, it is permitted, the order is not under review and the open seats cost something that still fits; it then takes exactly the open seats at their full price |
| `RefundSeats.SeatsCommitExactly` | src/server/refunds/refund-service.ts:181-270 | A request for chosen seats commits exactly when its key is new, it is permitted, the order is not under review, the seats are open, at least one, and cost something that fits; it then adds one refund of exactly those seats at their price |
| `RefundSeats.FixedCommitsExactly` | src/features/refunds/calculation.ts:135-153 | A fixed amount commits exactly when it is admissible, positive and fits; it takes that amount and no seat |
| `RefundSeats.CappedNeverCommits` | prisma/migrations/20260719120000_phase_5c2a_refunds_disputes_ledger/migration.sql:813-845 | A request capped below the price of its seats changes nothing, whichever of the review flag and the seat-total trigger refuses it |
| `RefundSeats.RefundTheRest` | src/features/refunds/calculation.ts:60-92 | While the cover is disjoint, refunding the rest takes every open seat at full price and leaves nothing |
| `RefundSeats.StepKeepsBySeat` | src/server/refunds/settlement-service.ts:113-312 | Every step keeps every refund priced at its seats |
| `RefundSeats.CoverBreaksExactly` | src/server/refunds/settlement-service.ts:160-186 | The cover stays disjoint except exactly when an event reopens a released refund that fits what is left and shares a seat with a refund made since |
| `RefundSeats.StepKeepsFlagged` | src/server/refunds/settlement-service.ts:147-186 | Whatever breaks the cover puts the order under review, and nothing lifts that |
| `RefundSeats.RemainingStaysExact` | src/features/refunds/calculation.ts:60-128 | Over every run of requests by seat and any events, as long as the order is not under review the covering refunds are disjoint and exactly the open seats' price is left: no full refund is ever capped |
| `RefundSeats.FreshBooking` | src/features/checkout/totals.ts:8-29 | A booking captured at its checkout total starts in that state |
| `RefundSeats.ContradictionCanOverlap` | src/features/refunds/lifecycle.ts:71-73 | A late SUCCEEDED for a failed refund can commit, cover a seat twice and leave nothing refundable with a seat still open |
| `Disputes.DisputeService.AppendLedgerEntry` | src/features/ledger/entries.ts:66-73 | Afterwards the key is in the ledger, keys stay unique, the ledger grows exactly when the key was new, and no other key comes or goes |
| `Disputes.AppendOnce` | src/features/ledger/entries.ts:66-73 | The same of the function, and appending again changes nothing |
| `Disputes.DisputeService.RevokeUnusedTickets` | src/server/disputes/dispute-service.ts:472-513 | Revokes exactly the tickets that still admit, and counts them |
| `Disputes.DisputeService.RecordConsequences` | src/server/disputes/dispute-service.ts:341-464 | The ledger entries, flag and revocations of one status, in the program's order |
| `Disputes.DisputeService.OpenNew` | src/server/disputes/dispute-service.ts:214-300 | Opens the dispute with its consequences, or changes nothing |
| `Disputes.DisputeService.ApplyVerifiedEvent` | src/server/disputes/dispute-service.ts:71-212 | The whole transaction of one event |
| `Disputes.ConsequencesOf` | src/server/disputes/dispute-service.ts:361-424 | Only a loss settles anything: one DISPUTE_LOST and one CHARGEBACK_RECORDED, twice the amount |
| `Disputes.StepKeepsBooks` | src/server/disputes/dispute-service.ts:71-300 | Each event keeps the ledger and the dispute row consistent |
| `Disputes.RunKeepsBooks` | src/server/disputes/dispute-service.ts:341-464 | Over any events a loss is entered together and once, and nothing else moves the settled balance or the tickets |
| `Disputes.FreshBooks` | src/server/disputes/dispute-service.ts:214-300 | Before its first dispute a payment's books are in order exactly when its ledger records no loss |
| `Disputes.LostExactly` | src/features/disputes/lifecycle.ts:50-80 | A dispute is lost exactly when, of the events that decide it, a loss comes first; a decided one never changes its outcome |
| `Disputes.LossDoublesInLedger` | src/features/ledger/entries.ts:127-149 | A ledger that agreed with the payment diverges exactly when a loss is the first decisive event, and then by twice the disputed amount |
| `Disputes.TicketsOverRun` | src/features/disputes/lifecycle.ts:95-116 | USED is never altered, REVOKED is final, and an admitting ticket of a booked payment is revoked exactly when a loss is the first decisive event |
| `Disputes.AdmittingAreRevoked` | src/features/disputes/lifecycle.ts:95-116 | The count of revoked tickets is the number of tickets that change |
| `Disputes.StepEntries` | src/server/disputes/dispute-service.ts:341-424 | An event that takes effect is entered under its own webhook as its status prescribes, a loss with a chargeback beside it; no other event enters anything |
| `Disputes.EntriesTrace` | src/features/ledger/entries.ts:87-125 | Every entry a run adds carries the webhook of one of its events, the entry type of that status and the disputed amount |
| `Disputes.RunFlags` | src/features/disputes/lifecycle.ts:118-134 | Over any events: the flag a lost, reviewed or open dispute leaves on the order, graver when refunds and dispute together exceed what was captured; without a dispute the flag stays |
| `Disputes.StepRow` | src/server/disputes/dispute-service.ts:71-212 | What an event leaves in the dispute row: amount, outcome and closing time |
| `Disputes.BalanceExactly` | src/features/ledger/entries.ts:34-139 | The settled balance is the captures less refunds, lost disputes and chargebacks; nothing else counts |
| `Disputes.DirectionsExactly` | src/features/ledger/entries.ts:17-36 | Captures and authorizations are credits, and so is taking back a debit; no refund or chargeback ever is one |
| `Disputes.EnteredInFull` | src/features/ledger/entries.ts:141-149 | A ledger with the capture and the refunds entered, and no loss, agrees with the payment |
| `Disputes.OneSettlement` | src/features/disputes/lifecycle.ts:50-80 | At most one terminal outcome is ever applied |
| `Disputes.ClosedNeverCommits` | prisma/migrations/20260719120000_phase_5c2a_refunds_disputes_ledger/migration.sql:380-388 | A CLOSED event never closes a dispute: the row CHECK wants an outcome it is not given |
| `Disputes.FinalStatus` | src/features/disputes/lifecycle.ts:50-80 | The final status in closed form, for every event sequence, opening event included |
| `DisputeOrder.OrderIndependent` | src/features/disputes/lifecycle.ts:50-80 | The final status depends only on which deciding statuses are reported, when a review is asked for, both outcomes are reported or no CLOSED is |
| `DisputeOrder.OrderFreeExactly` | src/features/disputes/lifecycle.ts:50-80 | The final status is the same in every order exactly then; and, when nothing decides, exactly when all events but CLOSED ones report one status |
| `DisputeOrder.ClosedDependsOnOrder` | prisma/migrations/20260719120000_phase_5c2a_refunds_disputes_ledger/migration.sql:380-388 | A CLOSED event processed once is lost before the outcome and freezes the dispute after it |
| `DisputeOrder.RedeliveryDecides` | src/server/payments/webhook-service.ts:801-860 | Once every event has been delivered until it committed, the order never matters: the status follows from what was reported, and any CLOSED event ends in review |
| `OutboxDispatch.BackoffGrows` | src/server/inventory-events/dispatcher-service.ts:46-55 | Delays never shrink, double until they reach the cap and never exceed it |
| `OutboxDispatch.FailedTry` | src/server/inventory-events/dispatcher-service.ts:112-130 | A failed try counts one attempt, dead-letters the row exactly when that was the last allowed, and otherwise leaves it open until exactly min(cap, base * 2^min(attempts before, 30)) later |
| `OutboxDispatch.FineTry` | src/server/inventory-events/dispatcher-service.ts:107-111 | A try that succeeds processes the row, changes nothing else, and has it in the stream |
| `OutboxDispatch.ReachedExactly` | src/server/inventory-events/redis-transport.ts:19-45 | Which tries reach the stream, a lost reply included |
| `OutboxDispatch.AttemptsAreFailures` | src/server/inventory-events/dispatcher-service.ts:112-130 | Over every run a row's attempts are exactly the failed tries on it that were committed, so it is dead-lettered exactly by as many as the maximum |
| `OutboxDispatch.ClaimSpec` | src/server/inventory-events/dispatcher-service.ts:83-92 | The claim is the first ready rows nobody has locked, up to the batch size |
| `OutboxDispatch.NextKeepsInv` | src/server/inventory-events/dispatcher-service.ts:98-140 | Every publish, update, commit and abort step keeps the delivery invariant |
| `OutboxDispatch.ExactlyOnce` | src/server/inventory-events/redis-transport.ts:19-45 | However dispatchers interleave, abort and run again, no id is in the stream twice, every processed row is in it exactly once, attempts stay within the maximum and settled rows stay settled |
| `OutboxDispatch.CommitSpends` | src/server/inventory-events/dispatcher-service.ts:111-140 | A committed batch that claimed anything spends at least one remaining attempt |
| `OutboxDispatch.CommitsAreBounded` | src/server/inventory-events/dispatcher-service.ts:66-71 | There are at most as many such commits as attempts left |
| `OutboxDispatch.DeliveredFromEmpty` | src/server/inventory-events/redis-transport.ts:19-45 | The same from an empty outbox and stream, over every run |
| `OutboxDispatch.SettledOrClaimable` | src/server/inventory-events/dispatcher-service.ts:83-92 | No attempts left means every row is processed or dead-lettered; otherwise an idle system can claim one |
| `DispatchService.Dispatcher.RunPublishScript` | src/server/inventory-events/redis-transport.ts:19-25 | Afterwards the id is in the stream exactly once, the stream grew exactly when the id was new, and no other id comes or goes |
| `OutboxDispatch.PublishOnce` | src/server/inventory-events/redis-transport.ts:19-25 | The same of the function, and publishing again changes nothing |
| `DispatchService.Dispatcher.PublishRow` | src/server/inventory-events/dispatcher-service.ts:99-106 | Whether the publication threw, and what it left in the stream either way |
| `DispatchService.Dispatcher.DispatchRow` | src/server/inventory-events/dispatcher-service.ts:98-139 | Processed, or one more attempt with backoff and perhaps dead-lettered |
| `DispatchService.Dispatcher.DispatchRows` | src/server/inventory-events/dispatcher-service.ts:94-143 | The loop over the claim, with exact counts |
| `DispatchService.Dispatcher.DispatchOnce` | src/server/inventory-events/dispatcher-service.ts:80-146 | One try: an abort restores the rows and leaves the stream |
| `DispatchService.Dispatcher.DispatchInventoryEventBatch` | src/server/database/run-in-transaction.ts:48-75 | At most five tries, only after retryable failures |
| `DispatchService.ResultCounts` | src/server/inventory-events/dispatcher-service.ts:94-143 | The reported counts are the claimed rows, those published, and those that failed and are retried or dead-lettered |
| `DispatchService.RetriedExactly` | src/server/database/run-in-transaction.ts:48-75 | A call is tried again exactly while its tries meet retryable failures, five times at most in all |
| `DispatchService.CallAlone` | src/server/database/run-in-transaction.ts:48-75 | With the others idle the call among other dispatchers is the call the method makes |
| `DispatchService.CallIsSteps` | src/server/inventory-events/dispatcher-service.ts:73-146 | Whatever its retries meet with and the others do between them, a call leaves what some run of the steps leaves |
| `DispatchService.CallIsExactlyOnce` | src/server/database/run-in-transaction.ts:48-75 | A call, retries and all, keeps exactly-once delivery whatever steps producers and other dispatchers take before each of its tries |
| `EventCursor.FollowOk` | src/features/inventory-events/delivery.ts:13-38 | The window holds the ids of the last events applied and the timestamp is the last one's |
| `EventCursor.AppliedExactly` | src/features/inventory-events/delivery.ts:13-38 | Which events are applied: exactly those whose id is not among the last applied, as many as the window, and whose timestamp is not before that of the last applied |
| `EventCursor.SortedIsAppliedInFull` | src/features/inventory-events/delivery.ts:13-38 | A stamped stream in order of its timestamps with distinct ids is applied in full, for every window |
| `EventCursor.BeforeExactly` | src/features/inventory-events/delivery.ts:21-26 | The timestamps compare as the language compares strings |
| `EventCursor.WindowIsDistinct` | src/features/inventory-events/delivery.ts:34-35 | Its ids are distinct and no more than the window |
| `EventCursor.TimestampNeverDecreases` | src/features/inventory-events/delivery.ts:29-33 | The timestamp never decreases |
| `EventCursor.RepeatNeedsBurst` | src/features/inventory-events/delivery.ts:13-38 | An event is applied twice only after at least a window of other events with exactly its timestamp; a window of zero never forgets |
| `EventCursor.BoundIsTight` | src/features/inventory-events/delivery.ts:34-35 | For every window exactly that many do suffice |
| `CalendarTime.DateUtcInverse` | src/features/events/date-time.ts:16-34 | Date.UTC inverts the field readers on every real date from the year 100 on, and on no other fields |
| `CalendarTime.DayNumberInjective` | src/features/events/date-time.ts:62-70 | No two dates share a day number |
| `CalendarTime.MonthsOfTheYear` | src/features/events/date-time.ts:16-34 | The twelve months have the lengths they have |
| `CalendarTime.LeapYears` | src/features/events/date-time.ts:16-34 | Which years have 366 days |
| `CalendarTime.FieldsOverflow` | src/features/events/date-time.ts:16-34 | Short years, months and days past the end: what Date.UTC makes of them |
| `ZonedTime.ZonedLocalToUtc` | src/features/events/date-time.ts:85-103 | The three-iteration loop and its final test |
| `ZonedTime.OffsetIsOffset` | src/features/events/date-time.ts:72-83 | The offset computed from local fields is the zone's offset |
| `ZonedTime.AnswerShows` | src/features/events/date-time.ts:97-103 | Any answer shows the local time, whatever the zone does |
| `ZonedTime.ExactWithOneTransition` | src/features/events/date-time.ts:85-104 | With at most one transition in the window an instant is found exactly when one exists: the error means a spring-forward gap; which of two it picks |
| `ZonedTime.TwoIterationsSuffice` | src/features/events/date-time.ts:95-97 | Then the third iteration changes nothing |
| `ZonedTime.TwoTransitionsCanFail` | src/features/events/date-time.ts:95-103 | The hypothesis of one transition is sharp: with two in the window, as no real zone has them, an existing local time can be refused |
| `ZonedTime.ParseAcceptsExactly` | src/features/events/date-time.ts:12-37 | Parsing accepts exactly the well-formed strings naming a real date and time from the year 100 on |
| `ZonedTime.FormatInverts` | src/features/events/date-time.ts:106-110 | Writing parsed fields gives the input back exactly from the year 1000 on |
| `ZonedTime.RoundTrip` | src/features/events/date-time.ts:85-110 | The venue's input survives the trip to UTC and back exactly from the year 1000 on |
| `IpAddress.OctetIsDecOctet` | src/features/security/client-address.ts:42-46 | The octet test accepts exactly dec-octet |
| `IpAddress.Ipv4Exact` | src/features/security/client-address.ts:38-47 | The dotted-quad test accepts exactly IPv4address |
| `IpAddress.GrammarExact` | src/features/security/client-address.ts:66-73 | The nine alternatives of IPv6address are the counted normal form: eight groups, or at most seven around one elision |
| `IpAddressExact.CutAtElision` | src/features/security/client-address.ts:53-57 | What passes the colon tests with one elision is two clean parts around it |
| `IpAddressExact.ReadElided` | src/features/security/client-address.ts:60-71 | The groups and dotted quad read from an address with an elision |
| `IpAddressExact.NormalIsShort` | src/features/security/client-address.ts:50 | No address is longer than 45 characters, so the cap loses none |
| `IpAddressExact.Ipv6Exact` | src/features/security/client-address.ts:49-74 | The recogniser accepts exactly IPv6address of section 3.2.2 of RFC 3986 |
| `Pricing.CalculateCoverage` | src/features/events/pricing.ts:27-112 | The whole report: each section's sellable and blocked seats and tier, the tier capacities and totals, the minimum price, the one currency if there is one, and exactly the issues the input raises, each once |
| `Pricing.SellableOrBlocked` | src/features/events/pricing.ts:51-61 | Every seat of a section is either sellable or blocked |
| `Pricing.ComputeInventoryRows` | src/features/holds/inventory.ts:54-86 | One row per active seat of each priced section, in order, at the tier's price |
| `Pricing.RowsMatchPriced` | src/features/holds/inventory.ts:44-53 | For every map, tiers and assignments there are as many rows as priced seats |
| `Pricing.TiersShareTheRows` | src/features/events/pricing.ts:83-88 | With unique tier ids the tier capacities add up to the rows |
| `Pricing.NoIssuesMeansPriced` | src/features/events/pricing.ts:72-74 | Without issues nothing is unpriced: every sellable seat has its row |
| `Pricing.RowMembers` | src/features/holds/inventory.ts:66-83 | A seat has a row exactly when it is active and its section priced; a blocked seat never |
| `Pricing.RowContents` | src/features/holds/inventory.ts:66-80 | Each row is of an active seat of its section and carries the id, price and currency of the tier that section is assigned |
| `Pricing.RowsExactly` | src/features/holds/inventory.ts:54-86 | With unique tiers those are exactly the rows |
| `Pricing.RowsInOrder` | src/features/holds/inventory.ts:66-83 | Rows come section by section; with `Pricing.ActiveSeatsInOrder`, seat by seat in the order of the map |
| `Pricing.ActiveSeatsInOrder` | src/features/holds/inventory.ts:71-73 | Within a section they follow its seats |
| `Pricing.LastAssignment` | src/features/holds/inventory.ts:58-63 | Of several assignments of a section the last counts |
| `Pricing.LastTier` | src/features/holds/inventory.ts:57 | Of several tiers with one id the last counts |
| `Pricing.UncoveredExactly` | src/features/events/pricing.ts:51-67 | A section is reported without a tier exactly when it has an active seat and no assignment |
| `Pricing.TierCapacityIsRows` | src/features/events/pricing.ts:83-88 | A tier's reported capacity is the number of rows sold at it |
| `Pricing.TotalIsActiveSeats` | src/features/events/pricing.ts:51-61 | The sellable total is the number of active seats |
| `Pricing.RowsUnique` | src/features/holds/inventory.ts:66-83 | When the map lists each seat once, so do the rows |
| `Materialisation.InsertTwice` | src/server/holds/inventory-service.ts:60-67 | Materialising again adds and changes nothing |
| `Materialisation.FreshCount` | src/server/holds/inventory-service.ts:69-71 | A session without inventory gets exactly one row per seat |
| `Materialisation.InsertContents` | src/server/holds/inventory-service.ts:60-67 | Under each key stands what was there before, or else exactly the row given |
| `Materialisation.OutcomeExactly` | src/server/holds/inventory-service.ts:181-205 | Which outcome a candidate gets, each exactly when |
| `Materialisation.MaterialisedContents` | src/server/holds/inventory-service.ts:60-67 | A materialised candidate has exactly its priced active seats as rows, at their tier's price |
| `Materialisation.SummaryCounts` | src/server/holds/inventory-service.ts:145-233 | The summary counts the candidates by outcome |
| `Materialisation.BackfillCounts` | src/server/holds/inventory-service.ts:145-233 | Each candidate is decided on its own rows, and no other session's rows change |
| `Materialisation.AnnouncedExactly` | src/server/holds/inventory-service.ts:74-80 | A backfill announces exactly the sessions it materialises, each once |
| `Materialisation.OverlapIsHarmless` | src/server/holds/inventory-service.ts:181-227 | A backfill that read no rows and then finds them written by another commits, changing and announcing nothing |
| `Materialisation.BackfillTwice` | src/server/holds/inventory-service.ts:137-233 | A backfill never throws, and running it again changes no row, announces nothing and reports what it made as complete |
| `Materialisation.InventoryService.CreateMany` | src/server/holds/inventory-service.ts:60-67 | Inserts the rows whose keys are new, and counts them |
| `Materialisation.InventoryService.EnsureSessionInventory` | src/server/holds/inventory-service.ts:44-107 | Commits only when the count matches, otherwise writes nothing; announced exactly when it wrote a row |
| `Materialisation.InventoryService.BackfillSession` | src/server/holds/inventory-service.ts:174-229 | The outcome for one session, and whether it is announced |
| `Materialisation.InventoryService.BackfillPublishedSessions` | src/server/holds/inventory-service.ts:145-233 | The loop, its summary counts and its announcements |
| `RowLabels.NumberToRowLabel` | src/features/seat-maps/row-labels.ts:16-31 | The loop builds the label of exactly the numbers 1 to 18278 |
| `RowLabels.ValueOfLabel` | src/features/seat-maps/row-labels.ts:3-31 | Decoding an encoded number gives it back, for every number |
| `RowLabels.LabelOfValue` | src/features/seat-maps/row-labels.ts:3-31 | Encoding a decoded label gives it back, for every A-Z string |
| `RowLabels.LabelLength` | src/features/seat-maps/row-labels.ts:17-19 | At most three letters exactly up to 18278 |
| `RowLabels.LabelsAndNumbers` | src/features/seat-maps/row-labels.ts:3-31 | The two conversions are inverse on exactly the supported range |
| `RowLabels.NumberedInOrder` | src/features/seat-maps/row-labels.ts:3-14 | Labels are numbered in order of length and then of their letters |
| `RowLabels.GenerateRowLabels` | src/features/seat-maps/row-labels.ts:33-36 | Defined exactly inside the bound; then the labels are distinct and number consecutively |
| `Slugs.EventSlugIsSlug` | src/features/events/schema.ts:19-30 | Every title gives a non-empty slug of at most 80 characters in the single-hyphen grammar |
| `Slugs.Idempotent` | src/features/events/schema.ts:19-30 | Slugging twice changes nothing more |
| `Slugs.SlugIsItsWords` | src/features/events/schema.ts:20-29 | A slug is the title's words joined by hyphens, cut to 80 characters and freed of a trailing hyphen |
| `Slugs.PlainTitles` | src/features/events/schema.ts:19-30 | A title that is a slug already, of at most 80 characters, is its own slug |
| `Slugs.EmptyTitles` | src/features/events/schema.ts:29 | The fallback stands in exactly for titles without a letter or digit |
| `Slugs.PublicSlugInjective` | src/features/events/schema.ts:32-37 | The public slug determines organisation and event slug |

## Left out

- Authorization, sessions of users, rate limits, metrics and logging: lookups and counters without state worth proving; `permitted` and the actor's id stand for them.
- The other announcements of a payment (PAYMENT_SUCCEEDED, BOOKING_CONFIRMED, checkout events): their keys never meet the modelled ones. A booking is named by its hold in INVENTORY_BOOKED.
- Prices and currencies on inventory rows and hold items: only their keys and states are modelled in the hold tables; amounts are modelled in the refund and pricing modules.
- Order rows at booking: the order's status is a parameter of `HoldModel.BookTx`; payment attempts, webhooks and ticket issuance are not part of this model.
- Snapshots compared before booking: the seats, states, holder and expiry are compared; the price comparison is not modelled.
- Serializable isolation inside the database: `RowLocks` keeps its snapshot reads and its refusal to lock a row updated since, not predicate locks; session creation and publication races rely on it and are modelled as atomic.
- Inventory rows appearing during a run of row locks: `RowLocks` fixes the set of rows.
- Which holds lazy expiry and sweeps choose inside `RowLocks`: any active hold, so the clock is not needed there.
- Event and session fields without invariants (titles, descriptions, capacity notes), editing an event, and deleting an empty draft event.
- Ticket credentials and audit rows of a revocation, dispute history rows, and financial outbox rows: they follow the modelled writes one for one.
- Refund requests through summaries and organizer views, ticket consequences of a refund, and the booking's own REFUNDED flag, which tests the same equality as `Refunds.NeverOverRefunded`.
- Refund time-order CHECKs and failure codes: the clock of one refund is taken to move forward and a failure always to carry a code.
- Stream trimming and expiry of deduplication keys: the stream is unbounded and keys outlive the run.
- Dispatcher transaction timeouts and the wording of stored errors; the delay before a retry of a transaction.
- HMAC credentials, room tickets, random tokens and hashing: opaque identifiers.
- Unicode folding before slugs and trimming and upper-casing before row labels: the models start after them.
- Time zones with offsets that are not whole minutes; display formatting of dates and money.
- Trusted-proxy policies and header parsing around the address recognisers: independent branches.
- Seat-selection view, selection counts, hold totals and the reconciliation of a client's selected seats: maps and sums that would only add easy members.
- UI, server actions, environment schemas, deployment and staging scripts: no state worth proving.
- HoldService.Database.Returning: stands for the order in which an UPDATE returns its rows, which the program does not fix.
- HoldService.Database.SweepExpiredHolds: its batches run while nobody else holds locks; `HoldService.Database.SweepBatch` takes any locks, and sweeps that skip each other's holds are `HoldIdempotency.SweepersPartition`.
- RefundLifecycle.DeliveryOutcome: the decision function alone, without the staleness test before it and the row CHECKs after it; `RefundOutcomes.FinalStatus` has both.
- RefundLifecycle.OrderIndependent: the decision function alone, as above; the service is order-independent exactly as `RefundOutcomes.OrderFreeExactly` says.
- RefundOutcomes.OrderFreeExactly: asks that some event decides; without one the refund stays live, as `RefundOutcomes.FinalStatus` says, and which live status it shows is not compared.
- RefundOutcomes.FinalStatus: each event is processed once; an event whose transaction aborts may be delivered again, which is modelled for disputes only (`DisputeOrder.RedeliveryDecides`).
- DisputeOrder.OrderFreeExactly: asks that no event is passed over for its amount, which holds once the dispute is open; `Disputes.FinalStatus` covers the others.
- RowWaits.StandstillExactly: about waits for hold rows and inventory rows. Waits for session, event, order and payment rows and for entries of unique indexes are not modelled; nor is that sweeps pass over locked holds instead of waiting.
- A payment event that finds its hold overdue goes on to expire the session's overdue holds: in `RowLocks` it counts as an ending of all of them, which locks them first.
- Backfills that overlap, beyond `Materialisation.OverlapIsHarmless`: the count of existing rows, read before the transaction, and the transaction are otherwise one step.
- RefundOutcomes.DeliveriesCommit: for a refund that still counts or that fits what is left; otherwise the aggregate CHECK refuses its reopening, as `Refunds.AggregateRefusesExactly` says.
- DispatchService.CallIsExactlyOnce: the others' steps come between the tries of the call; steps in the middle of a try are covered by `OutboxDispatch.ExactlyOnce`, over every interleaving.
- Pricing.CalculateCoverage: the issues are a list without repetitions; their order is not modelled, nor are the names of sections and tiers.
- ZonedTime.TwoTransitionsCanFail: about a made-up zone; it shows why `ZonedTime.ExactWithOneTransition` asks for one transition.
- ZonedTime.ExactWithOneTransition: asks that the whole window lie after the year 99, since the offset computation misreads earlier years.

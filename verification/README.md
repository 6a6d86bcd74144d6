# Agent bus: a verified model

A Dafny 4.11 model of the agent bus repository's stateful and encoding cores, with proofs. `dafny verify dfyconfig.toml`
checks all of it.

- **The cloud bus store** (`MessageStore`, `Reading`, `PresenceStore`, `RateLimit`, `Retention`, `BusLog`). The tables of the
  `BusLog` Durable Object as sequences and maps, each operation as a step function, and the class whose methods follow the
  source statement by statement and are proved equal to those steps. Storage faults can strike at each statement of message
  insertion and of presence writes; the row an ambiguous `LIMIT 1` picks is a parameter. `Replication` runs writers, retention and a puller together.
- **The importer** (`Importer`). `/sync/push` as its caller sees it, the retry loop, the batch loop and its saved offset,
  run to the end through crashes, lost answers and aborts.
- **Lease arbitration** (`ClaimsLogic`, `ClaimDO`, `ResourceName`). The claim table as a state machine and as a class.
- **Text and time** (`Timestamps`, `Ids`, `Excerpt`, `Validation`, `RowSize`). Calendar arithmetic and string order of
  timestamps, UUIDv7, excerpts over UTF-16 units, and the bytes a stored row needs.
- **Laws** (`StoreLaws`, `ImportLaws`, `ReadLaws`, `PresenceLaws`, `ClaimLaws`, `ValidationLaws`, `PeLaws`, `DllLaws`,
  `TreeLaws`, `BlobLaws`, `PhiLaws`). What the operations of these modules decide and store, said over the fields, bytes and characters of their
  inputs and results rather than through the functions that compute them.
- **Tools** (`PeImports`, `DllClosure`, `BlobBatch`, `TreeEntries`, `HistoryExport`, `Reconciliation`). The PE import
  reader, the DLL worklist, the `cat-file --batch` parser, the path-alias filter and the history export with its accounting.

Clocks, storage faults, random bits, minted ids, hashes and case mapping are parameters. Where the code and a comment
disagree the code is modelled.

What turned out false, each with a concrete case and the exact condition or bound beside it:

- The stream export loses the entry after its starting one when that starting entry is trimmed between two reads
  (`HistoryExport.TrimmedStartLosesAnEntry`); it is complete exactly when no read meets that (`CompleteIffNeverSkips`).
- Expiry can leave a stale `contested` (`ClaimsLogic.StaleContested`), exactly when a live claim has lost all its rivals
  (`ExpirySettledIff`).
- A second leading `./` survives normalization; a normalized name is normal exactly without one (`ResourceName.NormalIff`).
- A repeated request stores an item with a blank id again (`Importer.BlankIdStoresAgain`); every other row is settled once.
- The row-size margin does not cover configured names, which nothing caps. Per identity it holds exactly when the largest
  row fits (`RowSize.RowFitsIff`). That is stated for case mappings whose keywords take short characters, as those of
  JavaScript do; for any mapping at all the two halves stand beside it, five bytes apart. The total cap itself never binds
  (`Validation.TotalCapNeverBinds`).
- Stored timestamps sort like their instants only within the forms that `toISOString` prints alike; exactly which pairs are
  reversed is `Timestamps.OrderKeptIff`.
- Presence events with equal timestamps need not converge; they do exactly when an agent's newest events make the same row
  (`PresenceStore.ConvergesIffTopsAgree`).
- A relayed presence event can be lost for good: exactly when a call that found it new failed at its history insertion,
  over any run of calls (`PresenceStore.LostIffStruck`).
- The batch parser is the inverse of the printer exactly on canonical headers (`BlobBatch.AssembledIsPrintedIff`); it also
  takes a size with a leading zero (`LeadingZeroAccepted`).

## Model

| member | source | states |
|---|---|---|
| `Replication.DeliveredExactlyOnce` | cloud/agentbus/src/do-buslog.ts:953-978 | over every interleaving of direct writes, batches, sync pushes, retention deletes and polls, a puller that follows `next_cursor` gets eligible rows in strictly increasing sequence order, each stored eligible row it has passed exactly once unless retention removed it first, and its cursor never exceeds the highest number issued |
| `Replication.QuietDrainCompletes` | cloud/agentbus/src/do-buslog.ts:953-978 | when writers stop, continued polling ends and has delivered exactly the eligible rows not lost to retention |
| `Replication.StepKeeps` | cloud/agentbus/src/do-buslog.ts:853-978 | every operation keeps the replication invariant, in particular rows ahead of the cursor are stored unless lost |
| `Reading.PullPageExact` | cloud/agentbus/src/do-buslog.ts:953-978 | a page is exactly the eligible rows between the two cursors, in order, and `has_more` tells whether any are left |
| `Reading.DrainDeliversAll` | cloud/agentbus/src/do-buslog.ts:953-978 | draining an unchanging table delivers every eligible row after the cursor in order, for every page size >= 1, and terminates |
| `Reading.ZeroLimitSkips` | cloud/agentbus/src/do-buslog.ts:971-976 | with a limit of 0 the empty page still moves the cursor to the tail, so limits >= 1 are needed |
| `ReadLaws.HubPage` | cloud/agentbus/src/do-buslog.ts:953-978 | for a hub, a page holds no row of its own and exactly the rows of other origins between the two cursors |
| `ReadLaws.FullPage` | cloud/agentbus/src/do-buslog.ts:953-978 | without an excluded origin, or with an empty one, it holds every row between the two cursors |
| `ReadLaws.PageEnd` | cloud/agentbus/src/do-buslog.ts:971-976 | more is announced exactly while a wanted row is left, after a full page; otherwise the cursor is past every row |
| `ReadLaws.HubGetsTheOthers` | cloud/agentbus/src/do-buslog.ts:953-978 | over every run a hub is never handed a row of its own and gets every row of another origin up to its cursor exactly once unless retention took it |
| `ReadLaws.AllAreDelivered` | cloud/agentbus/src/do-buslog.ts:953-978 | over every run a puller that excludes nothing gets every row up to its cursor exactly once unless retention took it |
| `ReadLaws.QuietPullerHas` | cloud/agentbus/src/do-buslog.ts:953-978 | what a puller ends up with when writers stop, said by hub comparison |
| `MessageStore.InsertKeeps` | cloud/agentbus/src/do-buslog.ts:354-435 | insertion, with any storage fault at any moment, only appends under a fresh sequence number and keeps both composite unique keys |
| `MessageStore.ConstraintHitIff` | cloud/agentbus/src/do-buslog.ts:362-381 | the UNIQUE constraint itself is reached exactly when the client key is the empty string and already stored |
| `MessageStore.ValidItemNeverHitsConstraint` | cloud/agentbus/src/do-buslog.ts:903-916 | an item without an empty client key is, without a storage fault, neither refused by storage nor rethrown |
| `Importer.BuiltKeysValid` | cloud/agentbus/src/validation.ts:77-89 | no item that validation lets through carries an empty client key |
| `Importer.FaultFreeRouteAnswers` | cloud/agentbus/src/index.ts:826-855 | without storage faults a request is always answered and storage rejects none of its items: neither UNIQUE key is ever violated |
| `MessageStore.ReplayAcceptsNothing` | cloud/agentbus/src/do-buslog.ts:873-950 | replaying a completed batch after any further growth accepts nothing and changes no row, whatever row `LIMIT 1` picks |
| `MessageStore.PushTruthful` | cloud/agentbus/src/do-buslog.ts:881-926 | accepted, duplicate and conflict are each true of the final table, and a rejection not made by storage names the failed check |
| `MessageStore.PushPartitions` | cloud/agentbus/src/do-buslog.ts:881-926 | each item of a completed push is in exactly one of the four lists |
| `MessageStore.PushStoresAccepted` | cloud/agentbus/src/do-buslog.ts:873-950 | a push adds to the pushing hub exactly as many rows as it accepts, and none to any other origin, while no fault strikes between an INSERT and its follow-up |
| `MessageStore.ReceivedIsStored` | cloud/agentbus/src/do-buslog.ts:928-947 | while no push aborts or fails right after an INSERT, `messages_received` of each hub is its number of rows, over any run of pushes |
| `MessageStore.LastOriginSeqGrows` | cloud/agentbus/src/do-buslog.ts:936-947 | `last_origin_seq` never decreases over further pushes, aborted or not |
| `MessageStore.BatchFailureStays` | cloud/agentbus/src/do-buslog.ts:455-460 | once an insert of a transaction fails, the inputs after it do not matter |
| `StoreLaws.InsertDecides` | cloud/agentbus/src/do-buslog.ts:358-381 | without a fault an input is refused without an origin, known exactly when a row of its origin shares its id or a non-empty client key, in conflict exactly when sender, recipient, topic or body differ, and stored otherwise |
| `StoreLaws.InsertedRow` | cloud/agentbus/src/do-buslog.ts:383-424 | a new row has the next sequence number, the sent message and hub, the time of insertion, the sent sensitivity or internal, and the sent stream id or one made of its number |
| `StoreLaws.FreshRowKept` | cloud/agentbus/src/do-buslog.ts:409-413 | however old the message says it is, an alarm deletes a row exactly when the retention period has passed since its insertion |
| `StoreLaws.AckQueued` | cloud/agentbus/src/do-buslog.ts:425-433 | a direct write that asks for an ack is queued for its recipient with its own time, and nothing else changes the queue |
| `StoreLaws.ItemRefusedIff` | cloud/agentbus/src/do-buslog.ts:881-903 | an item is refused before storage exactly for no-offsite, a blank text or a foreign hub, the first that holds, whatever faults there are |
| `StoreLaws.PresentableItemDecides` | cloud/agentbus/src/do-buslog.ts:904-926 | any other item is accepted and stored as sent when no key is known, and otherwise a duplicate of a row with the same four texts or in conflict with one |
| `StoreLaws.PushRefusesIff` | cloud/agentbus/src/do-buslog.ts:881-903 | the same of every item of an answered push |
| `StoreLaws.FreeItemAccepted` | cloud/agentbus/src/do-buslog.ts:881-926 | an item that collides with no stored row and no item ahead of it is accepted and stored as sent under the pushing hub |
| `StoreLaws.AnswerIff` | cloud/agentbus/src/do-buslog.ts:881-926 | an id is in a list exactly when an item with that id has that outcome, and a rejection carries id, client key and reason |
| `StoreLaws.MaxSeqExact` | cloud/agentbus/src/do-buslog.ts:926-926 | the sequence number reported to the cursor is the highest of the items that were not rejected, or 0 |
| `StoreLaws.CursorRow` | cloud/agentbus/src/do-buslog.ts:928-947 | the cursor row gets the greater sequence number, the sum of what was received and the time, and no other row changes |
| `Reading.SimpleIsNewest` | cloud/agentbus/src/do-buslog.ts:516-631 | the simple form is the newest `limit` rows passing every filter, oldest first |
| `Reading.UntaggedIsSimple` | cloud/agentbus/src/do-buslog.ts:573-630 | without required tag, repo or session the paged scan equals the simple form |
| `Reading.SmallScanIsSimple` | cloud/agentbus/src/do-buslog.ts:573-630 | with tags the two agree whenever the candidates fit the scan budget |
| `Reading.ListedMissesOnlyOld` | cloud/agentbus/src/do-buslog.ts:577-630 | a passing row missing from the answer is older than a full answer, or older than every candidate of a whole exhausted budget |
| `Reading.BudgetIsWholePages` | cloud/agentbus/src/do-buslog.ts:573-600 | the number of candidates examined is all of them or the first whole number of pages from 10,000 rows on |
| `ReadLaws.ListedIsAsked` | cloud/agentbus/src/do-buslog.ts:516-630 | an answer is in sequence order, within the limit, and every row in it passes every filter of the query, said column by column |
| `ReadLaws.AskedIsListed` | cloud/agentbus/src/do-buslog.ts:577-630 | a row that passes every filter is missing only behind a full answer or behind a whole budget |
| `ReadLaws.SimpleIsAsked` | cloud/agentbus/src/do-buslog.ts:516-630 | within the budget it is missing only when the limit is reached by newer ones |
| `ReadLaws.BudgetIs` | cloud/agentbus/src/do-buslog.ts:573-600 | the budget in numbers: 10,000 rows for limits up to 40, the first multiple of five times the limit beyond |
| `BusLogObject.ScanMessages` | cloud/agentbus/src/do-buslog.ts:573-630 | the backward paging loop with early exits and budget computes the bounded form of the simple scan |
| `BusLogObject.ScanPage` | cloud/agentbus/src/do-buslog.ts:606-613 | the inner loop appends the matches of one page up to the limit |
| `BusLogObject.BusLog.ListMessages` | cloud/agentbus/src/do-buslog.ts:516-630 | the call returns that scan for the formatted cutoff, and fails exactly when the instant has no ISO form |
| `BusLogObject.BusLog.InsertMessage` | cloud/agentbus/src/do-buslog.ts:354-435 | the statements in order, with a fault possible at each, have the effect of the insertion step on rows and pending acks |
| `BusLogObject.BusLog.InsertMessageBatch` | cloud/agentbus/src/do-buslog.ts:455-460 | all inputs are handled or no table changes |
| `BusLogObject.BusLog.PushItems` | cloud/agentbus/src/do-buslog.ts:881-926 | the loop over items computes the push of the specification and its four lists, and stops at a rethrown error with earlier inserts kept |
| `BusLogObject.BusLog.SyncPush` | cloud/agentbus/src/do-buslog.ts:873-950 | after a rethrown error the cursor row is untouched; otherwise it is advanced by what was accepted; pending acks never change |
| `BusLogObject.BusLog.SyncPull` | cloud/agentbus/src/do-buslog.ts:953-978 | the call returns the page and, for limits >= 1, an exact one |
| `BusLogObject.BusLog.SyncPushPresence` | cloud/agentbus/src/do-buslog.ts:988-1085 | the loop, with a fault possible at each statement, has the effect of the call of the specification, stops at a thrown error with what was written kept, and answers with the counts of its verdicts |
| `BusLogObject.BusLog.RelayOne` | cloud/agentbus/src/do-buslog.ts:1008-1081 | one event, statement by statement with its fault moments, has the effect of the attempt of the specification |
| `BusLogObject.BusLog.SetPresence` | cloud/agentbus/src/do-buslog.ts:715-756 | the two statements, with a fault at each, are the write whose meaning the three lemmas below state |
| `PresenceStore.DirectWriteConcernsOneKey` | cloud/agentbus/src/do-buslog.ts:715-756 | a direct write changes one current row, no dedup key and no count of a relayed id, and goes back in time when its timestamp does |
| `PresenceStore.DirectWriteOutlastsOlderRelays` | cloud/agentbus/src/do-buslog.ts:1045-1080 | after a direct write any number of older relayed events leaves its row as it is |
| `PresenceStore.RelayAfterDirectWrite` | cloud/agentbus/src/do-buslog.ts:1057-1080 | a relayed event that is not older replaces it, except for the network context |
| `PresenceStore.LostIffStruck` | cloud/agentbus/src/do-buslog.ts:988-1044 | over any run of calls with any faults: the dedup key of an event is stored exactly when some call that found it new got past that insertion, and then the event is missing from the history exactly when one of them failed at its history insertion, and otherwise in it once |
| `PresenceStore.CurrentIsNewestAccepted` | cloud/agentbus/src/do-buslog.ts:1007-1085 | whatever calls fail and wherever, the current row of each agent is that of its newest event that was answered as accepted |
| `PresenceStore.RetriedEvent` | cloud/agentbus/src/do-buslog.ts:1012-1080 | a single retry in detail: the current row is updated exactly when the first failure struck before the dedup key was stored |
| `PresenceStore.SyncedIsFinal` | cloud/agentbus/src/do-buslog.ts:1012-1044 | once its dedup key is stored no later calls change how often an event is in the history, so one that missed it is lost |
| `PresenceStore.FaultFreePushRelays` | cloud/agentbus/src/do-buslog.ts:988-1085 | a call without faults relays all its events |
| `PresenceLaws.RelayDecides` | cloud/agentbus/src/do-buslog.ts:1007-1081 | an event is rejected exactly when one of three texts is blank, a duplicate exactly when its id is known, and otherwise recorded; it is shown exactly when nothing later is, with every column and the millisecond of expiry said |
| `PresenceLaws.DirectWriteIs` | cloud/agentbus/src/do-buslog.ts:715-756 | the columns of a direct write, current and in the history |
| `PresenceLaws.FaultLeaves` | cloud/agentbus/src/do-buslog.ts:1012-1080 | which of the three tables a fault at each statement leaves written |
| `PresenceLaws.AnswerCounts` | cloud/agentbus/src/do-buslog.ts:1003-1085 | the two counts and the number of refusals are those of the verdicts |
| `PresenceLaws.RejectedAre` | cloud/agentbus/src/do-buslog.ts:1008-1011 | the refused events are listed by their origin ids |
| `BusLogObject.BusLog.CheckRateLimit` | cloud/agentbus/src/do-buslog.ts:1178-1201 | the counter table and verdict are those of the window step |
| `BusLogObject.BusLog.EnsureSchema` | cloud/agentbus/src/do-buslog.ts:317-327 | a cold start schedules the alarm only if none is pending |
| `BusLogObject.BusLog.Alarm` | cloud/agentbus/src/do-buslog.ts:1153-1168 | a firing deletes by ingest time from messages and presence history and reschedules |
| `PresenceStore.ConvergesIffTopsAgree` | cloud/agentbus/src/do-buslog.ts:988-1085 | all deliveries of the same events end with the same current rows exactly when, for every agent, all its events with the greatest timestamp make the same row |
| `PresenceStore.RelayConverges` | cloud/agentbus/src/do-buslog.ts:988-1085 | any order, batching and repetition ends with the same dedup keys and at most one history row per origin id, and with the same current rows under that condition |
| `PresenceStore.DistinctStampsConverge` | cloud/agentbus/src/do-buslog.ts:988-1085 | without two events of one agent at the same time every delivery ends with the same current rows |
| `PresenceStore.RelayAllReflects` | cloud/agentbus/src/do-buslog.ts:1007-1082 | after any relay each agent's current row is its event with the greatest timestamp and each origin id has one history row |
| `PresenceStore.BatchingIrrelevant` | cloud/agentbus/src/do-buslog.ts:1007-1082 | cutting a relay into batches does not change the tables |
| `PresenceStore.RelayNeverRegresses` | cloud/agentbus/src/do-buslog.ts:1045-1080 | a relayed event never replaces a current row by an older one and touches no other key |
| `PresenceStore.TiedTimestampsDiverge` | cloud/agentbus/src/do-buslog.ts:1057-1057 | two events of one agent with equal timestamps and different statuses do not converge |
| `RateLimit.WindowExact` | cloud/agentbus/src/do-buslog.ts:1178-1201 | each aligned minute admits exactly the smaller of its calls and the limit, and cleanup never erases a window still counted |
| `RateLimit.AnyMinuteAdmitsTwiceLimit` | cloud/agentbus/src/do-buslog.ts:1178-1201 | no interval of 60 seconds, aligned or not, admits more than twice the limit |
| `RateLimit.TwiceLimitIsReached` | cloud/agentbus/src/do-buslog.ts:1180-1188 | that bound is reached across a window edge |
| `Retention.RowLifetime` | cloud/agentbus/src/do-buslog.ts:1133-1167 | with alarms on time no row outlives the retention period plus 24 hours and no younger row is lost, over every run with restarts |
| `Retention.FireExact` | cloud/agentbus/src/do-buslog.ts:1153-1164 | a firing keeps exactly the rows ingested strictly after now minus the period |
| `Retention.RestartsDoNotPostpone` | cloud/agentbus/src/do-buslog.ts:1133-1141 | once an alarm is pending, a run with restarts ends like the same run without them, however they are mixed with arrivals and the passing of time |
| `Timestamps.FormatPreservesOrder` | cloud/agentbus/src/ids.ts:49-52 | string order of stored timestamps is the order of instants for years 0 to 9999, calendar arithmetic included |
| `Timestamps.CutoffIsStrict` | cloud/agentbus/src/do-buslog.ts:1157-1164 | a six-digit stored stamp is at or after a three-digit cutoff exactly when its millisecond is strictly later |
| `Timestamps.OrderKeptIff` | cloud/agentbus/src/ids.ts:49-52 | over every pair of instants a `Date` can hold: the strings are in the order of the instants exactly when not only the later one is past year 9999 and, before year 0, both are in one year; otherwise they are in the reverse order |
| `Timestamps.OrderFailsBeforeYear0` | cloud/agentbus/src/validation.ts:373-393 | timestamps are checked against the future only, and two accepted ones around the start of year -1 sort in reverse |
| `Timestamps.OrderFailsAtYear10000` | cloud/agentbus/src/ids.ts:49-52 | the first instant of year 10000 sorts before the one before it |
| `Timestamps.ParseFormatRoundTrip` | cloud/agentbus/src/ids.ts:49-58 | formatting and parsing back gives the same millisecond |
| `Timestamps.FieldsRoundTrip` | cloud/agentbus/src/ids.ts:49-52 | the calendar fields of an instant are in range and determine it |
| `Timestamps.EpochIs` | cloud/agentbus/src/ids.ts:49-52 | instant 0 is printed as the first of January 1970 |
| `Timestamps.LeapYearIs` | cloud/agentbus/src/ids.ts:49-52 | the leap years and the lengths of years, counted from 1970 |
| `Ids.LaterSortsLater` | cloud/agentbus/src/ids.ts:10-40 | ids made in a later millisecond sort later whatever their random bits, while the time fits 48 bits |
| `Ids.VersionAndVariant` | cloud/agentbus/src/ids.ts:24-40 | version 7 and the variant stand where section 5.7 of RFC 9562 puts them |
| `Ids.MakeUuid` | cloud/agentbus/src/ids.ts:10-40 | filling the byte array index by index and printing it gives the id of the specification |
| `ClaimsLogic.ConflictsIff` | cloud/agentbus/src/claims-logic.ts:34-49 | conflict is symmetric, and holds exactly for an exclusive side or two namespaced sides without two different namespaces |
| `ClaimsLogic.RecomputeClaimStatuses` | cloud/agentbus/src/claims-logic.ts:53-59 | the in-place loop, which compares with already updated claims, equals recomputing all from the old array |
| `ClaimsLogic.RecomputedSettles` | cloud/agentbus/src/claims-logic.ts:53-59 | recomputing changes statuses only, makes each claim contested exactly when it conflicts with another, and is idempotent |
| `ClaimsLogic.AllGrantedIffCompatible` | cloud/agentbus/src/claims-logic.ts:53-59 | all claims are granted exactly when they are pairwise compatible |
| `ClaimsLogic.ReachableClaimsSafe` | cloud/agentbus/src/do-claim.ts:169-373 | under every order of claim, renew, release, resolve and expiry there is one row per agent and no two granted claims conflict |
| `ClaimsLogic.StatusesExactAfterMutation` | cloud/agentbus/src/do-claim.ts:251-341 | after each claim, renewal and release a claim is contested exactly when it conflicts with another one, and all claims in the table, the new lease included, are live |
| `ClaimsLogic.ApplyLive` | cloud/agentbus/src/do-claim.ts:169-189 | after every operation, reads and resolutions included, no expired claim is left |
| `ClaimsLogic.ClaimHeldForItsLease` | cloud/agentbus/src/do-claim.ts:251-299 | a claim is held until its clamped lease ends, over any run of other agents' claims, renewals, releases and of resolutions and reads, and the first operation from the end on removes it |
| `ClaimsLogic.ReleaseOnlyUpgrades` | cloud/agentbus/src/do-claim.ts:326-341 | from a settled table a release changes other claims only from contested to granted, even when it prunes |
| `ClaimsLogic.ExpirySettledIff` | cloud/agentbus/src/do-claim.ts:169-188 | a settled table read later is settled exactly when no live claim has lost all its rivals to expiry, and every grant left is right |
| `ClaimsLogic.SubtableSettledIff` | cloud/agentbus/src/claims-logic.ts:53-59 | a part of a settled table is settled exactly when every contested claim left has a rival left |
| `ClaimsLogic.StaleContested` | cloud/agentbus/src/do-claim.ts:169-188 | two exclusive claims, the first of which expires, leave a stale contested one |
| `ClaimsLogic.ExpiryIsTimeOrder` | cloud/agentbus/src/do-claim.ts:169-181 | a formatted lease is live exactly until its millisecond |
| `ClaimLaws.TwoRequests` | cloud/agentbus/src/do-claim.ts:251-299 | two agents that claim a resource within the first one's lease are both contested exactly when one request is exclusive or both are namespaced with the same trimmed name, both granted otherwise, and the rows carry what was asked for |
| `ClaimLaws.ContestedIff` | cloud/agentbus/src/claims-logic.ts:34-59 | in any settled table a claim is contested exactly when the request behind another row clashes with its own |
| `ClaimLaws.LeaseTtlIs` | cloud/agentbus/src/do-claim.ts:259-264 | a lease is an hour by default, at least a second, at most a day, and otherwise as asked |
| `ClaimLaws.RequestErrorIs` | cloud/agentbus/src/do-claim.ts:253-257 | what a request is refused for |
| `ClaimLaws.ClaimOfCarries` | cloud/agentbus/src/do-claim.ts:266-285 | the claim carries resource, agent, argument, mode, non-empty namespace and scopes of the request |
| `ClaimLaws.ActiveIs` | cloud/agentbus/src/do-claim.ts:169-188 | a read shows exactly the claims whose lease has not passed, oldest first |
| `ClaimLaws.RenewedRow` | cloud/agentbus/src/do-claim.ts:313-318 | a renewal changes lease, time and expiry of one row only |
| `ClaimLaws.ResolvedRow` | cloud/agentbus/src/do-claim.ts:352-354 | a resolution grants the winner and leaves every other claim for review |
| `ClaimObject.ClaimDO.Claim` | cloud/agentbus/src/do-claim.ts:251-299 | the steps produce the state machine's table, settled, with the caller's row in it, whose expiry is the clock plus the clamped lease; errors change nothing |
| `ClaimObject.ClaimDO.Renew` | cloud/agentbus/src/do-claim.ts:301-324 | a renewal succeeds exactly when the agent has a live claim, which then expires at the clock plus the clamped lease |
| `ClaimObject.ClaimDO.Release` | cloud/agentbus/src/do-claim.ts:326-341 | a release succeeds exactly when the agent has a live claim; the answer is read with a later clock |
| `ClaimObject.ClaimDO.Resolve` | cloud/agentbus/src/do-claim.ts:343-373 | a resolution succeeds exactly when a live claim exists, grants only the winner and is itself readable until it expires |
| `ClaimObject.ClaimDO.GetState` | cloud/agentbus/src/do-claim.ts:375-399 | a read prunes, and reports the resolution only while it is live |
| `ClaimObject.ClaimDO.EmitEvent` | cloud/agentbus/src/do-claim.ts:217-232 | events are appended and only the oldest beyond the cap are dropped |
| `ResourceName.AliasesShareObject` | cloud/agentbus/src/claims-logic.ts:127-137 | names that differ in letter case, slash direction or one leading `./` reach one claim object |
| `ResourceName.NormalizeIs` | cloud/agentbus/src/claims-logic.ts:127-137 | the normal form character by character, and the lengths for which there is none |
| `ResourceName.NormalIff` | cloud/agentbus/src/claims-logic.ts:127-137 | a normalized name is its own normal form exactly when it has no further leading `./` |
| `ResourceName.DoubledPrefixSplits` | cloud/agentbus/src/claims-logic.ts:129-129 | a doubled `./` prefix reaches another object than the bare name |
| `Importer.SavedOffsetIsSettled` | cloud/agentbus/tools/import_pg_export.py:195-349 | over any crashes, lost answers, repeated requests, server aborts and other writers, the saved offset covers only rows stored exactly once under their hub or answered as rejected |
| `Importer.FinishedImportIsComplete` | cloud/agentbus/tools/import_pg_export.py:324-349 | when an import finishes, every row of the filtered export is stored exactly once or was answered as rejected |
| `Importer.AnswerSettles` | cloud/agentbus/src/index.ts:826-855 | an answered request leaves each of its items stored once or listed as rejected |
| `Importer.PostKeeps` | cloud/agentbus/tools/import_pg_export.py:150-176 | whatever attempts `post` makes, the store only grows validly and a returned answer settles its batch |
| `Importer.CutAfterBatch` | cloud/agentbus/tools/import_pg_export.py:320-349 | a process that goes on after a batch has the effect of one that dies there and one that resumes at the saved offset, so other writers may come in between |
| `Importer.BlankIdStoresAgain` | cloud/agentbus/src/index.ts:782-784 | the exception: an item with a blank id, sent twice, is stored twice under two minted ids |
| `ImportLaws.PreRejectedIff` | cloud/agentbus/src/index.ts:773-784 | the ids refused before the store are those of items whose validators fail, whose sender is blank or whose id is over 128 characters or holds NUL, and no others |
| `ImportLaws.FaultFreeSoundItemStored` | cloud/agentbus/src/index.ts:826-855 | every other item whose keys are free is accepted and stored under its trimmed id and key with the validated content |
| `ImportLaws.WelcomeItemStored` | cloud/agentbus/src/index.ts:826-855 | an exported item that is sound and that storage does not refuse for good is stored once by an answered request, whatever else it holds |
| `ImportLaws.FinishedImportStores` | cloud/agentbus/tools/import_pg_export.py:320-349 | a finished import has stored such a row exactly once, with no refusal as an alternative, through crashes, lost answers, repeated requests and other writers |
| `ImportLaws.HealthyImportFinishes` | cloud/agentbus/tools/import_pg_export.py:320-349 | while the first attempt of every batch is answered, an import finishes and its offset is at the end of the export |
| `ImportLaws.StartOffsetIs` | cloud/agentbus/tools/import_pg_export.py:195-326 | a run starts at the saved offset exactly when the state file is untouched or bound to this job and its offsets make sense |
| `Importer.ImportProcess.Post` | cloud/agentbus/tools/import_pg_export.py:150-176 | the retry loop has the effect of its attempts |
| `Importer.ImportProcess.ImportMessages` | cloud/agentbus/tools/import_pg_export.py:320-349 | the batch loop has the effect of the run from the saved offset |
| `Validation.TotalCapNeverBinds` | cloud/agentbus/src/validation.ts:356-364 | the total cap never refuses a message: the caps of the fields add up to 345,472 |
| `ValidationLaws.CoreIff` | cloud/agentbus/src/validation.ts:513-560 | a message is accepted exactly when each field is within its cap after trimming and the screened texts pass, and what its content then is |
| `ValidationLaws.BuildIff` | cloud/agentbus/src/index.ts:266-311 | a posted message is stored exactly when its core is accepted, its completed body meets the schema and the screen, and its names are the caller's to use |
| `ValidationLaws.BindHubIs` | cloud/agentbus/src/auth.ts:270-285 | a hub writes under its own name, everyone else under the cloud's, and none may claim another |
| `ValidationLaws.BindAgentIs` | cloud/agentbus/src/auth.ts:213-225 | an agent writes under its own name only |
| `ValidationLaws.AutoFitIs` | cloud/agentbus/src/validation.ts:162-189 | what completing adds to a body, character by character |
| `ValidationLaws.SchemaForIs` | cloud/agentbus/src/validation.ts:148-160 | which schema applies |
| `ValidationLaws.ValidTagsIs` | cloud/agentbus/src/validation.ts:300-331 | which tags are accepted, and that they are kept as they are |
| `PhiLaws.ObviousPhiIff` | cloud/agentbus/src/validation.ts:211-220 | the screen refuses a text exactly when it shows, with no word character around it, a social security number, a labelled record number of four digits or more, a labelled date of birth, or the words patient name or patient id |
| `ValidationLaws.RefusedField` | cloud/agentbus/src/validation.ts:513-536 | which field a request is refused for: the first that is not acceptable |
| `ValidationLaws.EscapedBytesIs` | cloud/agentbus/src/index.ts:266-311 | the bytes JSON takes for each UTF-16 unit of a tag |
| `Validation.ValidateTotalSize` | cloud/agentbus/src/validation.ts:356-364 | the accumulating loop accepts exactly sums up to the cap |
| `Validation.ValidTags` | cloud/agentbus/src/validation.ts:300-324 | accepted tags are at most 64, each of at most 256 units and free of NUL |
| `Validation.UnmarkedPasses` | cloud/agentbus/src/validation.ts:211-220 | a text without a digit or a letter P passes all four PHI patterns |
| `Validation.FittedRefusedIff` | cloud/agentbus/src/validation.ts:97-189 | a fitted body is refused by its schema exactly when it announces a finding without a severity, and fitting is idempotent |
| `RowSize.RowBounded` | cloud/agentbus/src/index.ts:266-311 | no accepted row needs more bytes than the largest request decides (953,947 and its severity), the generated columns (152) and the names of the identity; the severity counts as three characters under the hypothesis on case mapping and as eight otherwise |
| `RowSize.MaxRowReached` | cloud/agentbus/src/index.ts:266-311 | a concrete request, which passes the PHI screen and every cap, reaches that bound for the severity its body is given |
| `RowSize.RowFitsIff` | cloud/agentbus/src/index.ts:266-311 | per identity, every accepted row stays below 2,000,000 bytes if and only if the largest one does |
| `RowSize.SimpleMappingIsShort` | cloud/agentbus/src/validation.ts:172-185 | the hypothesis on case mapping holds for every mapping unit by unit that makes ASCII of ASCII alone |
| `RowSize.LongIdentityOverflows` | cloud/agentbus/src/auth.ts:213-226 | configured names are not capped: with an agent name of 2,000,000 bytes every accepted row exceeds the limit |
| `Excerpt.ExcerptKeepsPoints` | cloud/agentbus/src/excerpt.ts:14-20 | the result consists of exactly the first `max` code points, and an ellipsis only when it cuts |
| `Excerpt.ExcerptWellFormed` | cloud/agentbus/src/excerpt.ts:14-20 | well-formed UTF-16 (section 2.2 of RFC 2781) stays well-formed |
| `Excerpt.FastPathAgrees` | cloud/agentbus/src/excerpt.ts:17-18 | the comparison of lengths never changes the answer |
| `Excerpt.UnitCutSplitsPair` | cloud/agentbus/src/excerpt.ts:4-9 | cutting by units would split a pair |
| `Utf16.EncodedIs` | cloud/agentbus/src/excerpt.ts:14-20 | the byte lengths are those of the UTF-8 encoding of section 3 of RFC 3629, which decoding undoes |
| `DllClosure.CollectRuntimeClosure` | scripts/ci/llvm_cross_qualification.py:216-289 | the worklist terminates; it returns the import closure, transitively closed and with nothing unreachable in it, and fails exactly when some reachable pair is inadmissible |
| `DllClosure.FinishedIsClosure` | scripts/ci/llvm_cross_qualification.py:228-289 | when nothing is pending, exactly the reachable pairs are bound |
| `DllClosure.ClosureHasNoLegacy` | scripts/ci/llvm_cross_qualification.py:24-30 | no bound name is a legacy runtime |
| `DllLaws.ProviderIff` | scripts/ci/llvm_cross_qualification.py:253-278 | an unbundled name is bound to a provider exactly when it leads there and the provider is admitted, unchanged and not a legacy runtime |
| `DllLaws.ProviderRefused` | scripts/ci/llvm_cross_qualification.py:253-278 | a changed, unknown or legacy provider is refused under its own error |
| `DllLaws.AdmissibleIff` | scripts/ci/llvm_cross_qualification.py:228-278 | the checks of a pair, in terms of names, files and providers |
| `DllLaws.BoundProviders` | scripts/ci/llvm_cross_qualification.py:253-289 | every operating-system library of a closure is bound for every importer to an admitted, unchanged provider |
| `DllLaws.BoundFiles` | scripts/ci/llvm_cross_qualification.py:236-252 | every bundled file stays in the package and all its imports are in the closure, none of them a legacy runtime |
| `DllLaws.ArtifactsBound` | scripts/ci/llvm_cross_qualification.py:221-227 | everything an artifact imports is in the closure |
| `PeImports.ReadImports` | scripts/ci/llvm_cross_qualification.py:139-204 | on any bytes the reader ends within 256 descriptors without leaving the buffer, returns exactly the names before the all-zero descriptor, and fails exactly when the bytes list none |
| `PeImports.ListsUnique` | scripts/ci/llvm_cross_qualification.py:139-204 | bytes list at most one sequence of imports |
| `PeImports.RvaToOffset` | scripts/ci/llvm_cross_qualification.py:169-185 | the loop resolves an address in the headers to itself and any other by the first section that contains it, whether or not that one backs it, and fails without one |
| `PeImports.RvaOffsetIff` | scripts/ci/llvm_cross_qualification.py:169-185 | the recursive form used elsewhere gives exactly that result |
| `PeLaws.HeaderIff` | scripts/ci/llvm_cross_qualification.py:146-167 | the reader accepts exactly the bytes with DOS, file and optional header as the format lays them out, lowest byte first, and finds exactly these places |
| `PeLaws.SectionIs` | scripts/ci/llvm_cross_qualification.py:173-177 | the fields of a section header at their offsets |
| `PeLaws.NameAtIff` | scripts/ci/llvm_cross_qualification.py:196-203 | a name is read exactly when the bytes up to the first NUL, at most 511, spell it except for case and it is a library name |
| `PeLaws.DescriptorIs` | scripts/ci/llvm_cross_qualification.py:191-196 | a descriptor of 20 bytes ends the list when all are zero and points to its name at offset 12 |
| `BlobBatch.ParseBlobBatch` | scripts/ci/run-hook-qa.py:171-200 | the loop succeeds exactly on one acceptable record per entry with nothing left over, and returns the bodies under their names, in order |
| `BlobBatch.PrintParseRoundTrip` | scripts/ci/run-hook-qa.py:171-200 | printing the requested blobs and parsing the print returns them in order |
| `BlobBatch.ParseDecides` | scripts/ci/run-hook-qa.py:171-200 | parsing succeeds exactly when the bytes are the concatenation of acceptable records, and then returns their bodies |
| `BlobBatch.AssembledIsPrintedIff` | scripts/ci/run-hook-qa.py:171-200 | accepted output is the print of the requested blobs exactly when every header is canonical |
| `BlobBatch.CanonicalIff` | scripts/ci/run-hook-qa.py:177-185 | an accepted header is canonical exactly when it is single-spaced and its size has no leading zero |
| `BlobBatch.LeadingZeroAccepted` | scripts/ci/run-hook-qa.py:177-184 | a size with a leading zero, which Git never prints, is accepted |
| `BlobLaws.HeaderIff` | scripts/ci/run-hook-qa.py:177-185 | a header is accepted exactly as the requested identity, the word blob and up to 4300 digits, with white space between them and perhaps around |
| `BlobLaws.PrintIs` | scripts/ci/run-hook-qa.py:171-200 | the printed form of a blob, byte by byte |
| `BlobLaws.HashedIs` | scripts/ci/run-hook-qa.py:192-196 | what is hashed for a blob: its type, its size in decimal, a NUL and its bytes |
| `TreeEntries.Entries` | scripts/ci/run-hook-qa.py:143-168 | the filter accepts exactly lists of admissible, distinct names without case aliases, and keeps their order |
| `TreeEntries.AcceptedNeverAlias` | scripts/ci/run-hook-qa.py:155-167 | in an accepted list no path of one entry is a case variant of a path of another |
| `TreeLaws.AdmittedIff` | scripts/ci/run-hook-qa.py:96-168 | a record is admitted exactly as a regular blob with a 40-digit identity whose name has no empty, dot, dot-dot, device or otherwise unusable part between its slashes |
| `TreeLaws.UnsafeIff` | scripts/ci/run-hook-qa.py:96-114 | a canonical name is unsafe exactly for a parent part, a backslash or a colon |
| `TreeLaws.PrefixIs` | scripts/ci/run-hook-qa.py:156-157 | the paths checked for aliases are the name up to each slash, and the name |
| `TreeEntries.AddPrefixes` | scripts/ci/run-hook-qa.py:156-163 | the dictionary loop fails exactly at an alias |
| `HistoryExport.CompleteIffNeverSkips` | packaging/history-export/agent-hub-history-export.py:259-278 | the export is complete up to its last read exactly when no read finds its starting entry trimmed while later entries exist |
| `HistoryExport.AppendOnlyIsComplete` | packaging/history-export/agent-hub-history-export.py:259-278 | with an append-only stream every entry is written once, in order |
| `HistoryExport.PageIs` | packaging/history-export/agent-hub-history-export.py:262-264 | which entries a read takes, in numbers |
| `HistoryExport.WrittenOnce` | packaging/history-export/agent-hub-history-export.py:259-278 | no entry is written twice, whatever is trimmed meanwhile |
| `HistoryExport.TrimmedStartLosesAnEntry` | packaging/history-export/agent-hub-history-export.py:262-264 | a trimmed starting entry loses the next one although the stream still holds it |
| `HistoryExport.ExportStream` | packaging/history-export/agent-hub-history-export.py:259-278 | the loop writes that export and its counters agree with what it wrote |
| `HistoryExport.GzParts` | packaging/history-export/agent-hub-history-export.py:327-344 | the parts concatenate to the file and are filled in turn |
| `Reconciliation.AlwaysAccounted` | packaging/history-export/agent-hub-history-export.py:591-592 | the balance of the id counts always comes out on unique, present ids |
| `Reconciliation.ReleasedIffClean` | packaging/history-export/agent-hub-history-export.py:575-605 | an export is released exactly when both stores have unique, present ids, share one, and Redis is not too far ahead |
| `Reconciliation.ReleasedClaimIs` | packaging/history-export/agent-hub-history-export.py:594-602 | the six figures a released export claims, by membership |
| `Reconciliation.HeldFor` | packaging/history-export/agent-hub-history-export.py:575-594 | which of the reasons an export is held for |
| `Reconciliation.ValidatesIff` | packaging/history-export/agent-hub-history-export.py:1038-1080 | a package validates exactly when its ids are unique and present and the claim and both recorded reconciliations show its figures |
| `Reconciliation.RecountAgrees` | packaging/history-export/agent-hub-history-export.py:1005-1035 | recounting a package gives the export's counts for every division into parts and every reading order |
| `Reconciliation.PackageReconciliation` | packaging/history-export/agent-hub-history-export.py:1005-1035 | the nested loops compute the counts of the rows held |
| `Reconciliation.LostRowIsRefused` | packaging/history-export/agent-hub-history-export.py:1038-1080 | a package that may have lost rows validates exactly when it lost none |
| `Reconciliation.SortedNamesReorder` | packaging/history-export/agent-hub-history-export.py:337-337 | from part 1000 on the sorted names are not in writing order |

## Left out

- RowSize.RowFitsIff: the exact condition takes a hypothesis on `toUpperCase` (`KeywordsAreShort`), because the Unicode case tables are not part of this model.
- Timestamps.ParseFormatRoundTrip: the parser covers the canonical shapes only, because the wider grammar of `Date.parse` is left to the JavaScript engine.
- Retention.RowLifetime: whole days only, because fractional `RETENTION_DAYS` values add nothing but rounding; `presence_history`, deleted by the same statement and cutoff, is outside the run.
- BusLogObject.BusLog.EnsureSchema: a method of its own rather than the first line of every other method.
- ResourceName.AliasesShareObject: ASCII letters only, because the Unicode case tables are not part of this model; `NormalIff` likewise.
- DllClosure.CollectRuntimeClosure: which error is raised first is not stated; DLL names are lowered as ASCII, and resolving an API-set name (`resolve_api_set`, `api_set_namespace`) is a parameter.
- PeImports.ReadImports: which error a malformed image raises is not stated.
- TreeEntries.Entries: starts from split records; `partition` errors of malformed `ls-tree` output are not modelled.
- BlobBatch.ParseBlobBatch: a size of more than 4300 digits, on which Python's `int` raises, counts as a wrong header.
- Importer.Route: an item names the hub of its request, as the import's items do; `StoreLaws.PushRefusesIff` says what becomes of one that names another.
- Importer.FinishedImportIsComplete: rows with a blank id are excepted, for the reason `BlankIdStoresAgain` shows; SHA-256 digests are taken as free of collisions; the presence half, dry runs, a run without a state file and the pauses between attempts are not modelled.
- ClaimObject.ClaimDO.Claim: reroute suggestions, which are never stored, are left out, and whether a resource name is machine-global is a parameter.
- ClaimObject.ClaimDO.Release: the source reads the clock twice; both readings are parameters, and events carry the first. Rows with equal timestamps keep their table order.
- HistoryExport.ExportStream: the stream reads only; side channels, JSON text and gzip bytes are not modelled.
- Storage faults outside message insertion and presence writes: the sync cursor row, retention, rate counters and claims.
- SQL planning and index choice: each SELECT is given by its meaning.
- Tags and metadata as JSON text in the row, including the degrading of an unreadable tags column.
- `AUTOINCREMENT` overflow.
- `listMessagesBatch`, `listNotifications`, `getMessageRecipient`, `listPendingAcks`, `listPresence` and the statistics: reads that would only add easy members.
- HTTP routing, authentication, MCP framing, the web page, the Rust client and the release tooling.

# claw-hub: a model of the refund desk and its proofs

claw-hub runs the refund desk of unattended shops. A customer reports a machine, an owner approves
the claim and pays it by hand, and the same server keeps a stock ledger, sums settlements, limits
request rates and sends alerts. This project models the code that decides when money leaves, and the
code that feeds those decisions, and proves what it keeps over every run.

`dafny verify dfyconfig.toml` checks everything.

## What is modelled

| Modules | Subject |
|---|---|
| `ClaimDomain`, `ClaimStore`, `ClaimSystem`, `ClaimTheorems` | The claim, its transition table, the compare-and-swap on the claims table with its audit log, and any number of admin requests that each read, decide on a private copy and swap, interleaved in any order. A serial system of atomic transitions is the reference. |
| `Risk`, `Intake`, `IntakeTheorems`, `IntakeOutcomes`, `IntakeServer`, `IntakeAlone`, `IntakeRules` | Policy and risk evaluation; submissions that look up a retry key, assess risk, store photos one by one, insert if absent and clean up, interleaved with each other and with the photo purge, with failures anywhere; what each answer means in every run; the same code as the loops it is written in, shown to be the step system run alone; the facts read from the claims table. |
| `Costs`, `Inventory` | Purchase costs with their three integer roundings; stock as a view over two append-only logs. |
| `Paging`, `Cursor`, `Base64`, `Tokens`, `Text`, `Calendar` | Keyset pages; cursor, session and claim-link encodings down to the characters; the Gregorian calendar. |
| `Cache`, `Worker`, `Activity` | The TTL cache, the fixed-window limiter on it, the per-date alert and digest guards, and the sums over a grouped query. |
| `Settlement` | Period, day and machine sums, and the named periods. |
| `Login`, `Trend` | The login lock and the last-account rule; search-trend batches. |
| `Common`, `Sequences` | Option and result types; facts about sequences of any type. |

Instants are nanoseconds since the Unix epoch; a zero Go time and a NULL column are both `None`. The
clock is an argument wherever the source reads it, and so are the outcomes of media and database
calls (`ok`, `dbOk`, `writeOk`, `visible`). A transaction is atomic and its reported result is
taken as truthful (`internal/store/store.go:117-128`). The database session is taken to be in UTC, so
that `date_trunc` cuts at midnight UTC. Integers are unbounded except where Go's 64
bits decide the outcome (`Text.ParseInt`). Go strings are byte strings: characters below 256.

A state-changing piece of the source is a class or a method with the source's loop; its contract ties
the result to a function, and the lemmas are about that function. Schedules are sequences of steps; a
step that is not enabled does nothing, so statements about every sequence are statements about every
interleaving.

## Results that differ from what the code's comments say

- The transition table alone has a cycle (`needs_review` and `on_hold`), so the bound of three
  transitions is a property of the four HTTP actions, not of the table: `ClaimDomain.TableHasNoRanking`
  against `ClaimTheorems.PaidAtMostOnce`.
- `approved` sets no resolution time (`internal/domain/claim.go:374-379`); the row invariant says
  `resolvedAt` is set exactly for the two final statuses. The rule that hides a settled time on a
  rejected claim (`internal/httpapi/public_status.go:120-124`) never has anything to hide in a
  reachable state.
- A retry that overlaps its first attempt can be refused as a rapid duplicate of it:
  `IntakeTheorems.OverlappingRetryRejected`. When that happens is exact
  (`IntakeOutcomes.DuplicateExactly`), and a retry that looks its key up after the commit always gets
  the receipt (`IntakeOutcomes.RetryGetsReceipt`). One claim per key holds for all interleavings.
- The limiter admits at most 2N - 1 requests in an interval as long as the window, and that bound is
  reached: `Cache.IntervalLimit`, `Cache.IntervalLimitIsTight`.
- The stock view equals a running counter only if the clock moves on between a count and the next
  entry of the same name; a purchase in the very same instant is lost: `Inventory.SameInstantIsLost`,
  with the exact condition in `Inventory.PurchaseMovesView` and `Inventory.CountMovesView`.
- A machine is alerted per calendar date, not per 24 hours (`internal/worker/worker.go:40-51`), but the
  key lives for 24 hours from when it is set. So a date brings at most one alert exactly if all its
  checks reach the cache within 24 hours of each other (`Worker.OnceExactly`), which they do if each
  reaches it on its date (`Worker.OneAlertPerDate`); a run that begins on the date and reaches the
  cache later than that alerts again (`Worker.LateRunRepeats`).
- Guessing passwords is slow only while failed logins can be recorded: `Login.GuessingIsSlow` and
  `Login.UnrecordedIsInstant`.
- A claim's stamp is the database's clock and its risk is read by the server's. The duplicate window is
  kept between a stamp and the next risk read always, and between two stamps when the database's clock
  is not behind the server's (`IntakeRules.SerialIntakeRules`).
- "This month" is compared with the span of equal length just before it, which is last month only on
  the day of the month that is last month's length: `Settlement.PreviousIsLastMonth`.
- `SettlementFor` cuts days at midnight UTC while `SettlementRange` names midnights of the server's
  own zone. All of today is counted exactly if the server runs in UTC: `Settlement.TodayIsCounted`.
- A claim link round-trips exactly for non-empty store ids without a colon, a cursor exactly for years
  of four digits: `Tokens.ClaimRoundTrip`, `Cursor.CursorRoundTrip`.

## Model

| member | source | states |
|---|---|---|
| `ClaimDomain.Claim.constructor` | internal/domain/claim.go:298-323 | a private copy starts with exactly the values that were read |
| `ClaimDomain.Claim.TransitionError` | internal/domain/claim.go:345-355 | the move is refused exactly when the table does not list it, and "already there" is told apart |
| `ClaimDomain.Claim.Transition` | internal/domain/claim.go:359-385 | succeeds exactly for a named actor and a listed move; a refusal changes nothing; a success sets status and instants and returns the event with the old status |
| `ClaimDomain.Claim.RecordPayment` | internal/httpapi/admin_claims.go:236-277 | accepted exactly when the route fits the payment method and the amount is within the request; zero stands for the requested amount |
| `ClaimDomain.TableHasNoRanking` | internal/domain/claim.go:329-338 | no ranking of statuses decreases along every listed move |
| `ClaimDomain.MovesExactly` | internal/domain/claim.go:329-338 | the table read by where a claim is going: approval from any open status, rejection from those and an approval, payment from an approval alone |
| `ClaimStore.Store.InsertEvent` | internal/store/claim.go:402-412 | the log only grows, by this event |
| `ClaimStore.Store.ClaimByID` | internal/store/claim.go:221-315 | finds exactly the claim of that id and store, tells a missing claim from a failing database, and logs a named viewer's look and nothing else |
| `ClaimStore.Store.ApplyTransition` | internal/store/claim.go:367-389 | swap and event together or neither; a row with another status, store or id is missed |
| `ClaimStore.Store.HandleTransition` | internal/httpapi/admin_claims.go:279-329 | read, decide and swap in this order give the specified state and answer, with either database call failing |
| `ClaimStore.DecideMeetsAccepts` | internal/httpapi/admin_claims.go:236-329 | the layered checks accept exactly the status sets, routes and amounts of each action, written independently |
| `ClaimStore.MergeIsOutcome` | internal/store/claim.go:367-389 | writing a decided copy over the row it was read from is the serial outcome, although empty arguments keep columns |
| `ClaimStore.OutcomeKeepsRowInv` | internal/domain/claim.go:359-385 | status, resolution time, payment time, route and paid amount stay tied together |
| `ClaimStore.AloneIsSerial` | internal/httpapi/admin_claims.go:279-329 | a request without company succeeds exactly when the database answers and the serial system accepts it, has that effect, and is never stale; every other answer changes nothing |
| `ClaimStore.AnswersExactly` | internal/httpapi/admin_claims.go:236-329 | each answer by plain conditions: no such claim, a payout that does not fit, an unnamed actor or a status the action cannot start from, a failing database |
| `ClaimStore.Handlers` | internal/store/claim.go:289-303 | one pass gives the actors of the last approval and the last payment |
| `ClaimStore.LastWhoIsLast` | internal/store/claim.go:289-303 | that is the name of the actor of the last transition to the status |
| `ClaimStore.NameShown` | internal/store/claim.go:284-303 | a name is the user's own, or the link's label for a nameless one who came by link, or nothing |
| `ClaimSystem.HandlerLowersRank` | internal/httpapi/admin_claims.go:219-237 | each of the four actions moves a claim strictly down |
| `ClaimSystem.SwapIsSerial` | internal/store/claim.go:367-389 | a swap that finds the expected status finds the very row that was read, so a stale copy is never written |
| `ClaimSystem.StepIsSerial` | internal/httpapi/admin_claims.go:279-329 | each step leaves the database alone or performs one allowed serial operation |
| `ClaimSystem.NextKeepsInv` | internal/store/claim.go:363-389 | the invariant of table and requests is inductive, and changed rows have lower rank |
| `ClaimSystem.RunKeepsInv` | internal/store/claim.go:363-389 | every reachable state meets the invariant |
| `ClaimSystem.InterleavingRefinesSerial` | internal/httpapi/admin_claims.go:279-329 | for every interleaving the committed operations, run one at a time, are allowed and give the same table and log |
| `ClaimTheorems.EveryAnswerIsAccounted` | internal/httpapi/admin_claims.go:279-329 | a success answer stands for exactly one transition, the one asked for; any other answer for none |
| `ClaimTheorems.AnswerEffect` | internal/httpapi/admin_claims.go:279-329 | when a request is answered, a success wrote one row and one event and anything else wrote nothing |
| `ClaimTheorems.StaleMeansOvertaken` | internal/store/claim.go:363-389 | a decided request is told "stale" exactly if the claim changed since it was read |
| `ClaimTheorems.UninterruptedIsAlone` | internal/httpapi/admin_claims.go:279-329 | three steps with nothing in between are the handler run alone, failing calls included |
| `ClaimTheorems.RunKeepsHistory` | internal/store/claim.go:367-389 | in every reachable state each claim's events form a legal path from the customer's creation over moves of named actors to its status and instants |
| `ClaimTheorems.PaidAtMostOnce` | internal/domain/claim.go:325-385 | at most three transitions; at most one payment, last and right after the approval; payout fields set exactly when paid, within the amount and on the right route |
| `ClaimTheorems.SuccessIsWritten` | internal/httpapi/admin_claims.go:236-329 | in every interleaving a request told it succeeded has its move in the log under its actor and note, and a recorded payment stays on the claim by the route and to the amount that request said |
| `ClaimTheorems.HandlerIsLastOnTrail` | internal/store/claim.go:367-389 | in every run the handler stored with a claim is the last named user on its trail |
| `ClaimTheorems.LooksAreLogged` | internal/store/claim.go:221-315 | in every interleaving the log holds each named look at a claim and no other, in order |
| `ClaimTheorems.TrailIsInTimeOrder` | internal/store/claim.go:336-361 | with a steady clock the trail is in time order when it is in commit order |
| `ClaimTheorems.ReadBackIsTrail` | internal/store/claim.go:336-361 | sorted by time stamp and then id, as the query sorts it, a claim's events without the looks are exactly the committed legal path, ties included |
| `ClaimTheorems.PaidByIsLast` | internal/store/claim.go:284-303 | on a paid claim the detail page names the actor of the last event as payer and of the one before as approver, whoever looked in between |
| `ClaimTheorems.LaterRunDescends` | internal/httpapi/admin_claims.go:219-237 | however a run goes on, rows stay and only lose rank |
| `ClaimTheorems.LaterRunKeepsClaims` | internal/store/claim.go:367-389 | however a run goes on, no claim changes its id, store, machine, amount, payment method or time of receipt |
| `ClaimTheorems.ViewFollowsTrail` | internal/httpapi/public_status.go:34-137 | the stage is the one the last event of the trail says, and the times shown are the minute of that event, shown exactly when it is final |
| `ClaimTheorems.StageOnlyMovesForward` | internal/httpapi/public_status.go:34-124 | the customer's stage never moves back, a finished answer never changes, a settled time shows exactly at the done stage, and the time of receipt stays the minute the claim came in |
| `Risk.RunEvaluate` | internal/domain/risk.go:59-82 | the loop computes the score, reasons and status of any list of rules |
| `Risk.StatusOverIsTop` | internal/domain/risk.go:84-92 | the status is the strongest among the fired rules |
| `Risk.WeightPermutes` | internal/domain/risk.go:53-82 | the score does not depend on the order of the rules |
| `Risk.OrderIndependent` | internal/domain/risk.go:53-82 | status and score do not depend on the order of the rules |
| `Risk.EvaluateMonotone` | internal/domain/risk.go:49-153 | for every policy, raising a fact never lowers status or score, and the score stays in 0..100 |
| `Risk.PendingIffNothingFired` | internal/domain/risk.go:59-82 | pending, score zero and no reasons hold exactly when no rule fired |
| `Risk.ThresholdsBind` | internal/domain/policy.go:64-66 | an amount that needs a photo is never left pending, and the hold count holds |
| `Risk.StatusExact` | internal/domain/risk.go:102-153 | the status is on_hold, needs_review or pending by two plain conditions on facts and policy |
| `Risk.ScoreExact` | internal/domain/risk.go:102-153 | the score is one explicit capped sum of facts and policy |
| `Risk.ReasonsExact` | internal/domain/risk.go:102-153 | the reasons are one code per ground that applies, in the order of the rules |
| `Intake.NextKeepsInv` | internal/httpapi/public.go:210-280 | one step of any submission or of the purge keeps the placement of every object key, every handler, every claim, the create events and the batch |
| `Intake.RunKeepsInv` | internal/httpapi/public.go:210-280 | every schedule with every failure keeps it |
| `Intake.DuplicateIffYoung` | internal/domain/risk.go:94-100 | with the last claim read from the table, the duplicate rule fires exactly when some stored claim of the phone on the machine is younger than the window |
| `Intake.StatusIsPlain` | internal/domain/risk.go:102-153 | the status read from the stored claims is fixed by the mark, the amount, the account, what was paid, and the number of the phone's claims of the last 30 days plus one |
| `Intake.GateExactly` | internal/httpapi/public.go:148-209 | each answer before the key lookup by plain conditions on amount, machine, issue, photo and the hour's count |
| `IntakeTheorems.OneClaimPerKey` | internal/store/claim.go:96-153 | one claim per store and key in all interleavings, and one receipt for all submissions of a key |
| `IntakeTheorems.EachClaimHasOneCreator` | internal/store/claim.go:96-153 | no two submissions are told they created the same claim |
| `IntakeTheorems.NothingLeaks` | internal/httpapi/public.go:515-524 | without failed deletes no file is orphaned, and a row lacks its file only inside one purge step |
| `IntakeTheorems.QuietMediaMatchesRows` | internal/worker/worker.go:104-121 | when all is quiet and no delete failed, the files are exactly those the photo rows name |
| `IntakeTheorems.UnexpiredPhotosAreStored` | internal/httpapi/public.go:496-535 | whatever fails, an unexpired row has its file and an unexpired claim all its photos |
| `IntakeTheorems.HighAmountsHavePhotos` | internal/httpapi/public.go:197-239 | a claim at or above the review threshold has a photo and was never pending |
| `IntakeTheorems.OneEventPerClaim` | internal/store/claim.go:126-130 | every claim has exactly one create event, in all interleavings |
| `IntakeTheorems.OverlappingRetryRejected` | internal/httpapi/public.go:213-239 | for every policy with a window, a schedule in which a retry that looked its key up before the first attempt was stored is refused because of that very claim |
| `IntakeOutcomes.DuplicateExactly` | internal/httpapi/public.go:213-239 | in every run a submission is answered "duplicate" exactly if its key was free at its lookup and, at its later risk read, a stored claim of the same phone and machine was younger than the window |
| `IntakeOutcomes.RetryGetsReceipt` | internal/httpapi/public.go:210-226 | a retry whose key was stored before its lookup ends with the stored receipt in every run, and so is never a duplicate and never creates a claim |
| `IntakeOutcomes.SmoothIsCreated` | internal/httpapi/public.go:148-280 | in every run a submission whose own steps all go well ends created, with a claim that carries its form, the status called for at its own risk read, the dates of its own insert, exactly the keys it drew as photos, and all of them stored until they expire |
| `IntakeOutcomes.EveryClaimIsBorn` | internal/httpapi/public.go:223-254 | in every interleaving every stored claim has the form of one submission answered with it, the status that its mark, amount and count called for at its risk read, and the dates of its insert |
| `IntakeOutcomes.OthersLeaveNothing` | internal/httpapi/public.go:240-272 | in every run a submission with any other final answer leaves no row, and no file but those whose deletion failed |
| `IntakeServer.Server.WritePhotos` | internal/httpapi/public.go:496-511 | stores the photos before the first that fails, and says whether that was all |
| `IntakeServer.Server.CleanupPhotos` | internal/httpapi/public.go:515-524 | removes every file whose delete succeeds, whatever the others do |
| `IntakeServer.Server.CreateClaim` | internal/store/claim.go:71-154 | claim, photo rows and create event go in together exactly if the key is free; otherwise the holder is returned if the first read, or after one more try the second, sees it, and nothing changes |
| `IntakeServer.Server.StoreSubmission` | internal/httpapi/public.go:240-272 | the state and answer after photos, insert and clean-up, for every combination of failures |
| `IntakeServer.Server.HandleCreateClaim` | internal/httpapi/public.go:148-280 | the state and answer of a whole request: amount, machine, issue, photo and rate checks, key lookup, risk, storing |
| `IntakeServer.Server.RiskFactsFor` | internal/store/query.go:186-236 | the phone's 30-day count and its last claim on the machine are those of the stored claims |
| `IntakeServer.AloneOutcome` | internal/httpapi/public.go:148-280 | alone, a submission is created exactly if every check and call succeeds, its key is free and no claim is too young; it then adds exactly one claim - its form, photos and dates, and the status that mark, amount and count call for - with one event, its rows and files, and otherwise nothing but files whose deletion failed |
| `IntakeServer.AloneReplies` | internal/httpapi/public.go:148-280 | every other answer by plain conditions: the gate's, the receipt of the claim that holds the key, "duplicate" for a free key with a claim too young, failure exactly where a call failed before the end |
| `IntakeAlone.UninterruptedIsAlone` | internal/httpapi/public.go:148-280 | the steps of one submission run with nothing in between do exactly what the handler does |
| `IntakeAlone.StoreStepsAlone` | internal/store/claim.go:71-154 | the same from the risk check on when another submission may have stored the key meanwhile, the second try after a lost insert included |
| `IntakeAlone.PurgeStepsAlone` | internal/worker/worker.go:104-121 | the steps of a purge run with nothing in between do what the worker's loop does |
| `IntakeServer.Server.PurgeExpiredPhotos` | internal/worker/worker.go:104-121 | the loop purges photo by photo and counts the rows it deleted |
| `IntakeServer.PurgeTakes` | internal/worker/worker.go:104-121 | rows go even when files stay, up to the first row that cannot go; the files tried are those rows' and that one's |
| `IntakeRules.StrongestContactStatus` | internal/store/query.go:238-261 | the strongest mark on the phone or the account, normal if there is none |
| `IntakeRules.StrongestExactly` | internal/store/query.go:238-261 | the strongest mark is "blocked" exactly if the store so marked the phone or the account, "watch" exactly if one of them is and neither is blocked |
| `IntakeRules.LastIsLatest` | internal/store/query.go:186-236 | the remembered time is the latest claim of the phone on the machine |
| `IntakeRules.LastIsAttained` | internal/store/query.go:186-236 | and it is the time of such a claim |
| `IntakeRules.PaymentRaisesTotal` | internal/store/query.go:186-236 | paying a claim raises its phone's 30-day total by exactly what was sent, and no other phone's |
| `IntakeRules.SettlingMovesTotal` | internal/store/query.go:186-236 | settling a claim in any way moves its phone's total by what it now counts for less what it did; a paid claim without an amount of its own counts in full |
| `IntakeRules.NothingPaid` | internal/store/query.go:186-236 | without paid claims there is no total |
| `IntakeRules.CeilingBinds` | internal/domain/risk.go:138-145 | a phone sent more than the ceiling gets no claim through as pending |
| `IntakeRules.PhoneCountGrows` | internal/store/query.go:186-236 | a new claim raises its phone's count by one if it is stamped within the 30 days, else not at all |
| `IntakeRules.AccountPhonesGrow` | internal/store/query.go:186-236 | a new claim adds its phone to its account's phones |
| `IntakeRules.FactsIncludeThisClaim` | internal/store/query.go:186-236 | the counts used are the cardinalities after this claim is stored |
| `IntakeRules.SubmitExactly` | internal/httpapi/public.go:148-260 | a submission is stored exactly if amount, photo, key and spacing allow it, with its own details and the status that the sets over the table call for |
| `IntakeRules.SerialIntakeRules` | internal/domain/risk.go:59-153 | one after the other: each claim was assessed a duplicate window after earlier claims of its phone on its machine, and is that much younger unless the database clock is behind; the hold count holds; shared accounts are not pending; high amounts have photos and are not pending |
| `Costs.QuotientBounds` | internal/domain/purchase.go:29-35 | when a rounded quotient is at most or at least a bound |
| `Costs.CostMoves` | internal/domain/purchase.go:41-43 | one more piece costs its price, one more won of shipping one won, and a purchase of two parts what the parts cost |
| `Costs.SpentIsGoodsAndShipping` | internal/domain/purchase.go:37-43 | all money spent is the goods, the price once per piece, and the shipping, once per purchase |
| `Costs.SumsConcat` | internal/store/inventory.go:176-184 | sums over two lists of purchases add up |
| `Costs.SumsPermute` | internal/store/inventory.go:176-184 | the order of the purchases does not matter |
| `Costs.PartsAddUp` | internal/domain/purchase.go:37-43 | bought in one go or in two parts that share the shipping, the sums are the same |
| `Costs.UnitCostsAreNearest` | internal/domain/purchase.go:22-35 | unit cost and average are the one nearest whole number of won, upwards in the middle, of goods and shipping per piece; no pieces cost nothing |
| `Costs.AverageWithinBounds` | internal/store/inventory.go:268-279 | bounds on all rounded unit costs bound the rounded weighted average |
| `Costs.Mediant` | internal/store/inventory.go:268-279 | the average lies between the smallest and the largest rounded unit cost, for every non-empty list |
| `Costs.ValueMonotone` | internal/store/inventory.go:272-279 | more stock is never worth less |
| `Costs.ValueWithinHalf` | internal/store/inventory.go:272-279 | the value is within half a won of the exact share |
| `Costs.ValueAtMostSpent` | internal/store/inventory.go:272-279 | stock within what was bought is worth at most what was spent, unsold stock exactly that |
| `Inventory.Ledger.CreatePurchase` | internal/store/inventory.go:58-106 | one purchase per key; a repeat reads the first one back and adds nothing |
| `Inventory.Ledger.AdjustInventory` | internal/store/inventory.go:296-309 | a count is appended exactly for a name that was bought, with whatever delta was seen |
| `Inventory.Ledger.InventoryFor` | internal/store/inventory.go:228-283 | one row per name ever bought, last bought first, with stock, average, value and the last purchase |
| `Inventory.Ledger.InventorySummaryFor` | internal/store/inventory.go:413-438 | spending of the period, which is goods and shipping (PeriodIsGoodsAndShipping); stock and value over the rows with stock |
| `Inventory.LatestIsTop` | internal/store/inventory.go:194-199 | the count used is the latest by time and id |
| `Inventory.LastIsTop` | internal/store/inventory.go:187-193 | the last purchase shown is the newest by date of purchase and recording |
| `Inventory.PurchaseMovesView` | internal/store/inventory.go:200-212 | a purchase raises its own name's stock by its quantity exactly unless a count at or after it exists |
| `Inventory.PurchaseMovesRow` | internal/store/inventory.go:176-283 | a purchase adds itself to its own row and shows there as the last one exactly if it is the first or newer; no other row moves |
| `Inventory.CountMovesView` | internal/store/inventory.go:200-212 | the latest count sets the stock exactly if nothing was bought after it; any other count changes nothing |
| `Inventory.ViewRefinesCounter` | internal/store/inventory.go:176-222 | over every run in time order the view is the counter "purchase adds, count overwrites", retries included |
| `Inventory.SameInstantIsLost` | internal/store/inventory.go:200-206 | a purchase in the same instant as a count is missing from the view |
| `Inventory.KeysStayUnique` | internal/store/inventory.go:58-94 | no run stores two purchases under one key |
| `Inventory.NotesDoNotMatter` | internal/store/inventory.go:285-295 | recorded deltas and purchase dates do not move the stock |
| `Inventory.RowAverage` | internal/store/inventory.go:257-283 | the average on an item's row lies between the unit costs of two of its own purchases |
| `Inventory.RowExactly` | internal/store/inventory.go:257-283 | a row counts exactly its own purchases, each once; average and value are goods and shipping per piece and the share of them on hand, to the nearest won |
| `Inventory.Grouped` | internal/store/inventory.go:176-184 | any grouping by name key adds up to all that was spent and bought |
| `Inventory.SpendingSplits` | internal/store/inventory.go:413-422 | spending over adjacent periods adds up |
| `Inventory.PeriodIsGoodsAndShipping` | internal/store/inventory.go:413-422 | the spending of a period is the goods, piece by piece, and the shipping of exactly its purchases, each once |
| `Inventory.UnsoldStockIsWorthSpent` | internal/store/inventory.go:411-438 | without counts and with every purchase in the period, stock value equals spending to the won |
| `Inventory.StockAtMostSpent` | internal/store/inventory.go:411-438 | with no item above what was bought, the stock is worth at most what was spent |
| `Inventory.NameKey` | internal/domain/purchase.go:54-63 | the loop builds the key, for any notion of space and lower case |
| `Inventory.KeyConcat` | internal/domain/purchase.go:54-63 | the key of a text is the keys of its parts in order |
| `Inventory.SpacingDoesNotMatter` | internal/domain/purchase.go:45-53 | blanks anywhere leave the key as it was |
| `Inventory.KeyIsLetters` | internal/domain/purchase.go:54-63 | a key is the name's letters in lower case, in order |
| `Inventory.OneItemExactly` | internal/domain/purchase.go:45-63 | two names are one item exactly if they have equally many letters and these agree in order but for their case |
| `Paging.ListClaims` | internal/store/query.go:51-149 | a page is the first rows up to the limit, with a cursor exactly if one more row came |
| `Paging.PageSizes` | internal/store/query.go:52-55 | a page has the size asked for from 1 to 200, and 50 otherwise |
| `Paging.Where` | internal/store/query.go:58-91 | the conditions put together one by one let through exactly the rows of the filter below the cursor |
| `Paging.FilterExactly` | internal/store/query.go:61-83 | a filter shows the claims of its own store that meet each of its criteria on its own; a criterion left empty excludes none |
| `Paging.PeriodsSplit` | internal/store/query.go:76-83 | two adjacent periods show every claim of the whole in exactly one of them, at open and closed ends |
| `Paging.TopExists` | internal/store/query.go:91-105 | the ordered, limited answer of the database exists and is unique |
| `Paging.PagesAreExact` | internal/store/query.go:51-149 | followed to the end, over changing tables and limits, pages descend strictly and show every claim that matched throughout exactly once |
| `Paging.CursorDescends` | internal/store/query.go:140-149 | each cursor is an old row, strictly below the one before |
| `Paging.WalkEnds` | internal/store/query.go:51-149 | with only newer claims arriving, there are at most as many pages as rows at the start |
| `Text.IntRoundTrip` | internal/httpapi/session.go:37-83 | printing and parsing an integer gives it back exactly when it fits 64 bits |
| `Text.IntShape` | internal/httpapi/session.go:37-40 | a printed integer has a minus sign exactly if it is negative and no leading zero |
| `Calendar.CivilRoundTrip` | internal/store/query.go:151-153 | every Gregorian date has its own day number and is found again |
| `Calendar.MonthLength` | internal/store/query.go:151-153 | every month has the length the Gregorian rule gives it |
| `Calendar.Epoch` | internal/store/query.go:151-153 | the first of January 1970 is day 0, a Thursday |
| `Calendar.DaysFollow` | internal/store/query.go:151-153 | every day is followed by the next date of the month, the next month or the next year, and the next day of the week |
| `Base64.RoundTrip` | internal/httpapi/claimtoken.go:46-72 | base64url without padding (section 5 of RFC 4648) decodes to the bytes it encoded |
| `Base64.NoSeparator` | internal/httpapi/claimtoken.go:46-50 | encoded text never holds a character outside the alphabet, so cuts at separators are exact |
| `Base64.DecodesExactly` | internal/httpapi/claimtoken.go:62-72 | a text decodes exactly if it is in the alphabet and leaves no single symbol over, line breaks aside, and is then the encoding of what it decodes to but perhaps for its last symbol |
| `Base64.AlphabetExactly` | internal/httpapi/claimtoken.go:46-50 | the alphabet of table 2 of RFC 4648, symbol and value each other's inverse |
| `Base64.GroupIsOneNumber` | internal/httpapi/claimtoken.go:46-50 | three bytes and their four symbols are one number, to base 256 and to base 64 |
| `Cursor.StampRoundTrip` | internal/store/query.go:151-169 | a printed instant is read back to the nanosecond exactly when its year has four digits |
| `Cursor.StampShape` | internal/store/query.go:151-153 | a stamp has date, "T", clock time, fraction and "Z" in the places of section 5.6 of RFC 3339 |
| `Cursor.StampSays` | internal/store/query.go:155-169 | a text is read as a stamp only if it shows a date and a clock time that exist, in their places, and as the instant they say |
| `Cursor.CursorRoundTrip` | internal/store/query.go:151-169 | so is a cursor, with any id, bars included |
| `Tokens.SessionRoundTrip` | internal/httpapi/session.go:37-83 | a session opens to its user, dots included, exactly until its expiry second; an empty user never |
| `Tokens.SessionOpensExactly` | internal/httpapi/session.go:49-83 | for every text: it opens to a user exactly if it is a non-empty name, a dot, a number not yet past, a dot and a text that decodes to the tag of all before; it is out of date exactly if so sealed over a past number; anything else is refused |
| `Tokens.ForgedSessionRefused` | internal/httpapi/session.go:59-64 | without hash collisions a payload with the tag of any other byte string is refused |
| `Tokens.ClaimRoundTrip` | internal/httpapi/claimtoken.go:46-95 | a claim link opens to its store exactly if the id is non-empty and has no colon, until its expiry second |
| `Tokens.ClaimOpensExactly` | internal/httpapi/claimtoken.go:62-95 | for every text: as a link to a claim it opens to a store exactly if its two parts are a payload that says the store and a number not yet past, and the tag of that payload for that claim |
| `Tokens.SignedIsInjective` | internal/httpapi/claimtoken.go:52-59 | the signed bytes determine claim id and payload, for ids without NUL |
| `Tokens.OtherClaimRefused` | internal/httpapi/claimtoken.go:62-79 | without hash collisions a link shown with another claim's id is refused |
| `Tokens.SessionsAndLinksDiffer` | internal/httpapi/claimtoken.go:23-27 | no session payload is ever the byte string signed for a link |
| `Tokens.LinkTagOpensNoSession` | internal/httpapi/claimtoken.go:23-27 | without hash collisions no session opens with the tag of an issued link |
| `Tokens.SessionTagOpensNoLink` | internal/httpapi/claimtoken.go:23-27 | and no link opens with the tag of an issued session |
| `Cache.Memory.constructor` | internal/cache/cache.go:48-50 | a new cache is empty |
| `Cache.Memory.Sweep` | internal/cache/cache.go:53-59 | exactly the expired entries go |
| `Cache.Memory.Incr` | internal/cache/cache.go:61-75 | counts in the open window or opens one; only opening sets the expiry |
| `Cache.Memory.SetNX` | internal/cache/cache.go:77-93 | stores exactly when there is no live entry, and sweeps a large cache |
| `Cache.Memory.Get` | internal/cache/cache.go:95-104 | finds exactly live entries |
| `Cache.RateLimitPublic` | internal/httpapi/public.go:113-129 | admits while the hour's count is within the limit, and always when the cache fails |
| `Cache.LimiterKeysDiffer` | internal/httpapi/public.go:113-129 | no two addresses, machines, status checks or sign-ups share a counter |
| `Cache.OthersDoNotMatter` | internal/cache/cache.go:52-104 | what an operation is answered depends on the operations on its own key alone, sweeps included |
| `Cache.StoredIsFound` | internal/cache/cache.go:77-104 | a value stored is found under its key and only there until its time runs out, and can be stored again only after |
| `Cache.SweepIsInvisible` | internal/cache/cache.go:52-104 | with a steady clock, dropping expired entries at any moment changes no later answer of any operation |
| `Cache.LaterRequest` | internal/cache/cache.go:61-75 | requests never extend a window: a later one has a higher number in it or a window that opened after it ended |
| `Cache.WindowLimit` | internal/httpapi/public.go:113-129 | at most the limit is admitted per key and window |
| `Cache.AdmittedExactly` | internal/httpapi/public.go:113-129 | a request is admitted exactly if fewer than the limit came before it in its window |
| `Cache.IntervalLimit` | internal/httpapi/public.go:113-129 | in any interval as long as the window, less than twice the limit is admitted, whatever other keys do |
| `Cache.IntervalLimitIsTight` | internal/httpapi/public.go:113-129 | that bound is reached for every limit and window |
| `Cache.AddressLimit` | internal/httpapi/public.go:113-129 | one address gets at most nineteen claims in within any hour, whatever other addresses and limiters do |
| `Worker.Worker.CheckMachineAlerts` | internal/worker/worker.go:44-71 | one key check per machine the cache answers for, and a notice for exactly the new keys |
| `Worker.Worker.Run` | internal/worker/worker.go:131-164 | the ticker loop sends the notices, purges the photos and sends the digests of the specification, with the guard carried from tick to tick |
| `Worker.NotifiedConcat` | internal/worker/worker.go:44-71 | what a tick notifies depends only on the cache it finds |
| `Worker.EventsAre` | internal/worker/worker.go:50-60 | the checks of a tick that reach the cache are exactly those of the machines it answers for, at the tick's date |
| `Worker.AllEventsAre` | internal/worker/worker.go:131-147 | and those of a run exactly the answered checks of its ticks |
| `Worker.SameDateText` | internal/worker/worker.go:51-51 | date texts agree exactly for instants of the same day |
| `Worker.KeysDiffer` | internal/worker/worker.go:51-51 | alert keys agree exactly for the same machine and date |
| `Worker.NoticedExactly` | internal/worker/worker.go:44-71 | over every run a check notifies exactly if its machine was not yet notified for that date, or was more than 24 hours before |
| `Worker.OnceExactly` | internal/worker/worker.go:40-71 | a machine is notified at most once for a date exactly if all its checks for that date reach the cache within 24 hours of each other |
| `Worker.OneAlertPerDate` | internal/worker/worker.go:44-71 | when the checks of a machine for a date reach the cache on that date, its owner is notified at the first of them and at no other |
| `Worker.FirstCheckIsTold` | internal/worker/worker.go:44-71 | in every run each machine the cache answered for has its owner notified at its first check of that date |
| `Worker.OwnersTold` | internal/worker/worker.go:44-71 | an owner is notified in a run exactly if some tick found the machine and the cache answered |
| `Worker.LateRunRepeats` | internal/worker/worker.go:51-52 | two runs of one date, the second begun after the first was over: if it reaches the cache more than 24 hours after the first did, it notifies again |
| `Worker.DigestOncePerDate` | internal/worker/worker.go:152-161 | the digest is tried exactly from nine in Korea on - the first fifteen hours of the day in UTC - and until it succeeded that date |
| `Worker.DaysGoForward` | internal/worker/worker.go:152-161 | no day is reported twice, and reported days go forward |
| `Worker.DigestCoversDayBefore` | internal/store/stats.go:119-130 | the start and end computed from the day before in Korean time hold exactly the instants of that day |
| `Activity.CollectMachines` | internal/store/stats.go:75-91 | the loop adds each row to its machine's total and issue count |
| `Activity.MachinesOverThreshold` | internal/store/stats.go:62-101 | the machines at or above the threshold with their sums, each once |
| `Activity.AlertedMachines` | internal/store/stats.go:62-101 | a machine's sum over the grouped rows is its number of claims in the window, so the machines listed are exactly those with enough claims |
| `Activity.AlertedExactly` | internal/store/stats.go:62-101 | a machine is alerted exactly if as many stored claims as the threshold are at most 24 hours old, and is shown with their numbers, in all and by issue |
| `Activity.IssuesAre` | internal/store/stats.go:75-91 | each issue figure is the number of the machine's claims of that issue |
| `Settlement.SettlementFor` | internal/store/settlement.go:61-156 | totals, previous totals, day rows and machine rows of the truncated period |
| `Settlement.FillDays` | internal/store/settlement.go:92-131 | the loop gives one row per day of the period, zero where the query has none |
| `Settlement.MarkMachines` | internal/store/settlement.go:133-155 | one marked row per active machine |
| `Settlement.SplitPeriod` | internal/store/settlement.go:74-96 | a period cut in two adds up in every figure |
| `Settlement.DaysAddUp` | internal/store/settlement.go:98-131 | day rows add up to the period's count and refund total |
| `Settlement.PeriodFigures` | internal/store/settlement.go:61-131 | contiguous days that add up to the totals, and a previous period adjacent, as long, and adding up with this one |
| `Settlement.StatusesAddUp` | internal/store/settlement.go:76-96 | open, approved, rejected and paid make up the claims; cash and card fall short of the paid ones by exactly those with an unknown method |
| `Settlement.StatusMoves` | internal/store/settlement.go:74-90 | a claim of the period that changes its status moves the refund total by exactly the amount it asks for, each count by exactly itself, cash and card by how it was paid, and nothing in any other period |
| `Settlement.StatusMovesMachine` | internal/store/settlement.go:134-154 | and on the machine rows its own machine's refunds by the same amount, and no other figure |
| `Settlement.CountsAreExact` | internal/store/settlement.go:74-90 | every count is the number of the period's claims in the state named |
| `Settlement.MachineRowsExactly` | internal/store/settlement.go:134-154 | a machine's row counts the period's claims on it and is marked exactly if they reach a positive alert count |
| `Settlement.RefundsArePaid` | internal/store/settlement.go:74-90 | the refund total is zero exactly if nothing in the period is paid, and at least one won per paid claim |
| `Settlement.MachinesAddUp` | internal/store/settlement.go:134-154 | machine rows and the claims on machines left out make up the period |
| `Settlement.MachinesAtMostTotal` | internal/store/settlement.go:134-154 | machine rows never exceed the period, and reach it exactly if no claim is on a machine left out |
| `Settlement.RowsCarrySums` | internal/store/settlement.go:147-154 | the rows on screen carry those sums |
| `Settlement.CurrentRanges` | internal/store/settlement.go:162-177 | on every date this month starts on its first, the week on a Monday at most six days back, and both end today |
| `Settlement.LastMonthIsWhole` | internal/store/settlement.go:162-177 | on every date last month is one whole calendar month that ends the day before this one starts |
| `Settlement.PreviousIsLastMonth` | internal/store/settlement.go:64-67 | the period compared with is last month exactly on one day of the month |
| `Settlement.TodayIsCounted` | internal/store/settlement.go:62-66 | all of today is counted exactly if the server's zone is UTC |
| `Login.Users.RecordLoginFailure` | internal/store/user.go:224-236 | the fifth failure and every later one sets a new lock |
| `Login.Users.Authenticate` | internal/store/user.go:176-219 | lock, then activity, then password, with the count raised or cleared |
| `Login.Users.SetPassword` | internal/store/user.go:71-100 | a password of 8 characters and at most 72 bytes is taken for a known e-mail and clears count and lock |
| `Login.Users.SetUserActive` | internal/store/user.go:147-170 | refused when no other account of the store is active; otherwise sets that account of that store |
| `Login.AttemptOutcome` | internal/store/user.go:176-219 | who is let in, locked out, refused or failed, by plain conditions; unknown e-mail, inactive account and recorded wrong password are told the same |
| `Login.AttemptEffect` | internal/store/user.go:196-236 | an attempt touches only its own account's count and lock, up by one with a lock from the fifth on, or cleared |
| `Login.ResetUnlocks` | internal/store/user.go:71-100 | a new password that is taken lets its owner in at once, whatever lock was running |
| `Login.SwitchOutcome` | internal/store/user.go:147-170 | the last active account stays; an account switched off is never let in; no other account moves |
| `Login.OnlyRightPasswordsOpen` | internal/store/user.go:176-219 | in every run whoever is let in gave the right password for the account they are taken for |
| `Login.LetInExactly` | internal/store/user.go:176-236 | over every run from a table without failures an attempt is let in exactly if the account exists and is active, the password is right, fewer than five wrong ones were recorded since the last restart or fifteen minutes passed since the last, and any could be cleared |
| `Login.LockHolds` | internal/store/user.go:192-194 | while the lock of a streak runs, every attempt is told so, a right password included |
| `Login.RunKeepsLock` | internal/store/user.go:176-236 | from the fifth recorded miss on, the lock keeps pace with the number of recorded misses |
| `Login.RecordedMissesAreSlow` | internal/store/user.go:196-236 | a wrong comparison after n recorded ones of its streak comes at least (n - 4) * 15 minutes after the streak began, recorded itself or not |
| `Login.GuessingIsSlow` | internal/store/user.go:33-38 | while failures can be recorded, the k-th wrong comparison in a row comes at least (k - 5) * 15 minutes after the first, for every k and timing |
| `Login.UnrecordedIsInstant` | internal/store/user.go:204-209 | while the database refuses to record failures, any number of wrong comparisons can follow each other at one instant |
| `Login.BoundIsMet` | internal/store/user.go:196-236 | the next comparison can come the moment the lock runs out, and none before |
| `Login.SomeoneCanLogIn` | internal/store/user.go:147-170 | one request at a time, a store keeps an active account |
| `Trend.TrendBatches` | internal/domain/character.go:233-256 | the two loops compute the batches of the list without the anchor |
| `Trend.RestConcat` | internal/domain/character.go:236-241 | dropping the anchor keeps the order |
| `Trend.RestKeepsOthers` | internal/domain/character.go:236-241 | every character with another code stays as often as it was listed |
| `Trend.BatchesCover` | internal/domain/character.go:246-255 | each batch starts with the anchor and holds two to five; tails put together are the list; no batch but the last is short |
| `Trend.AnchorOnce` | internal/domain/character.go:225-241 | nothing behind the head of a batch has the anchor's code |
| `Trend.NormalizeTrend` | internal/domain/character.go:265-274 | divides every figure by the anchor's, or refuses |
| `Trend.OneScale` | internal/domain/character.go:258-274 | figures of differently scaled requests come out on one scale, in the order of the searches |

## Left out

- HTTP, JSON, multipart forms, cookies, headers and wording: only the class of each outcome is kept.
- The web front end, Slack, web push, QR codes, payout deep links, the market, contacts and home screens.
- Encryption and key derivation; the keyed hash is an arbitrary function, and a password comparison is an oracle.
- PostgreSQL, migrations and Redis: tables are maps, sets and sequences with atomic transactions. Lock waits and isolation levels below that are not modelled.
- The file system below `Local.Put` and `Local.Delete` (`internal/media/local.go:43-113`): a file is stored whole or not at all.
- Process crashes between two steps of a submission, and the loss of the digest guard on a restart.
- More than one purge worker at a time.
- Photo rows have ids of their own in the source; here they are indexed by their object key, which is drawn fresh.
- Claim ids are ordered like natural numbers, which is how UUIDs compare; the id of an audit event is its place in the log.
- In the step system of submissions the paid total, the shared-account count and the marks of a risk read are arbitrary; the last claim and the phone's count are read from the stored claims.
- Score and reasons are not stored with the modelled claim; `Risk.ScoreExact` and `Risk.ReasonsExact` say what they are.
- The e-mail of `Login.Users.SetPassword` is the one already trimmed and lowered.
- Messages attached to risk reasons, `comma`, and the lists of issues, banks, regions and characters.
- 32-bit overflow of the SQL product of unit price and quantity.
- The order of the machine rows on the settlement screen, and the DST rules of zones without a fixed offset.
- `DailyStats` (`internal/store/stats.go:23-47`), which sums what was sent; settlements sum what was requested, so the two are not compared.
- Listings, suggestions and profile edits: they would only add easy members.
- Cursor.StampRoundTrip: the parser reads only stamps in UTC as the printer writes them; the library's also accepts other offsets.
- Login.GuessingIsSlow: for one request at a time only, because the count is read and written in two statements, and overlapping failures can share one count.
- Login.LetInExactly: for one request at a time only, for the same reason.
- Login.SomeoneCanLogIn: for one request at a time only, because the check and the update are two statements.
- IntakeRules.SerialIntakeRules: for submissions one after the other only, because the risk read and the insert are separate steps; `IntakeOutcomes.DuplicateExactly` says what holds for overlapping ones.
- Trend.OneScale: over real numbers; the rounding of floating point is not modelled.

# Verified model of the inventory platform's stateful core

This project models, in Dafny 4.11, the parts of the repository whose correctness depends on state: the
purchasing procedures and the stock ledger, idempotent requests, the job queue, the incremental warehouse load,
the type 2 dimension merges, the in-process cache, the login lockout, the audit hash chain and the reporting
hierarchy. `dafny verify dfyconfig.toml` checks everything.

Each component comes in the source's own form. A stored procedure, a loop or an object method is a method of a
class over mutable fields, proved equal to a specification function on the old state. What the repository promises
is then proved about those functions: over every run, every interleaving of their atomic steps, every input.

| files | component |
|---|---|
| `Purchasing`, `PurchasingInvariants`, `PurchasingRuns`, `PurchasingEffects`, `StockLedger`, `StockClients` | orders, products, movements, goods receipts; the clients in front of them |
| `Idempotency`, `ExactlyOnce` | the request wrapper as a protocol among concurrent requests, and its composition with the receive route and the receipt key |
| `JobQueue`, `JobQueueResults`, `JobClaims`, `JobWorker` | the queue protocol with late workers, split claims, the worker |
| `Etl`, `EtlConvergence`, `EtlRun`, `StockWalk` | fact tables under crashes and replays, the staged run, the backward stock walk |
| `Scd`, `ScdAsOf` | versioned dimensions and as-of queries |
| `TtlCache`, `LruInclusion`, `SingleFlight`, `CacheKeys`, `CacheBusts` | the cache object, its eviction order, threads in `get_or_set`, key printing, busts after writes |
| `Lockout` | the two failure counters |
| `AuditChain`, `AuditHistory` | trigger, backfill and verifier of the audit log; histories of them with purges and late ids |
| `Hierarchy`, `HierarchyRequests` | the bounded walk and the cycle guard; requests whose lookups and writes interleave |
| `Options`, `Sums` | optional values; sums over sequences and a few set facts used by the others |

## Steps and time

A statement or a cursor block that commits is one atomic step; processes interleave around those steps. Clock
readings, dates, the results of handlers and views, and failures to commit are parameters of the steps, so that a
theorem over all runs covers all of them. A clock is constrained only where a theorem says so. SHA-256 is an
arbitrary injective function with non-empty results, and password hashing a parameter that says whether the
password was right.

## Where the code differs from what is said about it

These are proved, each with the exact condition under which the promise holds or the exact bound that does.

- A receive is applied at most once, not exactly once: the refusal of an early request is answered by a redirect,
  which is recorded and replayed for good (`ExactlyOnce.RefusalIsReplayed`). It is exactly once if and only if some
  call before the record met the procedure's guard (`ExactlyOnce.ExactlyOnceExactly`).
- A job with `max_attempts` m can be claimed 2m-1 times when late workers settle rows that others have claimed
  again (`JobQueueBounds.ClaimsBounded`, `JobQueueResults.BoundIsReached`); each claim beyond m takes a stale requeue
  of that job (`JobQueueResults.ClaimsByRequeues`).
- A full rebuild of the facts reads up to today and then moves the watermark past everything: movements dated later
  are lost until a later run covers their day (`EtlConvergence.FullRebuildExact`).
- A movement that commits below the watermark is not counted by the next runs: its day is wrong if and only if its group
  has no row yet or it adds units to it (`EtlConvergence.LateExactly`), until a run rebuilds that day.
- The backward stock walk ignores RETURN and ADJUSTMENT, which the ledger counts (`StockWalk.WalkExact`).
- The supplier merge misses a `lead_days` that becomes NULL or stops being NULL (`ScdAsOf.SupplierMisses`), the
  warehouse merge reopens every version each time (`ScdAsOf.WarehousesAlwaysGrow`), and a reused SKU of a
  soft-deleted product gives two current versions unless the merge keeps the one it finds (`ScdAsOf.UniqueKeysExact`).
- The API's cached product lists are not reached by movement and order busts (`CacheBusts.ApiProductsReached`), and can
  stay stale for up to two minutes, not longer (`CacheBusts.ApiStaleTwoMinutes`).
- Cache keys collide: a call shares its key with a different plain call if and only if it is not plain, that is, some
  value `v` of a parameter `k` reads `x|l=y` for a later name `l` (`CacheKeys.PlainForm`); among plain calls equal keys
  mean equal parameters (`CacheKeys.PlainKeysExactly`). A product search can be such a value
  (`CacheKeys.SearchCollides`).
- Nine failed logins, not five, fit into 15 minutes (`LockoutRuns.NineIsReached`), and never more (`LockoutRuns.AtMostNine`).
- Audit ids are drawn before the chain lock is taken, and a late insert breaks the chain
  (`AuditHistory.LateInsertExactly`): until rows are purged, a log is clean if and only if ids came in lock order
  (`AuditHistory.CleanInLockOrderExactly`).
- The retention purge deletes audit rows by creation time, which is the start of their transaction and need not follow
  the ids: a gap it leaves breaks the chain (`AuditHistory.PurgeExactly`).
- The cycle guard looks 50 links up and no further (`HierarchyResults.LongLineCloses`,
  `HierarchyResults.AcceptedKeepsAcyclicExactly`), and two requests that look before either writes can close a cycle
  (`HierarchyRequests.CrossedRequests`): a write closes one if and only if its user is above the manager by then, which
  takes a link on that way written since the request first looked (`HierarchyRequests.WriteExactly`).

## Model

| member | source | states |
|---|---|---|
| `Purchasing.Tables.MovementRecord` | migrations/versions/20260925_db_integrity_fixes.py:34-75 | one movement: the ledger row and the stock change together or not at all, each refusal in the procedure's order and that of the table's check on the quantity; proved to be the specification's outcome on the tables |
| `Purchasing.Tables.PoCreate` | migrations/versions/20261103120953_po_receive_functions.py:22-42 | an order is inserted under the table's checks and counted in on_order only when born approved or in transit; a failed check leaves every table as it was |
| `Purchasing.Tables.GoodsReceiptCreate` | app/database/procedures.sql:1454-1484 | a receipt row, the refusal of an unknown user, or no row for a key that is already there |
| `Purchasing.Tables.PostReceipt` | migrations/versions/20261103120953_po_receive_functions.py:118-131 | the part of a receive behind the receipt row: received units, ledger row, stock, on_order and status in one outcome |
| `Purchasing.Tables.ReceiveGoods` | migrations/versions/20261103120953_po_receive_functions.py:85-131 | a receive with its bounds, its receipt, the replay of a key and the refusal of a reused one; a refusal after partial work restores every table |
| `Purchasing.Tables.PoTransition` | migrations/versions/20261103120953_po_receive_functions.py:47-156 | the whole seven-argument transition, including the idempotent re-apply, the illegal moves and the cancel of a partly received order |
| `Purchasing.Tables.MovementSoftDelete` | migrations/versions/20261012_soft_delete_ops.py:41-46 | a soft-deleted movement only gets its mark: no stock is reversed |
| `Purchasing.Tables.PoSoftDelete` | migrations/versions/20261012_soft_delete_ops.py:48-53 | a soft-deleted order only gets its mark and stays counted in on_order |
| `PurchasingInvariants.OutstandingCovered` | migrations/versions/20261103120953_po_receive_functions.py:128-140 | on_order of the product is never less than what an open order still has outstanding, so neither clamp at zero ever fires |
| `PurchasingInvariants.CreateKeeps` | migrations/versions/20261103120953_po_receive_functions.py:22-42 | creating an order keeps all the invariants and every product's opening stock and on_order surplus |
| `PurchasingInvariants.RecordKeeps` | migrations/versions/20260925_db_integrity_fixes.py:34-75 | a committed movement keeps all the invariants, moves stock by exactly the ledger row and leaves on_order alone |
| `PurchasingInvariants.ReceiveBooks` | migrations/versions/20261103120953_po_receive_functions.py:85-131 | a receive that commits and is no replay books exactly its units in order, ledger, receipts, stock and on_order, with no clamping |
| `PurchasingInvariants.TransitionKeeps` | migrations/versions/20261103120953_po_receive_functions.py:62-155 | every committed transition, whatever its arguments, keeps all the invariants and both conserved quantities |
| `PurchasingInvariants.DeletesKeep` | migrations/versions/20261012_soft_delete_ops.py:41-53 | both soft deletes keep all the invariants and both conserved quantities |
| `PurchasingInvariants.RunConserves` | migrations/versions/20261103120953_po_receive_functions.py:22-155 | over any run of create, transition, receive, cancel, movement and soft-delete steps: stock minus the signed ledger, and on_order minus the outstanding units of open orders, never change |
| `PurchasingRuns.TotalsAgree` | migrations/versions/20261103120953_po_receive_functions.py:79-142 | from empty tables on_order is exactly the outstanding units of the approved and in-transit orders, and stock is the opening stock plus the signed ledger and never negative |
| `PurchasingRuns.OrderAccount` | migrations/versions/20261103120953_po_receive_functions.py:85-152 | per order: received units are the IN units recorded for it, its receipts are the units recorded with a user, received never exceeds quantity, and the status is received exactly when they are equal |
| `PurchasingRuns.TransitionDescends` | migrations/versions/20261103120953_po_receive_functions.py:62-155 | each transition that changes an order lowers (lifecycle rank, outstanding units) |
| `PurchasingRuns.StepDescends` | migrations/versions/20261103120953_po_receive_functions.py:62-155 | every step leaves an order alone or lowers that measure and its remaining budget of moves |
| `PurchasingRuns.MovesBounded` | migrations/versions/20261103120953_po_receive_functions.py:62-155 | so an order sees at most its quantity plus two effective moves in its life |
| `PurchasingRuns.SpentKey` | migrations/versions/20261103120953_po_receive_functions.py:104-115 | a receive with a key already on a receipt changes no table |
| `PurchasingRuns.EffectSpendsKey` | migrations/versions/20261103120953_po_receive_functions.py:97-116 | a receive with a key that changes anything has put the key on a receipt |
| `PurchasingRuns.EffectExactly` | migrations/versions/20261103120953_po_receive_functions.py:70-131 | a keyed receive changes the tables if and only if the order is live and in transit, the units are between 1 and what is outstanding, the user is known, the key is unused and the product is live; then it books exactly those units |
| `PurchasingRuns.KeyAppliesOnce` | migrations/versions/20261103120953_po_receive_functions.py:97-116 | in any run, of all receives with one key at most one changes the tables, and dropping the others gives the same tables |
| `PurchasingEffects.RecordExactly` | migrations/versions/20260925_db_integrity_fixes.py:34-75 | a movement commits exactly for a live product, a known type, enough stock, a positive quantity and a known user; IN, RETURN and ADJUSTMENT add their units, OUT takes them off, and nothing else moves |
| `PurchasingEffects.RecordRefusals` | migrations/versions/20260925_db_integrity_fixes.py:44-62 | and the check that fails first is the one reported |
| `PurchasingEffects.StockByType` | migrations/versions/20260925_db_integrity_fixes.py:52-71 | after any run from empty tables stock is the opening stock plus the units of all IN, RETURN and ADJUSTMENT rows minus those of all OUT rows |
| `PurchasingEffects.StockMovesByType` | migrations/versions/20260925_db_integrity_fixes.py:52-71 | from any consistent tables a run moves stock by the units of each type it adds, with those signs |
| `PurchasingEffects.CreateExactly` | migrations/versions/20261103120953_po_receive_functions.py:22-42 | exactly when an order is created, and the row and the on_order it leaves |
| `PurchasingEffects.ApproveExactly` | migrations/versions/20261103120953_po_receive_functions.py:79-84 | approving works exactly on a live draft and puts its whole quantity on order |
| `PurchasingEffects.ShipExactly` | migrations/versions/20261103120953_po_receive_functions.py:71-77 | shipping works exactly on a live approved order and changes its status alone |
| `PurchasingEffects.CancelExactly` | migrations/versions/20261103120953_po_receive_functions.py:133-155 | cancelling works exactly on a live draft, approved or in-transit order; what an approved or in-transit one still had outstanding leaves on_order, what was received stays |
| `PurchasingEffects.NeverBack` | migrations/versions/20261103120953_po_receive_functions.py:71-77 | no transition leads to draft or to an unknown status |
| `PurchasingEffects.ReceiveExactly` | migrations/versions/20261103120953_po_receive_functions.py:85-131 | a receive, with or without units, user and key, changes the tables exactly when the order is live and in transit, the units fit, the product is live, the user known and the key unused; then it books its units, or the whole quantity if none are named |
| `PurchasingEffects.MoveRefusals` | migrations/versions/20261103120953_po_receive_functions.py:62-77 | which transitions are refused as unknown orders or illegal moves, and that asking for the present status succeeds and changes nothing |
| `PurchasingEffects.ReceiveRefusals` | migrations/versions/20261103120953_po_receive_functions.py:85-116 | which receives are refused for their units, user or key, in this order, and that a replay succeeds and changes nothing |
| `StockClients.Serve` | app/services/movement_service.py:31-72 | one request of the service: an early refusal on the row it read leaves the tables alone, otherwise the locked step alone decides, and the balance it reports comes from that read |
| `StockClients.ClientMoves` | app/services/movement_service.py:41-72 | a client's step moves the stock by exactly what its own committed movement says |
| `StockClients.OtherMoves` | migrations/versions/20261103120953_po_receive_functions.py:62-155 | any other purchasing step, receipts included, moves the stock by exactly what it puts on the ledger |
| `StockClients.NoLostUpdates` | migrations/versions/20260925_db_integrity_fixes.py:44-71 | any number of clients interleaving the stale check and the locked record with each other and with all other steps: final stock is the starting stock plus the clients' committed movements plus what the others put on the ledger, never negative |
| `StockClients.FreshCheckIsExact` | app/services/movement_service.py:36-58 | on a balance that did not change in between, the early check passes exactly when the locked step commits |
| `StockClients.ReadExactly` | app/services/movement_service.py:31-58 | the early check passes exactly for a known type, a positive quantity, a live product and, for an OUT or an ADJUSTMENT, a balance that stays at zero or above |
| `Idempotency.KeyStore.ReserveKey` | migrations/versions/20260926_idempotency_reserve.py:18-30 | the caller owns the key exactly when no row was there; the row starts without a response |
| `Idempotency.KeyStore.CheckKey` | app/utils/idempotency.py:38-45 | the recorded response, or nothing for a missing or merely reserved key |
| `Idempotency.KeyStore.RecordKey` | app/utils/idempotency.py:61-64 | a committed record stores the response, a failed one changes nothing |
| `Idempotency.KeyStore.ReleaseKey` | app/utils/idempotency.py:67-79 | only a reservation without response is deleted |
| `Idempotency.KeyStore.Handle` | app/utils/idempotency.py:104-180 | the whole wrapper around one request: who executes, what is answered, and the key row it leaves, which is that of the protocol's own steps |
| `Idempotency.ScriptRows` | app/utils/idempotency.py:119-178 | the row left by one undisturbed request in each outcome of its view, record and release |
| `Idempotency.RequestAndRetry` | app/utils/idempotency.py:104-180 | two requests with one key: after a JSON success with status 200 to 299, or a redirect 301, 302, 303, 307 or 308 with a location, whose record committed, the retry executes nothing and gets that payload or redirect; after anything else it executes again if the key was released and is told to wait if not |
| `Idempotency.OneInFlight` | app/utils/idempotency.py:117-180 | any number of interleaved requests with crashes and failed releases: per key and user at most one execution is in flight, and executions started exceed releases by at most one |
| `Idempotency.RecordedIsFinal` | app/utils/idempotency.py:117-135 | once a response is recorded no execution of that key and user starts again, the response never changes, and every later request ends in that response or crashes |
| `ExactlyOnce.TablesSeeARun` | app/routes/ui.py:971-1022 | however requests, stale reads and other steps interleave, the tables go through whole procedure calls only |
| `ExactlyOnce.HttpSeesARun` | app/utils/idempotency.py:104-180 | and the key table goes through the protocol's steps only |
| `ExactlyOnce.ReceiveAppliesOnce` | migrations/versions/20261103120953_po_receive_functions.py:62-116 | one client key, any number of concurrent or sequential retries, releases and crashes: at most one receive has an effect, and the tables are those of the run without the others |
| `ExactlyOnce.StaleReadsAreHarmless` | app/services/po_service.py:81-126 | whatever the route and the service read before the call, the purchasing invariants and both conserved quantities survive |
| `ExactlyOnce.ServeReceive` | app/services/po_service.py:81-126 | one receive of the service: its checks on what it read refuse without touching the tables, or the procedure alone decides |
| `ExactlyOnce.SizeExactly` | app/routes/ui.py:971-1004 | the route goes on with the units asked for, or with all that is outstanding, when that is positive |
| `ExactlyOnce.PreCheckExactly` | app/services/po_service.py:81-126 | the service goes on exactly for a known user and a live order in transit with the units outstanding |
| `ExactlyOnce.FreshReadsBook` | app/services/po_service.py:81-126 | on tables that do not change in between, a request with a fresh key for a live product that passes both reads books its units |
| `ExactlyOnce.RecordedStopsCalls` | app/utils/idempotency.py:119-135 | after a response is recorded no request of that key and user calls the tables again |
| `ExactlyOnce.ExactlyOnceExactly` | app/routes/ui.py:971-1022 | once a slot holds a response, the receives issued through it take effect exactly once over every continuation if and only if some call of the slot met the procedure's guard before the record, and never if none did |
| `ExactlyOnce.RefusalHidesAReceive` | app/utils/idempotency.py:119-135 | if none did, no continuation receives anything through the slot, even in tables where the procedure would book the goods |
| `ExactlyOnce.RefusalIsReplayed` | app/routes/ui.py:1005-1022 | that happens, for every key, user and quantity: the redirect that refuses an early receive is recorded and replayed after the order has shipped |
| `JobWorker.Worker.EnqueueJob` | app/database/procedures.sql:1294-1314 | a pending row due now or after a positive delay |
| `JobWorker.Worker.RequeueStale` | app/worker.py:34-61 | the loop over stale running rows is the protocol's stale step, and its count is the number of rows touched |
| `JobWorker.Worker.PickNext` | app/worker.py:75-80 | the best due row not yet taken: no other due row comes before it |
| `JobWorker.Worker.SelectDue` | app/worker.py:75-80 | a batch: due pending rows, at most the limit, in (priority desc, created_at) order, and none left out that comes earlier |
| `JobWorker.Worker.MarkRunning` | app/worker.py:81-86 | marking the batch row by row is the claim of the whole batch |
| `JobWorker.Worker.ClaimJobs` | app/worker.py:64-87 | the returned jobs are such a batch with their snapshots, and the table ends as after one claim step |
| `JobWorker.Worker.ExecuteJob` | app/services/job_queue_service.py:84-134 | one execution is the protocol's begin and then complete or fail step of that claim, guarded by the row's status only |
| `JobWorker.Worker.Tick` | app/worker.py:90-102 | one poll cycle is a run of the protocol that starts with the stale step and a claim and executes every claimed job |
| `JobQueueBounds.ClaimsBounded` | app/services/job_queue_service.py:83-134 | any number of workers, any interleaving, late settlements included: a job with limit m is claimed at most 2m-1 times and its attempts never exceed 2m-1 |
| `JobQueueBounds.SpentBound` | app/services/job_queue_service.py:116-134 | each settlement that asked for a retry used up a different snapshot below the limit |
| `JobQueueBounds.RoomForClaim` | app/worker.py:75-86 | a pending row has room for one more claim, with a snapshot above all earlier ones |
| `JobQueueResults.FinalRowsStay` | app/services/job_queue_service.py:98-134 | a completed or dead row never changes again |
| `JobQueueResults.StaleExactly` | app/worker.py:45-58 | a requeue touches exactly the jobs that have run for more than ten minutes: one more attempt, and pending at once, or dead when that was the last |
| `JobQueueResults.EnqueueExactly` | app/database/procedures.sql:1294-1314 | a new job is pending, untried, and due now or after its delay |
| `JobQueueResults.BeginExactly` | app/services/job_queue_service.py:84-97 | a begin starts the row if it is pending and changes nothing otherwise |
| `JobQueueResults.FailExactly` | app/services/job_queue_service.py:116-134 | a failure of a running job: dead when the attempt the worker claimed was the last, otherwise pending again, one minute later for every attempt made; any other row stays |
| `JobQueueResults.CompleteExactly` | app/services/job_queue_service.py:98-115 | a success completes a running job, and only that |
| `JobQueueResults.PendingWaits` | app/worker.py:75-80 | nothing moves a pending job before its time but a worker that claimed it earlier and begins only now |
| `JobQueueResults.ClaimsByRequeues` | app/worker.py:45-58 | over every interleaving a job is claimed at most m times (once for a limit below one) plus once for each stale requeue that put it back to pending |
| `JobQueueResults.NominalLimit` | app/services/job_queue_service.py:83-134 | a job that no requeue found stale, however often requeues ran, is claimed at most m times |
| `JobQueueResults.OneHandAtATime` | app/worker.py:64-87 | and is in at most one worker's hands at a time, with a current snapshot and attempts within the limit |
| `JobQueueResults.RequeuesBounded` | app/worker.py:45-58 | a job is put back to pending by fewer than m stale requeues |
| `JobQueueResults.EveryBoundIsReached` | app/worker.py:45-58 | for every m >= 1 and every r < m a run with exactly r requeues of the job claims it m + r times: the bound by requeues is tight throughout |
| `JobQueueResults.BoundIsReached` | app/worker.py:45-58 | for every m >= 1 a history with late workers reaches 2m-1 claims and attempts: the general bound is tight |
| `JobClaims.SplitRefinesAtomic` | app/worker.py:64-87 | claims split into lock, mark and commit by any number of concurrent claimers: open batches are disjoint and intact, and the committed queue goes through whole claims only |
| `JobClaims.CommitTakesWholeBatch` | app/worker.py:74-87 | at commit every row of the batch goes from pending to running once, for this claimer |
| `JobClaims.OthersLeaveLocked` | app/worker.py:75-80 | no statement that does not wait changes a locked row |
| `JobClaims.BatchOrder` | app/worker.py:75-80 | a batch by its columns: due jobs, priorities that do not rise, creation times that do not fall at equal priority, and whatever due job is left out comes after all of them and only when the batch is full |
| `JobClaims.HeadOfQueue` | app/worker.py:76-77 | the due job with the highest priority, the earliest created of these, comes first |
| `JobClaims.ClaimExactly` | app/worker.py:81-87 | a claim marks exactly its batch as running for this worker from now on, attempts unchanged, and hands each job out with those attempts and its limit |
| `JobClaims.ServedInTurn` | app/worker.py:76-77 | in any run of the queue with one claimer, a due job with k jobs ahead of it at the first claim is taken within k/size + 1 claims, if nothing new joins the jobs ahead of it; that claimed jobs are no longer due is proved |
| `EtlRun.Warehouse.BuildDims` | app/database/etl.py:133-174 | the loops add exactly the missing SKUs and trimmed, non-blank warehouse names |
| `Etl.TrimExactly` | app/database/etl.py:135-140 | trimming takes all blanks off both ends and nothing else |
| `Etl.NamesExactly` | app/database/etl.py:135-140 | the dimension takes exactly the non-empty names that some product's warehouse spells, with or without blanks around them |
| `EtlRun.Warehouse.GroupRange` | app/database/etl.py:248-263 | the grouping loop yields one group per joined key of the range, with its totals |
| `EtlRun.Warehouse.BuildMovementFacts` | app/database/etl.py:233-268 | deleting and refilling a range of days gives the re-aggregation of that range and keeps all other rows |
| `EtlRun.Warehouse.DayBounds` | app/database/etl.py:526-535 | first and last day of the movements behind the watermark, with today as default |
| `EtlRun.Warehouse.CommitStages` | app/database/etl.py:538-599 | the committed stages up to a crash are steps of the history model |
| `EtlRun.Warehouse.RunEtl` | app/database/etl.py:475-684 | a run that finishes, is skipped or dies after any stage is a history of the model; it is skipped exactly when facts exist, nothing forces it and nothing is new |
| `EtlConvergence.RebuildKey` | app/database/etl.py:235-263 | a key of the range holds the group of its joined movements afterwards, any other key what it held |
| `EtlConvergence.RebuildDay` | app/database/etl.py:233-268 | a rebuilt range is right on every day whose movements all join, and moves nothing outside |
| `EtlConvergence.HistoryKeeps` | app/database/etl.py:505-684 | over any history of movements committed in any id order, new products, soft deletes, runs and crashes at any stage boundary, every day is right but those owed to movements above the watermark, and those of later soft deletes and late commits |
| `EtlConvergence.FinishedRunIsRight` | app/database/etl.py:505-684 | when a run, incremental or full, commits its last stage, every day equals a from-scratch aggregation but those owed to movements above the ids it counted, and those of later soft deletes and late commits; with none of these, the whole table does |
| `EtlConvergence.SkippedRunIsRight` | app/database/etl.py:514-523 | a run that skips for want of new movements leaves a table that already is that aggregation, up to soft deletes and late commits |
| `EtlConvergence.LateExactly` | app/database/etl.py:514-535 | a counting movement that commits late leaves its day wrong if and only if its group has no row yet or it adds units to it |
| `EtlConvergence.OutsideUntouched` | app/database/etl.py:235-263 | and an incremental run leaves every day outside its range as right or as wrong as it was |
| `EtlConvergence.LateIsSkipped` | app/database/etl.py:514-523 | after a late commit with nothing newer the next run skips |
| `EtlConvergence.FullRebuildExact` | app/database/etl.py:601-684 | an undisturbed full rebuild is right if and only if no counting movement is dated after today |
| `EtlConvergence.RebuiltIsARun` | app/database/etl.py:601-684 | that rebuild is the model's own run of start, read and four commits |
| `StockWalk.WalkBack` | app/database/etl.py:292-343 | the backward walk writes, for each day, current stock minus all later net movements, clamped at zero |
| `StockWalk.DailyNet` | app/database/etl.py:294-300 | one day's net of IN and OUT |
| `StockWalk.WalkVersusBalance` | app/database/etl.py:313-323 | the walked stock is the forward ledger balance at the day's end plus the RETURN and ADJUSTMENT units of the later days walked over, plus whatever is dated after the last day |
| `StockWalk.WalkExact` | app/database/etl.py:313-323 | with nothing dated after the last day it equals the balance if and only if those units cancel, in particular for IN/OUT ledgers |
| `StockWalk.ClampIsIdle` | app/database/etl.py:333 | for IN/OUT ledgers dated in order and kept by the stock floor the clamp never changes a row |
| `StockWalk.FactsSumToNet` | app/database/etl.py:253-254 | net_qty of a product's fact rows over any days sums to its net movements |
| `StockWalk.FactRowExactly` | app/database/etl.py:248-263 | on a right day the row of a product with its own SKU and warehouse is there exactly when it has a live movement that day; its in quantity is the units of the IN rows, its out quantity those of the OUT rows, its net the difference |
| `StockWalk.EveryRowIsNet` | app/database/etl.py:248-263 | every row of a right day has a live movement behind it, and its net is in minus out |
| `StockWalk.UnwalkedByType` | app/database/etl.py:294-300 | what the walk leaves out is the units of RETURN and ADJUSTMENT rows |
| `StockWalk.WalkTelescopes` | app/database/etl.py:313-323 | between any two days the walked stock changes by exactly the net_qty the movement facts hold in between |
| `Scd.Dimension.Close` | migrations/versions/68536c7cf9f3_db_integrity_batch34_warehouse_etl_.py:38-55 | the UPDATE and its row count: exactly the current versions with a changed source row close |
| `Scd.Dimension.Open` | migrations/versions/68536c7cf9f3_db_integrity_batch34_warehouse_etl_.py:57-73 | the INSERT and its row count: one version per source row without a current one |
| `Scd.Dimension.Merge` | migrations/versions/68536c7cf9f3_db_integrity_batch34_warehouse_etl_.py:32-76 | a merge with its accumulated total; the rule selects products, suppliers, warehouses or users |
| `ScdHistory.MergeByKey` | migrations/versions/68536c7cf9f3_db_integrity_batch34_warehouse_etl_.py:38-70 | the whole-table merge is, key by key, keep, open, or close and reopen |
| `ScdAsOf.HistoryTiles` | migrations/versions/68536c7cf9f3_db_integrity_batch34_warehouse_etl_.py:38-70 | after any history of merges at increasing times the versions of a key tile time without gap or overlap, and the last is current |
| `ScdAsOf.ExactlyOneCurrent` | migrations/versions/68536c7cf9f3_db_integrity_batch34_warehouse_etl_.py:67-70 | a key has exactly one current version once some merge has seen it, and none before |
| `ScdAsOf.AsOfIsRecorded` | migrations/versions/68536c7cf9f3_db_integrity_batch34_warehouse_etl_.py:38-70 | an as-of lookup at any time returns exactly one row, the recorded one, or none before the key was seen |
| `ScdAsOf.AsOfExact` | migrations/versions/68536c7cf9f3_db_integrity_batch34_warehouse_etl_.py:44-52 | all as-of lookups return the source row of the latest merge at or before their time if and only if no merge meets a changed row its comparison takes for unchanged |
| `ScdAsOf.AsOfCorrect` | migrations/versions/68536c7cf9f3_db_integrity_batch34_warehouse_etl_.py:44-52 | so products, users and warehouses, whose != columns are NOT NULL, answer every as-of query |
| `ScdAsOf.ConstrainedColumns` | app/database/schema.sql:110-117 | which source columns that asks to be NOT NULL: name, stock and reorder point of products, username, role and is_active of users, name and lead_days of suppliers, none of warehouses |
| `ScdAsOf.SupplierMisses` | migrations/versions/68536c7cf9f3_db_integrity_batch34_warehouse_etl_.py:93-99 | for suppliers exactly the changes that only move lead_days to or from NULL are missed |
| `ScdAsOf.ClearedLeadDaysIsMissed` | migrations/versions/68536c7cf9f3_db_integrity_batch34_warehouse_etl_.py:97 | a supplier whose lead_days is cleared keeps answering with the old value |
| `ScdAsOf.NoOpExactly` | migrations/versions/68536c7cf9f3_db_integrity_batch34_warehouse_etl_.py:38-73 | a merge leaves the table as it is if and only if every source row has a current version and none of those closes |
| `ScdAsOf.ClosedCountExactly` | migrations/versions/68536c7cf9f3_db_integrity_batch34_warehouse_etl_.py:38-55 | the row count of the UPDATE is the number of current versions that are current no longer |
| `ScdAsOf.MergeTwice` | migrations/versions/68536c7cf9f3_db_integrity_batch34_warehouse_etl_.py:38-73 | merging the same source again changes nothing, for products, suppliers and users |
| `ScdAsOf.WarehousesAlwaysGrow` | migrations/versions/68536c7cf9f3_db_integrity_batch34_warehouse_etl_.py:134-171 | a warehouse merge adds one version per source row, changed or not |
| `ScdAsOf.UniqueKeysExact` | app/database/schema.sql:184-186 | on any table with at most one current version per key, a merge leaves at most one if and only if every key that occurs twice in the source has a current version the merge does not close; skus are unique among live products only and the merge reads all |
| `ScdAsOf.FirstMergeExact` | app/database/schema.sql:184-186 | on the empty table: if and only if the source keys are unique |
| `TtlCache.Cache.Get` | app/utils/cache.py:41-54 | a live entry is returned and becomes the newest, an expired one is dropped; exactly one of the two counters moves |
| `TtlCache.LiveExactly` | app/utils/cache.py:41-54 | a key is live exactly when the store holds an entry of it whose expiry is still to come |
| `TtlCache.Cache.Set` | app/utils/cache.py:56-61 | the entry becomes the newest and the oldest ones go until the capacity holds |
| `TtlCache.Cache.GetOrSet` | app/utils/cache.py:63-83 | without interference: the cached value, or the producer's value stored under the default lifetime |
| `TtlCache.Cache.Invalidate` | app/utils/cache.py:85-91 | exactly the keys under the prefix go, the others keep order, and the count is the number dropped |
| `TtlCache.Cache.Clear` | app/utils/cache.py:93-95 | nothing is left |
| `LruInclusion.LargerHoldsMore` | app/utils/cache.py:41-61 | for any one sequence of get, set, invalidate and clear, a smaller cache holds a subsequence of the entries of a larger one, with equal values and expiries |
| `LruInclusion.SmallHitIsLargeHit` | app/utils/cache.py:41-54 | every hit of the smaller cache is the same hit in the larger |
| `LruInclusion.RecentSurvives` | app/utils/cache.py:52-61 | an entry just stored survives every run that touches fewer than max other keys, unless an operation aims at it |
| `LruInclusion.HitIsInTime` | app/utils/cache.py:41-61 | after a value is stored at t for a lifetime, and any operations that do not store the key again, a hit returns that value and only before t plus the lifetime |
| `SingleFlight.OneProducer` | app/utils/cache.py:71-83 | any number of threads: two producers for one key never overlap, although the weak lock entry may vanish whenever nobody refers to it |
| `SingleFlight.WaiterReadsRebuilt` | app/utils/cache.py:76-83 | a waiter returns the value rebuilt while it waited and nobody rebuilds it again, unless it expired, was overwritten or invalidated from outside, or max other keys came after it |
| `CacheKeys.PlainKeysExactly` | app/utils/cache.py:196-208 | over any set of parameter names free of the bar and the equals sign: two plain calls, those without a value that reads as a value and a later parameter, make the same key if and only if they agree on every truthy parameter |
| `CacheKeys.PlainForm` | app/utils/cache.py:196-208 | every call over the names has the key of a plain call over the names, and that call is itself if and only if it is plain: so every call that is not plain collides |
| `CacheKeys.AloneExactly` | app/utils/cache.py:196-208 | a call shares its key with no other call over the names if and only if it is plain and gives at most one truthy parameter |
| `CacheKeys.KeyInjective` | app/utils/cache.py:196-208 | in particular two calls make the same key if and only if they agree on every truthy parameter when no value contains a bar |
| `CacheKeys.ListKeysExactly` | app/routes/api.py:153-161 | two plain product list calls share a cache entry if and only if they agree on every parameter that is given |
| `CacheKeys.SearchCollides` | app/routes/api.py:153-161 | so a product search can read the cached list of another search with a stock status, whatever the other four parameters |
| `CacheKeys.KeyMeaning` | app/utils/cache.py:196-208 | a prefix leads the key, the rest is the key without it, and a falsy parameter is as good as none |
| `CacheBusts.NamedCaches.Bust` | app/utils/cache.py:143-193 | a bust leaves the named caches as its list of invalidations does, and returns the number of entries dropped |
| `CacheBusts.BustedMembers` | app/utils/cache.py:143-193 | a bust keeps exactly the entries its prefixes do not reach |
| `CacheBusts.ReadsAreFresh` | app/utils/cache.py:63-91 | in every sequential run a read answers with a value produced after the last write whose bust reaches its key |
| `CacheBusts.FreshExactly` | app/utils/cache.py:143-193 | a read right after a write sees it, whatever is cached, if and only if that write's bust reaches the key |
| `CacheBusts.ProductsCacheReached` | app/utils/cache.py:143-181 | every products_cache key is reached by product, movement and order writes, and by no others but a full bust |
| `CacheBusts.ReportsReached` | app/utils/cache.py:143-193 | a key made with the reports prefix is reached by every write but a settings change |
| `CacheBusts.ApiProductsReached` | app/routes/api.py:153-166 | the API's product lists are reached by product writes only, so movements and orders leave them stale until they expire |
| `CacheBusts.SuppliersReached` | app/utils/cache.py:159-193 | the supplier cache is reached by supplier writes and the full bust alone |
| `CacheBusts.LandingReached` | app/utils/cache.py:143-193 | the landing cache by product and supplier writes and the full bust alone |
| `CacheBusts.GlobalReached` | app/utils/cache.py:143-193 | the global cache by every write but a supplier's |
| `CacheBusts.MonitoringReached` | app/utils/cache.py:143-193 | the monitoring cache by the full bust alone |
| `CacheBusts.DashboardReached` | app/utils/cache.py:143-193 | dashboard keys under their prefix by product, movement and order writes and the full bust alone |
| `CacheBusts.ApiListsReached` | app/utils/cache.py:159-185 | the API's supplier, movement, order and settings entries by the writes of their kind |
| `CacheBusts.StaleEnds` | app/utils/cache.py:41-83 | where a bust does not reach, a write is still seen by every read that comes a lifetime of the cache after the last read before it, whatever happens in between |
| `CacheBusts.ApiStaleTwoMinutes` | app/utils/cache.py:131 | for the API's lists that is two minutes |
| `Lockout.AuthService.CheckRateLimit` | app/services/auth_service.py:92-140 | the database verdict: an elapsed window or an expired row counts as nothing |
| `Lockout.AuthService.RecordFailedAttempt` | app/services/auth_service.py:143-174 | the upsert: a new window after the old one elapsed, one more failure otherwise, a fresh expiry always |
| `Lockout.AuthService.ClearRateLimit` | app/services/auth_service.py:177-186 | the row is gone |
| `Lockout.AuthService.Authenticate` | app/services/auth_service.py:196-248 | the critical section: both gates, the clearing or the recording in both layers, and no other user's list or row touched |
| `LockoutRuns.VerdictExactly` | app/services/auth_service.py:92-140 | an attempt is refused exactly when the list holds five failures of which the first is at most fifteen minutes old, or the row counts five in such a window that has not expired; otherwise the password decides; the announced minutes are the least that cover what is left |
| `LockoutRuns.AfterExactly` | app/services/auth_service.py:143-248 | what each attempt leaves in both layers |
| `LockoutRuns.AlwaysAgree` | app/services/auth_service.py:206-248 | with one clock reading per attempt the row always counts the list: same number, same window start, expiry one window after the last failure |
| `LockoutRuns.SameVerdict` | app/services/auth_service.py:209-228 | so list and counter give every attempt the same verdict |
| `LockoutRuns.AtMostNine` | app/services/auth_service.py:209-246 | any closed 15-minute interval without a successful login holds at most nine failed password checks, with a clock that never goes back, any readings within an attempt, and whatever happens to the shared row |
| `LockoutRuns.NineIsReached` | app/services/auth_service.py:212-223 | nine do happen: the bound is tight |
| `LockoutRuns.WaitIsEnough` | app/services/auth_service.py:216-223 | a refusal by the list announces 1 to 15 minutes, after which the list no longer refuses |
| `LockoutRuns.RowWaitIsEnough` | app/services/auth_service.py:131-135 | a refusal by the counter announces 1 to 16 minutes, after which the row no longer refuses |
| `AuditChain.AuditLog.Insert` | migrations/versions/20261012_audit_hash_chain.py:75-92 | the new row carries the hash of the row with the highest id and its own, and stands in id order whatever its id |
| `AuditChain.InsertSorts` | migrations/versions/20261012_audit_hash_chain.py:80-90 | the log stays sorted by id under every insert of a new id |
| `AuditChain.AuditLog.Backfill` | migrations/versions/20261012_audit_hash_chain.py:47-71 | the seed search and the loop over unhashed rows, in id order |
| `AuditChain.AuditLog.VerifyIntegrity` | migrations/versions/20261012_audit_hash_chain.py:101-141 | the scan of the last rows with its four results |
| `AuditChainResults.ScanClean` | migrations/versions/20261012_audit_hash_chain.py:112-138 | no broken link and no bad hash exactly when every scanned row has its own hash and links to the row before it, and exactly when no first broken id is reported |
| `AuditChainResults.CleanExactly` | migrations/versions/20261012_audit_hash_chain.py:112-138 | the verifier is clean for every limit if and only if the log is chained, and one full scan decides it |
| `AuditChainResults.ScanReports` | migrations/versions/20261012_audit_hash_chain.py:112-138 | a scan reports a bad hash, or a broken link, exactly when some scanned row has one |
| `AuditChainResults.FirstIsReported` | migrations/versions/20261012_audit_hash_chain.py:120-138 | the id it reports is that of the first row with either |
| `AuditChainResults.NewestAreScanned` | migrations/versions/20261012_audit_hash_chain.py:112-118 | with a limit it is the newest rows that are scanned, the link of the oldest of them excepted |
| `AuditChainResults.InsertChains` | migrations/versions/20261012_audit_hash_chain.py:84-89 | a triggered insert above all ids keeps a log chained |
| `AuditChainResults.ChainedSuffix` | migrations/versions/20261012_audit_hash_chain.py:120-125 | a chained log stays chained after dropping any prefix |
| `AuditChainResults.SameEndSameRows` | migrations/versions/20261012_audit_hash_chain.py:30-44 | two chained logs that end in the same hash hold the same rows as far back as both go |
| `AuditChainResults.BackfillTwice` | migrations/versions/20261012_audit_hash_chain.py:48-71 | the backfill is idempotent on every log |
| `AuditChainResults.BackfillKeepsRows` | migrations/versions/20261012_audit_hash_chain.py:47-71 | a backfill keeps every id and content and leaves the rows that have a hash as they are |
| `AuditChainResults.BackfillIsTrigger` | migrations/versions/20261012_audit_hash_chain.py:47-71 | backfilling unhashed rows after a chained log gives exactly the chain the trigger would have built |
| `AuditHistory.ChainedForGood` | migrations/versions/20261012_audit_hash_chain.py:75-92 | a chained log stays chained over every history of inserts with ids in lock order, backfills and purges |
| `AuditHistory.RebuiltIsHistory` | migrations/versions/20261012_audit_hash_chain.py:75-92 | the chain the backfill makes is that of a history of triggered inserts |
| `AuditHistory.CleanHistoryExactly` | migrations/versions/20261012_audit_hash_chain.py:165-173 | a log that began with unhashed rows is clean after any history of inserts, backfills and purges if and only if no such row is left that a backfill has not linked |
| `AuditHistory.BackfillComesFirst` | migrations/versions/20261012_audit_hash_chain.py:165-173 | before the first purge: if and only if there were none or the backfill came before the first triggered insert |
| `AuditHistory.LateInsertExactly` | migrations/versions/20261012_audit_hash_chain.py:80-90 | a row whose id was drawn early but whose insert got the lock late, at any place of a chained log: the log stays chained if and only if two particular hashes coincide on both sides of it |
| `AuditHistory.CleanInLockOrderExactly` | migrations/versions/20261012_audit_hash_chain.py:80-90 | a log with its first row is clean after any history of triggered inserts and backfills if and only if every id was drawn in lock order |
| `AuditHistory.CleanWithoutBackLinksExactly` | migrations/versions/20261012_audit_hash_chain.py:112-138 | with any ids, and purges as well: clean if and only if no row stands at or before the one it links to |
| `AuditHistory.AgedPurge` | app/database/procedures.sql:1166-1176 | where creation times follow the ids, the retention purge drops a prefix of the log |
| `AuditHistory.PurgeExactly` | app/database/procedures.sql:1166-1176 | for any creation times: a purge leaves a chained log chained if and only if it takes no row from between two that it leaves |
| `Hierarchy.UserService.ManagerChain` | app/repositories/user_repo.py:203-223 | the bounded loop is the walk, on any graph |
| `Hierarchy.UserService.SetReportingManager` | app/services/user_service.py:28-46 | each refusal in its order, or the link and nothing else changed |
| `HierarchyResults.WalkExact` | app/repositories/user_repo.py:203-223 | cyclic graphs included: no duplicates, at most the depth, and exactly the managers within that many links |
| `HierarchyResults.RefusedExactly` | app/services/user_service.py:28-46 | which link is refused and why first: a self report, a missing or deleted manager, an inactive one, a user found within 50 links above the manager; every other link is accepted |
| `HierarchyResults.AcceptedKeepsAcyclicExactly` | app/services/user_service.py:37-46 | an accepted link keeps an acyclic hierarchy acyclic if and only if the user is not more than 50 links above the new manager |
| `HierarchyResults.CircularMeansCycle` | app/services/user_service.py:39-44 | a link refused as circular would have closed a cycle |
| `HierarchyResults.SmallStaysAcyclic` | app/services/user_service.py:28-46 | with at most 51 users no sequence of accepted and cleared links ever closes a cycle |
| `HierarchyRequests.AloneIsAssign` | app/services/user_service.py:28-46 | the guard read by read and the write, with nothing in between, are the assignment as one step |
| `HierarchyRequests.WriteExactly` | app/repositories/user_repo.py:203-223 | with at most 51 users, under any interleaving of lookups and writes: the write of an accepted request closes a cycle if and only if its user is above the manager by then, and then a link on the way between them was written since the request first looked |
| `HierarchyRequests.InterleavedStaysAcyclic` | app/services/user_service.py:28-46 | so with at most 51 users no interleaving closes a cycle unless a request is overtaken on its manager's line |
| `HierarchyRequests.CrossedRequests` | app/services/user_service.py:37-46 | any two opposite links that the guard accepts on the same hierarchy close a cycle when both requests look before either writes |
| `HierarchyResults.LongLineCloses` | app/repositories/user_repo.py:204 | with 52 users in a line the guard accepts the link that closes it |

## Left out

- Routes other than the receive route, templates, exports, mail, webhooks, backups and connection handling: input and output without hard state.
- Procedures that overwrite totals directly (setting stock or on_order from the product form): they are outside the conservation theorems by intent.
- Supplier keys, unit costs, notes and locations of orders and receipts, audit rows and notifications: they are written beside the modelled state and never read by it.
- 32-bit overflow of quantities and ids, and the length limits of key columns: PostgreSQL aborts the statement, which in the model is a step that does not happen.
- The product-less order branch of the transition: the column is NOT NULL.
- The receipt key is unique as the table constraint of the receipts migration makes it; a database created from schema.sql alone has only the partial index, and how ON CONFLICT matches that is not part of this model.
- Idempotency.KeyStore.Handle: one request without interleaving; concurrent requests are the protocol of the same module.
- Deleting old idempotency rows, which would let a key execute again.
- Validation of order payloads before the create call: the checks that matter to the state are those of the tables.
- Handler results and their JSON, the handler registry and the batch procedure with its cron schedule.
- JobWorker.Worker.Tick: one worker without interleaving; any number of workers are the steps of JobQueue.
- EtlRun.Warehouse.RunEtl: one run without movements arriving between its statements; arrivals, crashes and replays are the steps of Etl. There a full rebuild reads its first day before its last id, and the theorems ask that the range it takes covers what it counted, which fails only for movements dated after today or before that first day and committed between the two reads.
- Money columns of the facts, attributes of the dimensions, date rows, and the key lookup of the inventory rows that indexes a SKU-keyed map by product id: the walk itself is modelled.
- EtlConvergence.HistoryKeeps: days with a movement soft-deleted or committed late after they were loaded are excluded, since the load does not revisit them on its own; `EtlConvergence.LateExactly` says when such a day is wrong.
- Trimming of warehouse names covers blanks only, not other white space.
- Dimension attributes of a warehouse, which are computed from its name: the merge closes and reopens without comparing them.
- Two merges in one transaction, which would see the same time.
- CacheKeys.PlainForm: the plain call may give a number parameter a text that is no number, such as `7|per_page=9` for a page; which keys two calls of one route share, given what the route admits as a page, is not treated.
- CacheBusts.ReadsAreFresh: sequential runs; a producer that reads before a write and stores after its bust is not covered.
- SingleFlight: a negative capacity, for which the eviction loop fails, is not modelled; capacities are natural numbers.
- Lockout across processes: other workers appear only as arbitrary changes of the shared row, and the theorem on equal verdicts is for one process.
- The purge of expired lockout rows, which is such a change.
- AuditHistory.CleanInLockOrderExactly: histories before the first purge, which can drop the late rows again; with purges the condition is that of `AuditHistory.CleanWithoutBackLinksExactly`.
- AuditHistory.CleanHistoryExactly: the purges of a history drop the oldest rows; a purge that leaves a gap is treated alone, in `AuditHistory.PurgeExactly`.
- The field separator inside the audit hash input: content is one abstract value.
- History fields that only the proofs need are part of the model's rows: the status an order was born with, the order a movement was made for, the days a soft delete left behind the facts, and the starts and releases of a key.

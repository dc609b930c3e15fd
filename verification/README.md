# The block indexer of diamond-dev-tools, modelled in Dafny

`src/db/runFillDb.ts` walks the chain block by block. `EventVisitor`, `BonusScoreProcessor` and
`ValidatorObserver` turn what each block says into rows of interval tables: a row carries a value and the
blocks it holds for, and is closed when the value changes. The central claims are about whole runs: after
any sequence of blocks, restarts and retries, looking up a block in a table gives what the chain said at
that block, sums agree across tables, deleting from a block undoes the blocks after it. Where the code does
not do this, the model keeps the code's behaviour and proves the exact condition under which it does.

The project verifies with `dafny verify dfyconfig.toml` (Dafny 4.11).

## Conventions

- The chain is an arbitrary function of the block number (scores, epochs, pending validators, round
  numbers) or an arbitrary list of events. A table is a map from its primary key to its other columns, so a
  duplicate key is a visible failure (`None`, or `ok == false`) and aborts the block.
- Amounts are in wei, as unbounded integers. `BigNumber` addition, subtraction and multiplication are exact
  on 18 decimals, and division rounds half up at the 18th.
- Addresses are numbers: the database compares them as bytes, and the event texts are taken to use one
  letter case throughout.
- Each table has a step function on values (`Visit`, `ProcessPool`, `Update`, `Transition`, `Upsert`,
  `Apply`), classes whose methods change their fields statement by statement as the source does and are
  proved equal to the step, and lemmas about all runs of steps against a reference computed from the
  events or the chain alone (`Changes`, `LedgerOf`, `Observed`, `Committed`).

## Files

| file | content |
|---|---|
| StakeTables, StakeHistory, StakeRuns, OrderRuns | the stake tables, the rows of one pool, every run of stake events, what the order rows say |
| StakeAccounts | accounts of one pool across two tables, conservation over all pools |
| StakeRollback, OrderRollback, DelegationRollback | what the statements of `deleteDataFromBlock` do to one stake table, and what no statement restores |
| Rollback, RollbackRuns | `deleteDataFromBlock` as one operation over all tables, and after a run of the indexer |
| EventVisitor | the visitor and its database calls as classes |
| BonusScores, BonusRuns, BonusScoreProcessor | run-length encoding of scores, runs, one restart or abort, the rollback statements, the processor class |
| BonusRestarts, ValidatorRestarts | whole runs with aborts and restarts, on the bonus and on the validator rows |
| SecondPass, BlockAgain | a committed block processed again: the stake tables, and all of it |
| NodeRetries | retries of a block that sees new nodes |
| Validators, ValidatorRuns, ValidatorObserver | validator spans, runs with restarts, aborts, rollback, the observer class |
| Epochs | epoch rows under a block loop that fails before or after its commit and restarts |
| Names | name upserts outside the transaction and their replay |
| RateLimiter, InMemoryRateLimiter | sliding-window log, its limit, sweeping, the Redis counter; the limiter class and what it admits |
| Rewards, KeyGen, DeepMerge, AwaitTransactions, BitStrings | reward split, backward key generation scan, configuration merge, confirmation wait, bit strings |

## What the code does not do

Each item names the theorem with the exact condition and a lemma with an input that fails.

- A block in which one pool's stake changes three times can never commit: the third change repeats the key
  of the row the second one left empty (`RunFollows`, `ThirdChangeFails`).
- A withdrawal that is a pool's first event is stored as a positive amount; the books of the pool, and of
  all pools, balance exactly when this never happens (`PoolBalances`, `ConservationExact`,
  `FirstWithdrawalUnbalances`).
- A block can be processed again after its commit: the loop polls for new blocks before it advances, and when
  the poll throws it retries the committed block; a restart with a configured start block goes back further.
  The epoch rows stay exact (`Fill`), names, validators and bonus rows survive the immediate second pass, but
  stake and orders are booked twice, unless every event is inert, or the block can never commit again because
  a pool changes three times or an availability row repeats its key (`SecondPassExactly`, `StakeBookedTwice`).
- `deleteDataFromBlock` fails as soon as an epoch starts at or after the block: it deletes from
  `stake_delegators` by a column the table does not have. The four tables then stay as they are
  (`LateEpochOnChain`, `RunRollback`, `LateEpochKeepsRows`).
- Where it gets further, it restores the validator table, but on `stake_history` it reopens no row, on
  `ordered_withdrawal` it deletes rows that were only raised or claimed later, and on `bonus_score_history`
  every open row comes back closed, although the method's comments speak of cleaning up data "from block
  onwards" (`HistoryRollback`, `RollbackLosesLastRow`, `OrdersRollback`, `RaisedOrderLost`,
  `BonusRollbackExact`, `OpenRowNotRestored`).
- Its last statement, the delete from `headers`, is refused by the foreign keys exactly when a stake row
  that stays crosses the block, or a node was added, or an epoch ends, at or after it (`NeededExactly`,
  `RollbackLosesLastRow`).
- It restores no total of `stake_delegators` (`TotalsComeBack`, `AccountsAfterRollback`).
- The observer's fields and the score cache are not rolled back with an aborted block, so the retry skips
  what the aborted attempt had seen, or closes the wrong rows; a restart heals the validator rows but reloads
  the score cache with the same effect as an abort (`ValidatorRestarts.RecordedExactly`, `RestartHeals`,
  `AbortLosesValidator`, `AbortLosesCurrent`, `StaleRowStays`, `BonusRestarts.RightExactly`,
  `SilentMoveLeavesWrongRow`).
- Nor is the dictionary of known nodes: a block that books stake or orders on a pool it sees first, or seats
  it in a new epoch, cannot commit after an abort until the process restarts (`StuckUntilRestart`,
  `FirstStakeStuck`). When the score of such a pool moves, the failed update is only logged and the whole
  block is lost (`BonusRestarts.Allowed`, `NodelessPoolLosesBlock`).
- `getEpochByBlock` reads outside the transaction and answers the previous epoch in the block that starts
  one (`LookupInsideTransaction`, `EpochStartMisread`).
- `deepMerge` is not associative: a leaf in the middle tree hides a table that the other grouping brings
  back (`AssociativeExactly`, `NotAssociative`).

## Model

| member | source | states |
|---|---|---|
| StakeRuns.RunFollows | src/eventsVisitor.ts:276-548 | A run of stake events commits if and only if no pool changes three times in one block; then every pool's rows tile its life, carry the stake at each block, and the orders follow |
| StakeRuns.HistoryLookup | src/db/database-persistent.ts:653-686 | At every block of a pool's life exactly one row covers it and carries the sum of all effective changes so far; the query finds the row of the last change |
| StakeRuns.HistoryVisit | src/eventsVisitor.ts:397-548 | One event keeps every pool's rows exact, or fails on exactly a third change in one block |
| StakeRuns.MoveStep | src/eventsVisitor.ts:429-497 | A move changes two pools, or one pool twice, and keeps all pools' rows exact |
| StakeHistory.GetLastFinds | src/db/database-persistent.ts:653-686 | The query finds exactly the row of the pool's last change, and nothing for a pool without changes |
| StakeHistory.RecordNext | src/eventsVisitor.ts:407-426 | Closing the last row and inserting the next keeps the tiling and succeeds if and only if it is not the block's third change |
| StakeHistory.RecordFirst | src/eventsVisitor.ts:399-408 | The first change of a pool inserts its single row |
| StakeRuns.OrderKeepsPair | src/eventsVisitor.ts:289-319 | An order keeps at most one unclaimed row per pair, holding what the pair ordered since its last effective claim, and loses no amount |
| StakeRuns.ClaimKeepsPair | src/eventsVisitor.ts:335-355 | An effective claim marks the pair's open row claimed and leaves every other row equal; the pair's accounts follow |
| OrderRuns.RunSays | src/eventsVisitor.ts:276-375 | After every run an open row carries epoch and block of its pair's latest order and the amount pending; a claimed row carries the block of an effective claim and what was pending before it, and every effective claim has such a row |
| StakeAccounts.PoolAccounts | src/eventsVisitor.ts:392-507 | A pool's latest stake is the owner's net stake plus its delegators' totals minus matched claims minus gathered stake, plus the correction for a first withdrawal |
| StakeAccounts.PoolBalances | src/eventsVisitor.ts:397-408 | The accounts balance without correction if and only if the pool's first event is not a positive withdrawal |
| StakeAccounts.RunDelegations | src/eventsVisitor.ts:749-766 | After every run each pair's total is its net delegation, each pool's totals sum to its ledger, and every delegator has a staker row |
| StakeAccounts.Conservation | src/eventsVisitor.ts:429-508 | Over all pools, the latest stakes sum to placed minus withdrawn minus matched claims minus gathered, plus the corrections |
| StakeAccounts.ConservationExact | src/eventsVisitor.ts:397-408 | The sum is exact if and only if no pool starts with a positive withdrawal |
| StakeAccounts.MoveKeepsTotal | src/eventsVisitor.ts:429-508 | A move leaves the sum over all pools unchanged, also within one pool and from an unknown pool |
| StakeRuns.ThirdChangeFails | src/eventsVisitor.ts:407-426 | Three stakes on one pool in one block do not commit, two do |
| StakeAccounts.FirstWithdrawalUnbalances | src/eventsVisitor.ts:397-408 | A first withdrawal of 100 wei leaves the row at 100 and the accounts at -100 |
| StakeRollback.HistoryDeleted | src/db/database-persistent.ts:314-315 | The statement on `stake_history` restores the earlier table if and only if every pool with rows that changed later first did so in the block right after its last change |
| StakeRollback.HistoryUnchanged | src/db/database-persistent.ts:314-315 | The table has not changed since if and only if the statement has nothing to delete |
| OrderRollback.OrdersDeleted | src/db/database-persistent.ts:317-319 | The statement on `ordered_withdrawal` restores the earlier orders if and only if no pair with an open order then ordered or effectively claimed later |
| OrderRollback.RaisedOrderLost | src/db/database-persistent.ts:317-319 | A concrete order that was only raised later and is deleted whole |
| DelegationRollback.TotalsComeBack | src/db/database-persistent.ts:277-334 | The totals after a rollback, which touches none, are the earlier ones if and only if every pair delegated nothing on balance since and none is new |
| DelegationRollback.AccountsAfterRollback | src/db/database-persistent.ts:277-334 | With the history restored, a pool's accounts hold if and only if nothing was delegated to it on balance since |
| Rollback.DbManager.DeleteDataFromBlock | src/db/database-persistent.ts:277-338 | The statements run one by one, each refused as the schema and the foreign keys refuse it; the effects before a refused one stay (what they are, row by row: `StoppedKeeps`, `RowsLeft`) |
| Rollback.StoppedKeeps | src/db/database-persistent.ts:277-338 | How far the call came: which statement was refused, which tables it left alone, the one late epoch whose nodes and rewards are gone, and after success just the headers below the block |
| Rollback.RowsLeft | src/db/database-persistent.ts:307-330 | Row by row, what a call that gets past the bonus rows leaves of the four tables |
| Rollback.NeededExactly | db/container-content/01_create_tables.sql:136-302 | Without a late epoch the header delete is refused if and only if a stake row crosses the block, or a node was added or an epoch ends at or after it |
| Rollback.HistoryRollback | src/db/database-persistent.ts:277-338 | After the call the history is the earlier one if and only if, where it stops early, there was nothing to delete and, where not, every changed pool first changed in the block right after its last change |
| Rollback.OrdersRollback | src/db/database-persistent.ts:277-338 | After the call the orders are the earlier ones if and only if, where it stops early, there was nothing to delete and, where not, no pair with an open order ordered or effectively claimed later |
| Rollback.ValidatorsRollback | src/db/database-persistent.ts:277-338 | After the call the validator rows are the earlier ones if and only if it did not stop early or there was nothing to undo |
| Rollback.BonusRollback | src/db/database-persistent.ts:277-338 | However the call ends, lookups below the block are unchanged; nothing covers the block or a later one if and only if it did not stop early or no row reached that far |
| Rollback.BonusRollbackExact | src/db/database-persistent.ts:277-338 | The bonus rows themselves come back if and only if no pool had been observed or, where the call failed at the column or at closing, nothing was written or no earlier row was closed since |
| Rollback.RollbackLosesLastRow | src/db/database-persistent.ts:314-334 | A concrete run after whose rollback the pool has no last row, and whose kept row makes the header delete fail |
| Rollback.LateEpochKeepsRows | src/db/database-persistent.ts:284-293 | A concrete run whose history the statement would restore, were it reached: a late epoch stops the call and the late row stays |
| RollbackRuns.LateEpochOnChain | src/db/database-persistent.ts:280-283 | An epoch row starts at or after the block if and only if a processed block from there on is in a later epoch than the last one before |
| RollbackRuns.RunIsIndexed | src/db/runFillDb.ts:227-446 | Every run from the chain whose stake events commit leaves a database as the rollback theorem supposes it |
| RollbackRuns.RunRollback | src/db/database-persistent.ts:277-338 | After any run, aborts and restarts included, the call succeeds if and only if no epoch starts and no node is first seen from the block on and no pool's row crosses it; what each of the four tables then holds, or that it is unchanged; a success leaves just the headers of the blocks before |
| EventVisitor.DbManager.UpdateStakeHistory | src/db/database-persistent.ts:688-692 | Moves one row to its new key, or fails on a duplicate key and changes nothing |
| EventVisitor.DbManager.InsertStakeHistoryRecord | src/db/database-persistent.ts:607-611 | Adds one row, or fails on a duplicate key and changes nothing |
| EventVisitor.DbManager.GetOrderWithdrawalEvent | src/db/database-persistent.ts:594-596 | Finds the pair's unclaimed row |
| EventVisitor.DbManager.EnsureDelegateStaker | src/db/database-persistent.ts:623-632 | The delegator has a staker row afterwards and no other is added |
| EventVisitor.EventVisitor.SaveDelegatedStake | src/eventsVisitor.ts:749-766 | The pair's total grows by the amount, starting from nothing |
| EventVisitor.EventVisitor.VisitStakeChangedEvent | src/eventsVisitor.ts:377-427 | The tables become those of the step, or the statement that fails is the step's |
| EventVisitor.EventVisitor.VisitMovedStakeEvent | src/eventsVisitor.ts:429-508 | The tables become those of the step, or the statement that fails is the step's |
| EventVisitor.EventVisitor.VisitOrderedWithdrawalEvent | src/eventsVisitor.ts:276-320 | The tables become those of the step |
| EventVisitor.EventVisitor.VisitClaimedOrderedWithdrawalEvent | src/eventsVisitor.ts:322-375 | The tables become those of the step, or the statement that fails is the step's |
| EventVisitor.EventVisitor.VisitGatherAbandonedStakesEvent | src/eventsVisitor.ts:510-548 | The tables become those of the step, or the statement that fails is the step's |
| EventVisitor.EventVisitor.ProcessEvents | src/eventProcessor.ts:31-39 | The block's events are applied in order up to the first failure |
| EventVisitor.EventVisitor.ExecuteBlock | src/db/database-persistent.ts:236-257 | A block commits if and only if no pool has changed three times in one block; an aborted block leaves the tables unchanged |
| BonusRuns.RunTracks | src/db/bonusScoreProcessor.ts:120-143 | Every well-formed run commits, and for every pool the rows are the run-length encoding of the observed scores, with cache and node score equal to the last one |
| BonusRuns.ExactlyOneRow | src/db/bonusScoreProcessor.ts:200-233 | Each block at which a pool was read is covered by exactly one row, which carries the chain's score there |
| BonusScores.ProcessTracks | src/db/bonusScoreProcessor.ts:206-225 | Reading a score keeps the encoding: an unchanged score extends the open row, a changed one closes it and opens the next |
| BonusScores.ChangeRow | src/db/database-persistent.ts:355-374 | Closing the open row and inserting the new one keeps the encoding and never repeats a key |
| BonusScores.RegisterTracks | src/db/bonusScoreProcessor.ts:72-76 | Registering a node starts its encoding |
| BonusRuns.ProcessInBatches | src/db/bonusScoreProcessor.ts:134-143 | Processing two lists one after the other is processing their concatenation |
| BonusRestarts.RunRemembers | src/db/bonusScoreProcessor.ts:42-233 | In every legal run with aborts and restarts a row begins exactly where a pool is registered or its score differs from the one last read, and the rows carry the scores of those blocks; a block commits unless it lists a pool that is no node and whose score moved, and then it is lost |
| BonusRestarts.RightExactly | src/db/runFillDb.ts:219-449 | In such a run exactly one row covers each block from the pool's first on, and it is right if and only if the chain's score is that of the last block at which a row was written |
| BonusRestarts.AbortedCache | src/db/bonusScoreProcessor.ts:210-224 | Processing a list leaves the cache with the chain's scores of its pools, which an abort keeps |
| BonusRestarts.SilentMoveLeavesWrongRow | src/db/bonusScoreProcessor.ts:42-67 | A concrete move, first read by a restart or by an aborted attempt, that is never written |
| BonusRestarts.NodelessPoolLosesBlock | src/db/bonusScoreProcessor.ts:206-228 | A concrete pool whose node was lost in an abort: the block in which its score moves cannot commit |
| BonusRestarts.RunDeleted | src/db/database-persistent.ts:306-312 | After every such run the two statements on the bonus rows leave the earlier rows with the open ones closed |
| BonusRuns.RestartExact | src/db/bonusScoreProcessor.ts:42-67 | The first block after a restart writes nothing for the pools it lists, so its row is right if and only if the score did not change in it |
| BonusRuns.AbortedRetry | src/db/runFillDb.ts:422-449 | After an abort the retry of a block without new nodes writes nothing, so its row is right if and only if the score did not change in it |
| NodeRetries.StuckUntilRestart | src/db/runFillDb.ts:294-413 | After aborts that came past some of the node inserts, a retry commits if and only if the block neither books nor seats a pool that is known without being a node; further aborts only add to these |
| NodeRetries.PoolsNamed | src/eventProcessor.ts:39-56 | The pools of a block are those its events name, source and target of a move |
| NodeRetries.StuckExactly | src/db/runFillDb.ts:294-413 | An attempt commits, as far as stake and epoch rows go, if and only if it neither books nor seats a pool that is known without being a node |
| NodeRetries.KeysExactly | db/container-content/01_create_tables.sql:200-318 | The node keys of the stake tables hold if and only if every pool that staked, received a move or has an order is a node |
| NodeRetries.FirstStakeStuck | src/db/runFillDb.ts:294-304 | A concrete first stake that commits at first and never after an abort |
| BonusRuns.BonusDeleted | src/db/database-persistent.ts:306-312 | The two statements on the bonus rows keep all lookups below the block, cover nothing from it on, and leave the earlier table with its open rows closed |
| BonusRuns.BonusDeletedExact | src/db/database-persistent.ts:306-312 | They restore the earlier rows if and only if no pool had been observed |
| BonusRuns.BonusUnchanged | src/db/database-persistent.ts:306-312 | The table has not changed since if and only if no row begins at or after the block |
| BonusRuns.OpenRowNotRestored | src/db/database-persistent.ts:306-312 | A concrete open row that comes back closed |
| BonusScoreProcessor.BonusScoreProcessor.UpdateBonusScore | src/db/database-persistent.ts:355-382 | The tables become those of the step, or the insert repeats a key |
| BonusScoreProcessor.BonusScoreProcessor.InsertNode | src/db/runFillDb.ts:124-139 | Node row, first history row and cache entry are those of the step, or a key repeats |
| BonusScoreProcessor.BonusScoreProcessor.ProcessBatch | src/db/bonusScoreProcessor.ts:200-233 | A batch leaves what processing its pools in order leaves; it goes on after a failed update, but then nothing of it commits |
| BonusScoreProcessor.BonusScoreProcessor.ProcessBonusScore | src/db/bonusScoreProcessor.ts:120-143 | Batches of fifty leave what one pass over all pools leaves |
| BonusScoreProcessor.BonusScoreProcessor.FillBlock | src/db/runFillDb.ts:278-304 | A committed block keeps the encoding for every pool |
| ValidatorRuns.RunSound | src/db/validatorObserver.ts:80-142 | After every run, restarts included, the pending rows name at each processed block exactly the pending validators, in rows of the block's key generation round, the current rows the ones last fetched; each row was entered at a processed block and in its key generation round, and the open rows are the observer's lists, one per node |
| ValidatorRuns.UpdateRecords | src/db/validatorObserver.ts:99-142 | One block, skipped or not, keeps every earlier record and adds its own |
| ValidatorRuns.SwitchRecords | src/db/validatorObserver.ts:118-141 | Closing the old list and opening the new one records exactly the new list from the block on, and touches no other state |
| ValidatorRuns.SwitchKeeps | src/db/validatorObserver.ts:118-141 | Whatever rows are open, switching a list closes those of the removed nodes, keeps the others and opens the added ones, and changes no earlier record |
| ValidatorRuns.UpdateKeeps | src/db/validatorObserver.ts:99-142 | Whatever rows are open, a block leaves open exactly the rows of the reference: nothing moves if round, epoch and pending list are the observer's, else the pending rows are entered anew if round or list differs, the current ones if their list does |
| Validators.CloseAllCloses | src/db/validatorObserver.ts:165-180 | Every open row of a listed node is closed at the block, and no other row changes |
| Validators.OpenAllOpens | src/db/validatorObserver.ts:144-163 | Exactly the listed nodes without an open row get one, and no key repeats |
| ValidatorRuns.AbortedRetry | src/db/validatorObserver.ts:108-111 | After an abort the retry skips, so the block's pending validators are recorded if and only if the set did not change in it |
| ValidatorRestarts.RunRemembers | src/db/validatorObserver.ts:80-142 | Every lawful run with aborts, after any of the observer's assignments, and restarts commits, and the rows that cover a committed block are exactly those the reference has open after it, key by key; each row was entered at a committed block and in its key generation round |
| ValidatorRestarts.RecordedExactly | src/db/validatorObserver.ts:99-142 | In such a run a block's pending validators are recorded if and only if they are the nodes the reference has open, and so are its current ones |
| ValidatorRestarts.RestartHeals | src/db/validatorObserver.ts:80-97 | After a restart the next block records its own pending validators |
| ValidatorRestarts.AbortLosesCurrent | src/db/validatorObserver.ts:115-140 | A concrete abort between the two halves whose current validator is never recorded |
| ValidatorRestarts.StaleRowStays | src/db/validatorObserver.ts:118-127 | A concrete abort after which an older row is never closed |
| ValidatorRestarts.RunDeleted | src/db/database-persistent.ts:321-330 | After every such run the two statements on the validator rows give the earlier rows back |
| ValidatorRuns.AbortLosesValidator | src/db/validatorObserver.ts:108-111 | A concrete aborted block whose new pending validator is never recorded |
| ValidatorRuns.ValidatorsDeleted | src/db/database-persistent.ts:321-330 | The two statements on the validator rows give exactly the rows from before the block, whatever was processed since |
| ValidatorObserver.DbManager.FindValidator | src/db/database-persistent.ts:753-759 | Says whether the node has an open row in the state |
| ValidatorObserver.DbManager.UpdateOrIgnoreValidator | src/db/database-persistent.ts:769-810 | Closes the newest open row not entered at the exit block, if there is one |
| ValidatorObserver.ValidatorObserver.Initialize | src/db/validatorObserver.ts:80-97 | The lists are the open rows of each state |
| ValidatorObserver.ValidatorObserver.ProcessRemovedValidators | src/db/validatorObserver.ts:165-180 | The rows become those of the step |
| ValidatorObserver.ValidatorObserver.ProcessAddedValidators | src/db/validatorObserver.ts:144-163 | The rows become those of the step, or an insert repeats a key |
| ValidatorObserver.ValidatorObserver.UpdateValidators | src/db/validatorObserver.ts:99-142 | Rows and fields become those of the step, or an insert repeats a key |
| ValidatorObserver.ValidatorObserver.FillBlock | src/db/runFillDb.ts:419-420 | A committed block of a legal run never fails and keeps the whole record exact |
| Epochs.CommitKeeps | src/db/runFillDb.ts:313-317 | A committed block keeps the epoch rows the level sets of the chain's epoch, and the loop's epoch the chain's |
| Epochs.TurnKeeps | src/db/runFillDb.ts:235-446 | A block committed for the first time extends the level sets; one committed again changes no row |
| Epochs.CommitsCounted | src/db/runFillDb.ts:227-469 | Every commit adds a block or repeats one |
| Epochs.LookupExact | src/db/database-persistent.ts:883-897 | At every processed block the lookup answers the chain's epoch and nothing else |
| Epochs.LookupInsideTransaction | src/db/bonusScoreProcessor.ts:244 | Inside a block's transaction the lookup answers the previous block's epoch, so it is right if and only if the block starts no epoch |
| Epochs.EpochStartMisread | src/db/bonusScoreProcessor.ts:244 | A concrete block that starts an epoch and is given the previous one |
| Epochs.StatementsDone | src/db/runFillDb.ts:313-394 | What a block has written after each of its epoch statements: the end of the epoch before, then the new row, and no other row |
| Epochs.FillDb.BlockBody | src/db/runFillDb.ts:313-394 | The epoch statements of a block run through, or the rows are those after the ones that ran |
| Epochs.FillDb.ProcessBlock | src/db/runFillDb.ts:235-446 | A commit applies the transition and the loop's epoch, and advances unless the poll fails after it; a failure inside the transaction changes nothing |
| Epochs.FillDb.Fill | src/db/runFillDb.ts:227-469 | Whatever turns fail, before or after their commit, and wherever the process restarts, every lookup at a committed block is exact and every commit adds a block or repeats one |
| Epochs.FillDb.LastProcessedEpoch | src/db/database-persistent.ts:419-438 | The largest epoch number, or -1 for an empty table |
| SecondPass.CommitsAgain | src/db/runFillDb.ts:428-468 | A committed block commits again if and only if both passes together change no pool more than twice in it |
| SecondPass.UnchangedExactly | src/db/runFillDb.ts:428-468 | The second pass leaves the stake tables as they are if and only if each event is inert: it moves, gathers or claims on an unknown pool, claims what nobody ordered, or orders nothing |
| BlockAgain.SecondPassExactly | src/db/runFillDb.ts:428-468 | The second pass of a whole block commits if and only if it reports no availability and no pool changes more than twice, changes no name, validator or bonus row, and leaves the stake tables if and only if its events are inert |
| BlockAgain.StakeBookedTwice | src/db/runFillDb.ts:434-446 | A concrete stake of 100 wei that is 200 after the second pass |
| Names.PrefixThenWhole | src/db/database-persistent.ts:1120-1133 | Applying a prefix of a block's name events and then all of them gives what all of them give |
| Names.ReplayHarmless | src/db/runFillDb.ts:449-468 | Any number of half-done attempts followed by the whole block leave the rows of one clean attempt, for every starting table |
| Names.ApplyIsSummary | src/db/database-persistent.ts:1091-1134 | A list of upserts acts on each name as one merged upsert, and adds exactly the mentioned names |
| Names.LatestColumns | src/eventsVisitor.ts:550-732 | Owner, label, expiration, activity, blocking and last action are those of the name's latest event that gives one |
| Names.FirstColumns | src/eventsVisitor.ts:715-732 | The creator is the first minter, the creation block and time those of the first mint or registration |
| Names.DbManager.UpsertDmdName | src/db/database-persistent.ts:1076-1139 | Inserts the row or merges it column by column |
| Names.DbManager.ProcessEvents | src/eventProcessor.ts:31-39 | Applies the first events of a block in order |
| Names.DbManager.FillBlock | src/db/runFillDb.ts:235-468 | The retries of a block leave what one clean attempt leaves |
| RateLimiter.ReturnedIsWindowCount | db/express/src/middleware/rateLimiter.ts:48-66 | The count returned is the number of the key's calls in the window ending with this one |
| RateLimiter.WindowLimit | db/express/src/middleware/rateLimiter.ts:163-194 | In no window of the key's length do more calls pass than the limit, although rejected calls are logged too |
| RateLimiter.CleanupInvisible | db/express/src/middleware/rateLimiter.ts:81-91 | Sweeps anywhere in a run change nothing any call or query returns |
| RateLimiter.TtlIsRight | db/express/src/middleware/rateLimiter.ts:68-78 | With a live entry the time to live is the least number of whole seconds after which the live count is lower, from 1 to the window; otherwise it is -1 |
| RateLimiter.RedisIsStricter | db/express/src/middleware/rateLimiter.ts:131-152 | For the same request times the Redis counter is never below the sliding count |
| RateLimiter.RedisCountsStretch | db/express/src/middleware/rateLimiter.ts:131-152 | The Redis counter is the length of the last stretch of requests with all gaps shorter than the window |
| InMemoryRateLimiter.InMemoryRateLimiter.Increment | db/express/src/middleware/rateLimiter.ts:48-66 | Returns the count of the log extended by this call |
| InMemoryRateLimiter.InMemoryRateLimiter.TimeToLive | db/express/src/middleware/rateLimiter.ts:68-78 | Returns the log's time to live |
| InMemoryRateLimiter.InMemoryRateLimiter.Sweep | db/express/src/middleware/rateLimiter.ts:81-91 | The store becomes that of the log extended by a sweep |
| InMemoryRateLimiter.InMemoryRateLimiter.Check | db/express/src/middleware/rateLimiter.ts:103-202 | Both counters are charged, then a request is admitted if and only if both counts are within their limits; only internal keys with a huge limit bypass |
| InMemoryRateLimiter.AdmittedPerMinute | db/express/src/middleware/rateLimiter.ts:163-194 | Of the requests of a key that the middleware admitted, no minute holds more than the key's minute limit |
| InMemoryRateLimiter.AdmittedPerDay | db/express/src/middleware/rateLimiter.ts:163-194 | No day holds more than its day limit |
| Rewards.SplitIsExact | src/db/runFillDb.ts:359-360 | For a percentage up to 100 the validator's part is within the pool reward and within half a wei of its share, upwards in a tie |
| Rewards.RewardMonotone | src/contractManager.ts:1227-1229 | A larger stake never earns less |
| Rewards.EachIsPaidItsShare | src/contractManager.ts:1217-1233 | Every reward is that of the stake at the same place, within half a wei of its share, upwards in a tie |
| Rewards.DriftBound | src/contractManager.ts:1217-1237 | Over n delegators the paid total is within n/2 wei of the proportional share |
| Rewards.FullPoolDrift | src/contractManager.ts:1217-1237 | When the stakes add up to the pool's, at most n/2 wei are over- or underpaid |
| Rewards.DriftAttained | src/contractManager.ts:1227-1229 | The bound is reached |
| Rewards.GetDelegateRewards | src/contractManager.ts:1189-1240 | Each delegator, in the order given, is paid within half a wei of its own share, upwards in a tie, nothing from a pool without stake; the operator's share likewise; the drift of the total is bounded |
| Rewards.SplitPoolReward | src/db/runFillDb.ts:359-360 | Validator part plus delegator part is the pool reward exactly |
| KeyGen.ProcessEpoch | src/analysis/getKeyGenStates.ts:78-232 | From the epoch's end back to the first block without pending validators: the rounds are exactly the blocks whose round number is strictly below that of every later one, consecutive rounds meet; the scan fails if and only if a pending validator at such a block has an unknown mode |
| KeyGen.StopExists | src/analysis/getKeyGenStates.ts:102-220 | The scan has a block to stop at as soon as some block up to the end has no pending validators |
| KeyGen.Classify | src/analysis/getKeyGenStates.ts:152-204 | The lists of a round are its pending validators sorted by mode; it fails if and only if a mode is not one of 0 to 5 |
| KeyGen.ListsByMode | src/analysis/getKeyGenStates.ts:156-200 | Which of the five lists name a validator, and how often, for each mode number and with or without its ACK in the block |
| KeyGen.ListsInOrder | src/analysis/getKeyGenStates.ts:152-204 | Each list keeps the order of the pending validators |
| KeyGen.PartsPartition | src/analysis/getKeyGenStates.ts:156-200 | Every pending validator in a key generation mode wrote its parts or missed them, never both; likewise for ACKs |
| KeyGen.SuccessMeans | src/analysis/getKeyGenStates.ts:36-39 | A round succeeds if and only if no pending validator still has to write a part or an unsent ACK |
| DeepMerge.SecondWins | src/localnet/localnet-builder.ts:159-171 | Every leaf of the second tree wins |
| DeepMerge.UntouchedKept | src/localnet/localnet-builder.ts:159-171 | A path the second tree does not mention keeps what the first has |
| DeepMerge.NumberedItems | src/localnet/localnet-builder.ts:159-171 | A spread array or string has one entry for each index, under its decimal text, and no other |
| DeepMerge.SpreadByIndex | src/localnet/localnet-builder.ts:159-171 | Under its index stands the item of an array, or the character of a string |
| DeepMerge.Idempotent | src/localnet/localnet-builder.ts:159-171 | Merging the same tree again changes nothing |
| DeepMerge.AssociativeExactly | src/localnet/localnet-builder.ts:159-171 | The two ways to merge three trees agree if and only if wherever the second has a leaf under a table of the third, the two replace everything the first has there |
| DeepMerge.NotAssociative | src/localnet/localnet-builder.ts:159-171 | Three concrete trees that do not associate |
| DeepMerge.DeepMerge | src/localnet/localnet-builder.ts:159-171 | The copy filled key by key is the merge, a string or an array under a table spread into its numbered entries |
| AwaitTransactions.Await | src/tools/awaitTransactions.ts:6-56 | Returns the first polled height by which every hash has occurred after the start, having confirmed each once and scanned no block twice |
| BitStrings.HexRoundTrip | src/db/database-persistent.ts:1331-1359 | Hex to bits and back is the lower-case hex, of any length |
| BitStrings.HexCharacters | src/db/database-persistent.ts:1331-1344 | The hexadecimal digits are 0 to 9, a to f and A to F |
| BitStrings.StripsFirst | src/db/database-persistent.ts:1331-1335 | Only the first "0x" is removed, wherever it stands |
| BitStrings.NothingToStrip | src/db/database-persistent.ts:1331-1335 | A text without "0x" stays as it is |
| BitStrings.BitsOfDigit | src/db/database-persistent.ts:1331-1344 | The four bits at a digit's place are set exactly for the powers of two in the digit, in either letter case |
| BitStrings.LastChunk | src/db/database-persistent.ts:1346-1359 | A last chunk of less than four bits counts as if zeros led it |
| BitStrings.BitsRoundTrip | src/db/database-persistent.ts:1331-1359 | Bits to hex and back are the same bits if and only if their number is a multiple of four |
| BitStrings.AddressRoundTrip | src/db/database-persistent.ts:1331-1359 | An address with or without prefix comes back lower-case with the prefix |
| BitStrings.ConvertEthAddressToPostgresBits | src/db/database-persistent.ts:1331-1344 | Converts the text without its prefix digit by digit |
| BitStrings.ConvertPostgresBitsToEthAddress | src/db/database-persistent.ts:1346-1359 | Converts chunks of four bits, the last possibly shorter |

## Left out

- Connections, reconnecting and statement retries: only table contents, keys, commit and abort are modelled.
- Foreign keys, except those into `headers` that `deleteDataFromBlock` meets, those of the stake tables into `node` (`NodeRetries`), that listed pools are registered nodes (`WellFormed`) and that delegators have staker rows.
- Numeric column precision: amounts have no upper bound.
- `bootstrapAtBlock`, the contents of header rows, `posdao_epoch_node` but for its key, `stake_transactions`, `dmd_name_events` and `bonus_score_change_reasons`: written once per block or event, without a rule that spans them.
- `Rollback.DbManager.DeleteDataFromBlock`: the deletes from `stake_transactions`, `bonus_score_change_reasons` and `available_event`, which no row of the model refers to; the delete from `posdao_epoch`, which is only reached when there is nothing to delete.
- `RollbackRuns.RunRollback`: runs in which a block is lost or processed twice.
- `BonusRestarts.RunRemembers`: what a lost block means for the other tables, which miss it too.
- `BonusRuns.AbortedRetry`: blocks that insert nodes, for which see `NodeRetries.StuckUntilRestart` and `BonusRestarts.RightExactly`.
- `BlockAgain.SecondPassExactly`: a restart that goes back more than one block, covered for the epoch rows only; `stake_transactions` and `dmd_name_events`, which get the events once more.
- `BonusRuns.RunTracks`: the batches of `processBatch` run their pools one after the other; distinct pools touch distinct rows.
- `Epochs.FillDb.Fill`: starts from an empty table or from rows that already are the level sets; the reward rows written in an epoch's transaction are left out.
- `Rewards.GetDelegateRewards`: the APY column is left out, and the delegators' total is taken to be non-negative, as it is for percentages up to 100.
- `KeyGen.ProcessEpoch`: the chain of epochs in `getKeyGenStates`, block times and printing are left out; some block up to the epoch's end must have no pending validators, else the scan leaves the chain.
- `DeepMerge.DeepMerge`: keys that every JavaScript object inherits, such as `constructor`.
- `AwaitTransactions.Await`: the node's height never falls and every hash is mined eventually; without that the original waits forever.
- `BitStrings.ConvertEthAddressToPostgresBits`: texts with characters that are not hexadecimal digits, which the original turns into "NaN"; likewise bits other than 0 and 1 on the way back.
- `InMemoryRateLimiter.InMemoryRateLimiter.Check`: the Redis connection, its fallback and the response headers; its four operations run without another request's between them, which `RateLimiter.WindowLimit` does not need; the Redis counter itself is `RateLimiter.Incr`.
- The reason detector, statistics queries, HTTP routes, network scripts and the watchdog.

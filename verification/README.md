# Verified model of the swap services

This project models the decision-making parts of a cross-chain atomic-swap system: the services that watch chains, move swap rows along, compute swap identifiers, follow bridge withdrawals and price orders. Each service is written in the form its code has (classes with methods and loops where the code updates state, functions where it computes), proved against a specification, and the system's promises are proved about that specification. `dafny verify dfyconfig.toml` checks everything.

| file | part of the system |
|---|---|
| BlockRange, EvmSwaps, EvmEvents, EvmRound, EvmWatcher, EvmCatchUp, EvmConfirmations | the EVM watcher: query ranges, row updates, one polling round, catching up with the chain, confirmations |
| Powers, Int32, BitStrings, ConvertBits, RegroupLaws, Bech32Address | bech32 addresses in the front end, on JavaScript's 32-bit operators |
| SolanaFollower, SolanaRows, SolanaProtocol | the Solana watcher's paging, the guarded row updates, and the watcher and executor as one state machine |
| SolverOrders | the solver-orders cache and its rebuild by concurrent tasks |
| InitiaScanner | the Initia watcher's checkpointed block scanner |
| Durations, Finalizer | the withdrawal finalizer and the two duration parsers |
| WithdrawalTracker | the front end's withdrawal records |
| Hex, SwapBytes, SwapIds | the EVM swap identifier in the orderbook and in the Initia executor |
| MarketData | the weighted mid price and the realized volatility |
| Common | options, results, integer bounds, text helpers |

Requests to nodes, services and databases are parameters or nondeterministic answers: they may fail, and ledgers may grow between them. A database table is a map and each SQL update a guarded map update. SHA-256 is an arbitrary function.

Assumptions, each stated where it is used:

- An on-chain HTLC is one-shot: it opens once, closes once by a redeem or a refund, and its logs carry the recorded blocks (`EvmRound.DealOk`, `SolanaProtocol.Htlc`).
- Swap ids differ by more than letter case, and row timelocks are 32-bit (`EvmRound.TableOk`).
- A closing is recorded only once an order is over, and orders do not reopen (`EvmCatchUp.Recorded`, kept by `RoundKeepsRecord`).
- L1 finalizes a withdrawal at most once, and says "already finalized" of what is finalized and only of that (`Finalizer.Honest`). A normal exit of the command line says nothing about L1.
- Solana signatures are distinct, and the node's page is empty only when nothing is left (`SolanaFollower.Node`).

Where the code does not meet what one would promise for it, the exact condition is proved:

- `RoundBringsStatus`, `OldInitiationStays`: a row whose initiation is more than a minute older than the row is not brought to the chain's status; nor is one whose redeem secret is not 64 characters long (`ShortSecretStays`). The comment above the selection in validate_swap.rs speaks of rows beyond their window; the code selects rows inside it, and the model follows the code.
- `Run` of the finalizer, `UnsettledIsSaved`: a normal exit of the command is taken for success and its broadcast answer is not read (seed-bridge-deposit.ts:177-181 does read it), so the saved sequence can pass a withdrawal that is not finalized; it does so exactly where a submission was left unsettled and nobody finalized it since, and it is not submitted again while the state file stands.
- `ShortForGood`, `FailedCountStays`: every re-read initiation sets the count back to one, and only the end of the round makes it exact again, so a round that fails in between near the end of the window leaves the count at one for good.
- `ClosingCount`, `EarlyRefundShort`: a closing recorded inside the window ends the row with a count below the required one.
- `JumpOfThreeStops`, `JumpLeavesOne`: heights that jump by three can leave a count one short for good.
- `RawAcceptedIsEncoding`, `AliasedWord`: values from 2^32 on are read by their low 32 bits. `bech32ToHex` never passes such values.
- `WaitsUnlessUnparseable`, `UnparseableIsNotAwaited`: comparing with the NaN of an unparseable time is false, so such a withdrawal is submitted at once.
- `AdditiveUnlessFused`, `FiveMinutesFuse`, `ParsersAgree`, `ParsersDisagree`: "5m" before "s" is read as "5ms"; "1.5s" is 5000 milliseconds to the finalizer and 1.5 seconds to the tracker.
- `ZeroPeriodNeverElapses`, `StalePatchMovesBack`, `FinalizedGoesBack`: a zero counts as unset; a snapshot older than the shown list can move a record from finalized to proven.
- `PreimagesEqualIff`, `ShortHashesCollide`: `generate_evm_swap_id` alone pads secret hashes on the right and so takes hashes that differ by zeros at the end for one; the length test of the service keeps such hashes out (`PreimageInjective`).
- `PreimagesAgree`, `LongTimelockDisagrees`: a destination timelock between 2^31 and 2^64 - 2^31 changes when stored in 32 bits, and the executor's identifier then differs from the stored one.

## Model

| member | source | states |
|---|---|---|
| BlockRanges.GroupBlockRanges | evm-watcher/src/block_range.rs:13-53 | The retain, sort, dedup and the grouping loop return the greedy grouping of the set of nonzero blocks. |
| BlockRanges.GroupingIsACover | evm-watcher/src/block_range.rs:13-53 | That grouping contains every nonzero input block; its ranges are ascending and disjoint, start and end at input blocks, and are narrower than max(1, span). |
| BlockRanges.GroupingIsOptimal | evm-watcher/src/block_range.rs:38-52 | No cover of the nonzero blocks by ranges under the span limit, wherever its ranges end, has fewer ranges. |
| BlockRanges.GroupingDependsOnSet | evm-watcher/src/block_range.rs:14-22 | Two inputs with the same nonzero blocks, in any order and with any repetition, give the same ranges. |
| EvmSwaps.SwapStore.HandleBatch | evm-watcher/src/swaps/store.rs:128-323 | One batched UPDATE: each row some event of the batch matches takes one such event, every other row stays as it was, and no row appears or vanishes. |
| EvmSwaps.EventWrites | evm-watcher/src/swaps/store.rs:128-323 | One event writes a row if and only if it names the row's swap, redeemer, asset and chain agree up to case, the timelocks are equal and an initiation is less than a minute older than the row; and it writes its own columns: amount and stamp with one confirmation, secret and stamp, or stamp. |
| EvmSwaps.SwapStore.UpdateEvents | evm-watcher/src/swaps/store.rs:384-408 | Every row goes through the initiate, then the redeem, then the refund batch of the events, and nothing else; if the statement of a non-empty batch fails, exactly the batches before it have been applied. |
| EvmSwaps.SwapStore.UpdateConfirmations | evm-watcher/src/swaps/store.rs:411-430 | Each count of the map is applied once to the listed rows, capped by the required count, in an order nobody controls; the call fails exactly when the failing statement lies inside the map, and then the counts before it are applied. |
| EvmSwaps.CountsApplied | evm-watcher/src/swaps/store.rs:411-430 | Whatever that order, a listed row ends with one of its counts, capped, and an unlisted row is unchanged. |
| EvmEvents.PrepareStoreEvents | evm-watcher/src/prepare_event.rs:16-88 | The two pushing loops yield exactly the version 2 and then the version 3 logs that carry an event of an order of this round. |
| EvmEvents.ValidateEvents | evm-watcher/src/validate_event.rs:6-43 | Kept are exactly the events whose swap is pending, whose timelock fits 32 bits and whose redeemer, asset, chain (up to case) and timelock are the row's. |
| EvmWatcher.CreateEventBlocksRanges | evm-watcher/src/watcher/watcher.rs:169-196 | The ranges of a round cover the initiation and fulfilment blocks of all its orders and are the greedy grouping of those blocks. |
| EvmWatcher.CollectConfirmations | evm-watcher/src/watcher/watcher.rs:298-325 | A swap is listed under a count exactly when it was before or a validated initiate event gives it that count. |
| EvmWatcher.SelectSwaps | evm-watcher/src/watcher/watcher.rs:136-166 | The orders kept are those of pending rows whose status differs from the chain or that are inside their confirmation window; rows without an order stay selected. |
| EvmWatcher.HTLCEventWatcher.ProcessEvents | evm-watcher/src/watcher/watcher.rs:199-295 | Without a fault of the stream or of the store, every row with an order in scope has exactly its one-row round result. If one fails, it stops at the first range that fails or else at the failing count, and every row in scope has exactly the writes of the ranges before it, of the batches of its range and of the counts applied by then. All other rows are untouched. |
| EvmWatcher.HTLCEventWatcher.Watch | evm-watcher/src/watcher/watcher.rs:87-131 | A round that completes has that effect and remembers the height; a round fails only if a read, an item of the stream or a store update does, and then leaves each row in scope with exactly the writes up to the fault it stopped at, and every other row alone; it is idle only on a lower height or without work; the remembered height never falls. |
| EvmCatchUp.RoundBringsStatus | evm-watcher/src/watcher/watcher.rs:87-279 | A row whose terms agree with its order has the order's status after the round if and only if its initiation is known (recent enough or recorded) and, where the order is over, its closing is readable or recorded; for rows with a closing recorded only once the order was over. |
| EvmCatchUp.RoundCatchesUp | evm-watcher/src/watcher/watcher.rs:87-279 | For the whole table after a completed round: agreeing rows have the chain's status exactly under that condition, and are then selected again only inside their confirmation window; rows without an order in scope or disagreeing with it are equal to before. |
| EvmCatchUp.ReselectedOnlyInWindow | evm-watcher/src/validate_swap.rs:11-43 | On the same chain a caught-up row is selected again if and only if its order is open and the height is at most its initiation block plus the required confirmations. |
| EvmCatchUp.DisagreeingUntouched | evm-watcher/src/validate_event.rs:27-43 | A row that differs from its order in redeemer, asset, chain (up to case) or timelock, or whose order was opened by a contract that is not watched, is left exactly as it was. |
| EvmCatchUp.ColumnsWritten | evm-watcher/src/watcher/watcher.rs:199-295 | Every column of an agreeing row after the part of a round that reached it: order amount, transaction, block and time of the initiation and of the closing, the secret, and the count min(required, height + 1 - initiation block). |
| EvmCatchUp.InScopeExactly | evm-watcher/src/swaps/store.rs:336-381 | A round works on a row if and only if it is of the chain, not initiated and not expired or initiated and not closed, and its order is not all zero and stands elsewhere than the row or is open and inside the row's window. |
| EvmCatchUp.FinishedNotPending | evm-watcher/src/swaps/store.rs:336-381 | After a round on a finished order's row whose initiation is recent enough or recorded and whose closing is readable, the row no longer meets the pending query. |
| EvmCatchUp.RoundKeepsRecord | evm-watcher/src/swaps/store.rs:128-323 | A round records a closing only for an order that is over, and writes block and hash of each step together. |
| EvmCatchUp.ClosedRowNotRead | evm-watcher/src/swaps/store.rs:354-372 | A row recorded as over, its hashes written with its blocks, is left out by the pending query, so no round reads or changes it. |
| EvmCatchUp.OldInitiationStays | evm-watcher/src/swaps/store.rs:128-191 | A concrete pending and selected row, created more than a minute after its order was initiated, that a round leaves uninitiated. |
| EvmCatchUp.ShortSecretStays | evm-watcher/src/prepare_event.rs:94-105 | A concrete fresh row of an order redeemed with a two-character secret: the round records the initiation, not the closing, and the row is selected again at any height. |
| EvmConfirmations.Follow | evm-watcher/src/watcher/watcher.rs:60-131 | The watcher run over any sequence of rounds, with any failures, at any heights and with the order closing at any of them: the row of a fresh swap goes through a trace whose effects are lawful (initiation before closing before count) and, wherever the height is not below an earlier one, are those the round's faults decide; a round without faults has all of them. |
| EvmConfirmations.CountIs | evm-watcher/src/swaps/store.rs:128-191 | After any rounds, failed ones and a closing included, the count is decided by the last round that re-applied the initiation: min(required, height + 1 - initiation block) if it got as far as the count, else one. |
| EvmConfirmations.ReadingCounts | evm-watcher/src/watcher/watcher.rs:298-325 | Every round that reads the row and gets as far as its count, every completed one in particular, makes it exact, whatever failed before. |
| EvmConfirmations.ShortForGood | evm-watcher/src/watcher/watcher.rs:60-70 | For heights of the rounds that get as far as the count growing by at most two and an open order: once such a round no longer reads the initiated row, it is short if and only if more than one confirmation is required and some failed round re-applied the initiation without counting, with no round inside the window getting as far as the count after it. |
| EvmConfirmations.CountIsExact | evm-watcher/src/watcher/watcher.rs:298-325 | When all rounds complete, the count is exact after each of them up to the one that records the closing; at any pace when at most one confirmation is required. |
| EvmConfirmations.ClosingCount | evm-watcher/src/swaps/store.rs:354-372 | The count at the round that records the closing is final: complete if and only if that round's height + 1 reaches initiation + required, and one if the round fails before its count. |
| EvmConfirmations.ConfirmationsComplete | evm-watcher/src/validate_swap.rs:24-34 | So between completed rounds the count never drops, through the closing too, and when a round no longer reads an open row the count is the required one. |
| EvmConfirmations.JumpOfThreeStops | evm-watcher/src/validate_swap.rs:24-34 | From two required confirmations on, a jump of three at the end of the window leaves the count one short, and no later round reads the row: two is tight. |
| EvmConfirmations.FailedCountStays | evm-watcher/src/watcher/watcher.rs:276-279 | A concrete run: initiation at 5, two required, a round at 6 completes (count 2), a round at 7 fails in its first confirmation update (count 1), and no round from height 8 on reads the row. |
| EvmConfirmations.EarlyRefundShort | evm-watcher/src/swaps/store.rs:354-372 | A concrete run: initiation at 5, refund at 6, five required, read at 6: the count stays 2 and no later round reads the row. |
| EvmConfirmations.JumpLeavesOne | evm-watcher/src/validate_swap.rs:24-34 | A concrete run with completed rounds at heights 5 and 8 that leaves one of two confirmations, read by no later round while the order is open. |
| ConvertBits.Convert | initia-fe/src/lib/bech32.ts:5-24 | For all group widths 1 to 8 and every length, the loop with its wrapping 32-bit accumulator returns what cutting one unbounded bit string gives, padded or strictly checked. |
| RegroupLaws.DecodesIffEncoded | initia-fe/src/lib/bech32.ts:5-24 | A word list decodes strictly to a result if and only if it is the padded encoding of that result and the padding is shorter than a word. |
| RegroupLaws.BytesRoundTrip | initia-fe/src/lib/bech32.ts:5-24 | Strictly decoding the 8-to-5 encoding of any bytes returns the bytes (BIP-173, "Segwit address format"). |
| RegroupLaws.AcceptedIsEncoding | initia-fe/src/lib/bech32.ts:18-23 | Every list of 5-bit words the strict decoder accepts is the encoding of its result. |
| RegroupLaws.RawAcceptedIsEncoding | initia-fe/src/lib/bech32.ts:10-11 | On raw numbers that pass the per-value test the same holds if and only if all of them are below 2^32. |
| RegroupLaws.AliasedWord | initia-fe/src/lib/bech32.ts:10 | The value 2^32 + 3 passes the per-value test, is read as the word 3, and the strict decoder accepts the list. |
| Bech32Address.DecodeBech32 | initia-fe/src/lib/bech32.ts:27-39 | Prefix and words of the lower-cased string: split at the last separator, six characters dropped, strangers refused. |
| Bech32Address.Bech32ToHex | initia-fe/src/lib/bech32.ts:45-55 | The conversion is the specified function of the lower-cased address. |
| Bech32Address.AddressConverts | initia-fe/src/lib/bech32.ts:27-55 | For any non-empty prefix, even one containing the separator, any 20 bytes and any six charset characters in either case, the result is the hex of the bytes. |
| Bech32Address.ConvertedIsSpelled | initia-fe/src/lib/bech32.ts:27-55 | Conversely, every string that converts is a non-empty prefix, separator, data part of 20 bytes and six characters, and the result is the hex of those bytes. |
| Bech32Address.CharacterValues | initia-fe/src/lib/bech32.ts:1-3 | Each of the 32 characters has its value in the table of BIP-173 ("Bech32"), written out. |
| Bech32Address.TableAddress | initia-fe/src/lib/bech32.ts:45-55 | The address whose data part is the whole table converts to its literal hex. |
| Bech32Address.HexOfByte | initia-fe/src/lib/bech32.ts:45-55 | A byte is written as its two lower-case hex digits. |
| SolanaFollower.SolanaClient.CollectSignatures | solana-watcher/src/solana-client.ts:39-66 | The paging loop ends, for any page sizes, growth and failures, with the signatures from the newest down to just after the cursor, without gap or repetition (down to the limit without a cursor). |
| SolanaFollower.SolanaClient.GetTransactions | solana-watcher/src/solana-client.ts:30-112 | The result is the successful transactions after the cursor, newest first, for the ledger at one moment between call and return. |
| SolanaFollower.KeptRange | solana-watcher/src/solana-client.ts:56-66 | Without a limit, or with one of zero, everything after the cursor is kept; a first run keeps the newest 100. |
| SolanaFollower.Watcher.ProcessFrom | solana-watcher/src/watcher.ts:56-141 | Either exactly those transactions are handed to the store in one call, or nothing is. |
| SolanaFollower.Watcher.Poll | solana-watcher/src/watcher.ts:35-48 | One turn keeps: the batches handed over so far are all successes between the start and the cursor, once, in order; a failed turn changes nothing and needs a failed call, a broken step or an unreadable transaction; once there is a cursor, a good turn leaves no unhandled success that was on the ledger. |
| SolanaFollower.Watcher.Run | solana-watcher/src/watcher.ts:24-49 | Any number of turns keeps that, never moves the cursor back and never forgets a batch. |
| SolanaFollower.HandedExactlyOnce | solana-watcher/src/watcher.ts:30-48 | So every successful transaction between the start and the cursor occurs exactly once in everything handed over, and every other transaction not at all. |
| SolanaRows.InitiatedOnce | solana-watcher/src/storage.ts:100-141 | An initiate event changes a row if and only if the row is not initiated and chain, initiator, redeemer, asset (the mint, or "primary" without one), timelock and normalized hash are the event's; it sets amount, transaction, slot and one confirmation, and nothing the second time. |
| SolanaRows.RedeemedOnce | solana-watcher/src/storage.ts:143-178 | A redeem event changes a row if and only if the row is initiated and open and has the chain, the initiator and the hash of the secret; it sets transaction, slot and secret; repeating it, or a refund of the same account after it, writes nothing. |
| SolanaRows.RefundedOnce | solana-watcher/src/storage.ts:180-211 | A refund event changes a row if and only if the row is initiated and open and has the chain, initiator and hash; it sets transaction and slot; repeating it, or a redeem of the same account after it, writes nothing. |
| SolanaRows.SwapsTable.UpdateEvents | solana-watcher/src/storage.ts:47-68 | A batch applies its events one after another, in the order given, leaving out exactly those whose statement throws. |
| SolanaRows.SwapsTable.UpdateConfirmations | solana-watcher/src/storage.ts:82-98 | The loop raises the counts of the rows whose count is lower, entry by entry, and returns how many row updates that took. |
| SolanaRows.RecordsOnce | solana-executor/src/storage.ts:126-158 | The executor's writes change exactly the one row, if it is of its chain and its hash column is empty, set exactly the columns of that closing, and nothing the second time. |
| SolanaRows.ConfirmationRaises | solana-watcher/src/storage.ts:82-98 | A confirmation count raises exactly the lower counts of the chain's rows with that initiate transaction. |
| SolanaRows.Hex32Exactly | solana-executor/src/server.ts:24-30 | A text is taken exactly if it is 64 hex digits after an optional "0x", and case does not matter to it. |
| SolanaProtocol.RedeemReadExactly | solana-executor/src/storage.ts:73-101 | When exactly a row becomes a redeem task of the poller or of the manual endpoint, and with which account and secret. |
| SolanaProtocol.RefundReadExactly | solana-executor/src/storage.ts:108-124 | When exactly a row becomes a refund task: open, initiated, of the chain and the executor's key, strictly past its timelock, with a well-formed hash. |
| SolanaProtocol.RedeemCompletes | solana-executor/src/main.ts:18-70 | A redeem task on an open account, submitted and recorded, closes the account and writes transaction, slot and secret to its row. |
| SolanaProtocol.RefundCompletes | solana-executor/src/main.ts:72-106 | The same for a refund task. |
| SolanaProtocol.StepSafe | solana-watcher/src/storage.ts:82-198 | Each step of the watcher, the two pollers, the manual endpoint, the customer and the program, from any state meeting the invariant, keeps the invariant and only advances rows. |
| SolanaProtocol.AlwaysSafe | solana-executor/src/main.ts:18-106 | In every state reachable by any interleaving from fresh rows, a row is closed only after it was opened, never both redeemed and refunded, and a recorded redeem secret hashes to the row's secret hash. |
| SolanaProtocol.RunAdvances | solana-executor/src/storage.ts:126-158 | Between any two moments of any run, transaction hashes and a redeemed secret stay as first written and confirmations never fall. |
| SolanaProtocol.RunKeepsInv | solana-executor/src/server.ts:69-132 | The invariant tying rows, open tasks, receipts and on-chain accounts holds after every run, manual redeems included. |
| SolverOrders.BuildIndex | solver-orders/src/cache.rs:120-151 | The index built by the loop holds, for every chain and solver, exactly the matching orders in list order, and nothing empty. |
| SolverOrders.LimitedIndexes | solver-orders/src/cache.rs:164-173 | Truncated, it answers every lookup with the first 1000 matching orders. |
| SolverOrders.IndexIsDetermined | solver-orders/src/cache.rs:119-186 | Only one cache does that for a given list of orders. |
| SolverOrders.LookupFinds | solver-orders/src/cache.rs:125-173 | A lookup finds orders of the list for the solver that redeems on their source chain or initiates on their other destination chain, in lower case except on Bitcoin and Solana: all of them while fewer than 1000, never more, and no others. |
| SolverOrders.CacheSyncer.ProcessOrders | solver-orders/src/cache.rs:119-186 | From any earlier cache and for any order in which the tasks run, the cache ends as that index, reached by a schedule of the rebuild's tasks. |
| SolverOrders.ReaderSeesOldOrNew | solver-orders/src/cache.rs:162-185 | After any part of any interleaving a chain reads as its old or its new value, and a chain present in both is never absent. |
| SolverOrders.RebuildReachesTarget | solver-orders/src/cache.rs:162-185 | Any finished interleaving of the insert and invalidate tasks ends in the new index. |
| InitiaScanner.PgStore.UpdateCheckpoint | initia-watcher/src/storage/pg_store.rs:51-70 | The upsert makes the chain and address (up to case) read back the block, through the casts to and from a signed column, and changes no other key. |
| InitiaScanner.HtlcWatcher.FetchAndProcess | initia-watcher/src/watcher/htlc_watcher.rs:82-126 | The call fails exactly when the tip or the needed logs cannot be read; otherwise it returns the next start and has queried exactly the blocks before it, unless there are none. |
| InitiaScanner.HtlcWatcher.Tick | initia-watcher/src/watcher/htlc_watcher.rs:59-77 | One turn keeps coverage and checkpoint, advances only over a queried range that stays below the tip, and keeps the start after an error. |
| InitiaScanner.HtlcWatcher.Restart | initia-watcher/src/watcher/manager.rs:66-70 | A restart from the stored checkpoint keeps that no block below the start is unqueried. |
| InitiaScanner.HtlcWatcher.Run | initia-watcher/src/watcher/htlc_watcher.rs:34-80 | Over any run of ticks, errors, lost saves, shutdowns and restarts: every block from the first start up to the current one has been queried, the checkpoint never passes the start, the ranges of the current life are consecutive; start and checkpoint are exactly what the events determine; and over ticks at one tip, with any errors and lost saves, the tip is reached if and only if at least ceil((tip - start) / (span + 1)) of them were answered. |
| InitiaScanner.LifeRangesDisjoint | initia-watcher/src/watcher/htlc_watcher.rs:94-99 | Consecutive ranges never overlap and stay within the life's start and position. |
| InitiaScanner.TicksCover | initia-watcher/src/watcher/htlc_watcher.rs:89-94 | After k successful ticks on a fixed tip the start is min(start + k (span + 1), tip). |
| InitiaScanner.TicksToTip | initia-watcher/src/watcher/htlc_watcher.rs:89-94 | The tip is reached after k successful ticks if and only if k is at least ceil((tip - start) / (span + 1)). |
| InitiaScanner.EventsAreTicks | initia-watcher/src/watcher/htlc_watcher.rs:59-77 | Ticks at one tip, with any errors and lost saves, move the start as far as the answered ones alone. |
| Finalizer.WithdrawalFinalizer.LoadState | initia-rollup/scripts/finalize-withdrawals.ts:78-100 | A life starts from the saved sequence of this bridge and chain, or from 1; everything before it is finalized on L1 or was called a success while L1 had not finalized it. |
| Finalizer.WithdrawalFinalizer.SaveState | initia-rollup/scripts/finalize-withdrawals.ts:102-105 | Saving sets the file and the memory; a kill during it leaves the old, the new or an unreadable file, and each of the three keeps the invariants. |
| Finalizer.WithdrawalFinalizer.FinalizeOnce | initia-rollup/scripts/finalize-withdrawals.ts:127-185 | A submission finalizes the sequence only if it was not yet finalized; a normal exit without that is remembered as unsettled; the invariants hold after each. |
| Finalizer.WithdrawalFinalizer.Visit | initia-rollup/scripts/finalize-withdrawals.ts:290-350 | One turn of the inner loop for all answers and kill points: what it submits, what L1 finalizes, what is called a success and left open, the file, and whether the loop goes on, stops or the process dies. |
| Finalizer.SubmitsExactly | initia-rollup/scripts/finalize-withdrawals.ts:290-315 | A submission is made if and only if the withdrawal is there with output index, proofs, root and hash and its output's time has passed by the period or does not parse. |
| Finalizer.WaitsOrDies | initia-rollup/scripts/finalize-withdrawals-lib.ts:155-178 | Without a submission the poll ends and tries again, except exactly where the withdrawal cannot be read, its output has no time, or the query for it fails with a text outside the eight that mean "later". |
| Finalizer.NotYetIsRetried | initia-rollup/scripts/finalize-withdrawals-lib.ts:139-142 | Refused with any text containing "output has not finalized", the turn ends the poll and the file stays. |
| Finalizer.AlreadyDoneIsPassed | initia-rollup/scripts/finalize-withdrawals-lib.ts:143-146 | Refused with any text containing "withdrawal already finalized" and not the former, it goes on and saves the next sequence. |
| Finalizer.OtherTextsDie | initia-rollup/scripts/finalize-withdrawals-lib.ts:147-153 | Refused with any other text, the process dies and the file stays. |
| Finalizer.NotYetOnFile | initia-rollup/scripts/finalize-withdrawals.ts:335-346 | On the finalizer with its file: a sequence refused as not finalized is the one the next turn and the next life begin with. |
| Finalizer.WithdrawalFinalizer.Poll | initia-rollup/scripts/finalize-withdrawals.ts:282-352 | One poll keeps the invariants; if all known withdrawals are due and accepted it ends with the file and the memory just after the last of them. |
| Finalizer.WithdrawalFinalizer.Live | initia-rollup/scripts/finalize-withdrawals.ts:250-354 | One process, killed anywhere, keeps the invariants and undoes nothing; its first submission is for the sequence the file says; if nothing goes wrong it gets past every withdrawal its polls have seen. |
| Finalizer.WithdrawalFinalizer.Run | initia-rollup/scripts/finalize-withdrawals.ts:277-353 | Over any number of crashes and restarts: everything before the saved sequence is finalized if and only if every unsettled sequence before it is by now, always so if no submission was left unsettled; own finalizations are never repeated and strictly increasing except for sequences unsettled before; no submission came before its time or out of turn; while no save is torn the file never moves back and nothing below it, an unsettled sequence included, is submitted again; a last life where nothing goes wrong gets past everything it sees. |
| Finalizer.FinalizedUnlessUnsettled | initia-rollup/scripts/finalize-withdrawals.ts:327-341 | The equivalence used there, for any saved sequence. |
| Finalizer.UnsettledIsPassed | initia-rollup/scripts/finalize-withdrawals.ts:147-174 | The concrete failing input: sequence 1 due, a normal exit, no finalization; the loop goes on. |
| Finalizer.UnsettledIsSaved | initia-rollup/scripts/finalize-withdrawals.ts:327-333 | The same input on the finalizer itself: the file says 2 and sequence 1 is not finalized. |
| Finalizer.NewestOwn | initia-rollup/scripts/finalize-withdrawals.ts:327-341 | The step of the ordering argument: a sequence not yet finalized, with everything below it cleared, lies above every earlier own finalization or was unsettled before. |
| Finalizer.PassedIsFinalized | initia-rollup/scripts/finalize-withdrawals.ts:327-350 | A sequence the loop passes is finalized if and only if it is not the case that the command exited normally for one L1 has not finalized; and a submission that landed unseen is met as finalized and passed by the next life without a second finalization. |
| Finalizer.WaitsUnlessUnparseable | initia-rollup/scripts/finalize-withdrawals.ts:247-315 | A submission would be made at every clock reading if and only if the output's time does not parse; otherwise it is made at or after that time plus the period. |
| Finalizer.UnparseableIsNotAwaited | initia-rollup/scripts/finalize-withdrawals.ts:247-315 | With a day's period and the clock at zero, an unparseable time is submitted at once and the time zero is not. |
| Durations.ParseDurationMs | initia-rollup/scripts/finalize-withdrawals-lib.ts:104-137 | The loop returns the total of the matches of the pattern, or an error exactly when there is no match. |
| Durations.UnitsRead | initia-rollup/scripts/finalize-withdrawals-lib.ts:113-126 | Any digits before "h", "m", "s" or "ms" stand for 3600000, 60000, 1000 or 1 times their number. |
| Durations.ParseInvertsPrint | initia-rollup/scripts/finalize-withdrawals-lib.ts:105-130 | Any list of integral parts, printed one after another, is read back as exactly those parts, so "m" is never taken for the start of "ms". |
| Durations.AdditiveUnlessFused | initia-rollup/scripts/finalize-withdrawals-lib.ts:105-130 | The amount of a well-formed text followed by any text is the sum of both amounts if and only if it is not the case that a nonzero "m" part runs into an "s". |
| Durations.FiveMinutesFuse | initia-rollup/scripts/finalize-withdrawals-lib.ts:105-130 | The text "5m" stands for 300000, "s" for 0 and "5ms" for 5. |
| Durations.ParsersAgree | initia-fe/src/lib/withdrawal-tracker.ts:134-140 | On a text the tracker accepts, the finalizer reads 1000 times the tracker's seconds if and only if the text has no dot, or all its digits are zeros and a digit stands before the "s". |
| Durations.ParsersDisagree | initia-fe/src/lib/withdrawal-tracker.ts:134-140 | The text "1.5s" is 1.5 seconds to the tracker and 5000 milliseconds to the finalizer. |
| WithdrawalTracker.Advance | initia-fe/src/lib/withdrawal-tracker.ts:228-298 | The error it throws, or the patch it returns (none if it would be empty), as functions of the record and the services' answers. |
| WithdrawalTracker.AdvanceMovesAhead | initia-fe/src/lib/withdrawal-tracker.ts:228-298 | Applied to a sound active record, the patch keeps it sound, never moves the status back and never changes an identifier it has. Sound: proven or finalized has sequence, bridge and output index; finalized has an L1 hash or an elapsed period. |
| WithdrawalTracker.FinalizesExactlyWhen | initia-fe/src/lib/withdrawal-tracker.ts:275-295 | A sound record ends finalized if and only if it was, or its withdrawal is located and the period has elapsed or a proven one's L1 transaction is found. |
| WithdrawalTracker.LocatedExactly | initia-fe/src/lib/withdrawal-tracker.ts:228-252 | Located, on the fields: a sequence known or answered, and both identifiers known or the executor answering, where empty texts count as missing. |
| WithdrawalTracker.ElapsedExactly | initia-fe/src/lib/withdrawal-tracker.ts:254-275 | Elapsed, on the fields: the clock is at or past the output's time plus the period, the record's or 1000 times the seconds of the bridge's text, where zeros count as missing. |
| WithdrawalTracker.PeriodInMilliseconds | initia-fe/src/lib/withdrawal-tracker.ts:171-178 | A text of n seconds puts 1000 n into the record, and without an L1 transaction the record is declared finalized exactly from the output's time plus that on. |
| WithdrawalTracker.IdentifiersTaken | initia-fe/src/lib/withdrawal-tracker.ts:232-249 | Sequence and height are the rollup transaction's, bridge and output index the decimal digits of the executor's two numbers. |
| WithdrawalTracker.ZeroPeriodNeverElapses | initia-fe/src/lib/withdrawal-tracker.ts:255-275 | With a period of zero, which counts as unset, time alone never finalizes a record. |
| WithdrawalTracker.StalePatchMovesBack | initia-fe/src/lib/withdrawal-tracker.ts:199-205 | A patch computed from an old copy moves a record back if and only if the record is finalized by now and the patch says proven. |
| WithdrawalTracker.FinalizedGoesBack | initia-fe/src/lib/withdrawal-tracker.ts:199-205 | A concrete finalized record and an old copy of it whose patch makes it proven. |
| WithdrawalTracker.Tracker.AddRecord | initia-fe/src/lib/withdrawal-tracker.ts:207-214 | A record is put in front unless its transaction hash is listed; hashes stay unique. |
| WithdrawalTracker.Tracker.RemoveRecord | initia-fe/src/lib/withdrawal-tracker.ts:216-222 | Exactly the records of that hash go; hashes stay unique. |
| WithdrawalTracker.AddsAndRemoves | initia-fe/src/lib/withdrawal-tracker.ts:207-222 | Added, a record comes in front unless its hash is there; after a removal exactly the records of other hashes are left. |
| WithdrawalTracker.Tracker.Tick | initia-fe/src/lib/withdrawal-tracker.ts:300-322 | The loop over the active records, each updated by its hash, turns the list into the position-wise result, however early it is cancelled. |
| WithdrawalTracker.TickMovesAhead | initia-fe/src/lib/withdrawal-tracker.ts:300-322 | One tick moves every record only ahead, position by position, and keeps all of them sound. |
| WithdrawalTracker.TickAsks | initia-fe/src/lib/withdrawal-tracker.ts:300-322 | A tick that is not cancelled asks about exactly the pending, the proven and the finalized records without an L1 transaction. |
| WithdrawalTracker.Tracker.Run | initia-fe/src/lib/withdrawal-tracker.ts:224-330 | Over any run of ticks, additions of pending records and removals the list is what the events determine: hashes stay unique, records stay sound, and every record not removed is still there, moved only ahead. |
| Hex.DigitValues | orderbook/src/orders/matching.rs:158-187 | The hex digits of both cases have their values. |
| Hex.DecodeStrippedLower | orderbook/src/orders/service.rs:207-211 | Lower-casing a stored address, "0x" included, does not change the bytes it stands for. |
| SwapBytes.LeftPadKeepsValue | orderbook/src/common.rs:78-86 | Left padding has the asked width, or the length of longer bytes, and stands for the same number. |
| SwapBytes.RightPaddedShape | orderbook/src/common.rs:89-101 | The text is refused exactly when it is no hex or too long; otherwise its bytes come first, the width is the asked one, and the number is theirs times a power of 256. |
| SwapBytes.HexToHash | orderbook/src/common.rs:104-117 | Filling the 32-byte buffer gives the bytes behind zeros, or their last 32. |
| SwapBytes.AbiEncodeUint256 | orderbook/src/common.rs:120-126 | Filling the buffer gives the 256-bit big-endian word, and no value exactly when the number needs more than 32 bytes. |
| SwapBytes.PaddedIsWord | orderbook/src/common.rs:120-126 | Minimal big-endian bytes fit in m bytes if and only if the number is below 256^m, and padded on the left they are its base-256 digits. |
| SwapIds.GenerateEvmSwapPreimage | orderbook/src/orders/matching.rs:158-187 | Growing the buffer step by step gives the specified layout for the version, or no identifier exactly when a field is malformed. |
| SwapIds.IdentifierExists | orderbook/src/orders/matching.rs:158-187 | There is an identifier if and only if the chain id has 64 bits, the secret hash is hex of at most 32 bytes, the addresses are hex and, from version 2 on, the amount is whole and not negative and amount and timelock are below 2^256. |
| SwapIds.PreimagesEqualIff | orderbook/src/orders/matching.rs:158-187 | For the generator alone, where the addresses the version hashes have 20 bytes: two preimages are equal if and only if version, chain id, initiator and, as far as the version has them, redeemer, timelock, amount and HTLC address are equal and the decoded secret hashes differ at most by zero bytes at the end. |
| SwapIds.PreimageInjective | orderbook/src/orders/service.rs:315-328 | For secret hashes the service lets through, 64 hex digits, equal preimages imply that all those fields and the decoded secret hashes are equal. |
| SwapIds.ShortHashesCollide | orderbook/src/common.rs:89-101 | The secret hashes "ab" and "ab00" are different bytes and give the same preimage. |
| SwapIds.ExecutorAccepts | initia-executor/src/htlc.rs:69-99 | From the stored row of a version 3 swap the executor rebuilds a preimage if and only if the three addresses have 20 bytes and the amount is below 2^128. |
| SwapIds.PreimagesAgree | initia-executor/src/htlc.rs:45-66 | That preimage equals the one the orderbook hashed, addresses lower-cased in between, if and only if the timelock is below 2^31 or at least 2^64 - 2^31. |
| SwapIds.LongTimelockDisagrees | orderbook/src/orders/service.rs:125-137 | A concrete version 3 swap with a timelock of 2^31 for which both preimages exist and differ. |
| SwapIds.SourceTimelockSurvives | orderbook/src/orders/service.rs:83-137 | The source timelock, cast to 32 bits before hashing, always meets that condition; it is twelve times the minimum while that fits. |
| SwapIds.StoredAddresses | orderbook/src/orders/service.rs:143-158 | Stored addresses are equal if and only if the given ones are, up to case except on Bitcoin and Solana. |
| SwapIds.OlderVersionsDiffer | orderbook/src/orders/matching.rs:169-184 | For versions 1 and 2 the two preimages are never equal. |
| MarketData.VwmpIsBetween | orderbook/src/pricing/computation.rs:22-51 | With non-negative weights the weighted mid lies between any bounds on the mids. |
| MarketData.QuotesAreBest | orderbook/src/pricing/computation.rs:51-66 | The quotes are the largest positive bid and the smallest positive ask, or zero where there is none. |
| MarketData.VenuesCounted | orderbook/src/pricing/computation.rs:27-73 | There is a snapshot if and only if the weights sum to more than zero; it counts the samples up to 255 and compares all of them with the least number of venues. |
| MarketData.ThreeVenues | orderbook/src/pricing/computation.rs:22-73 | Concrete snapshots: two exchanges and an aggregator, the aggregator alone, no sample, no weight. |
| MarketData.ThresholdIsInterval | orderbook/src/pricing/computation.rs:76-84 | For a nonzero median the filter keeps exactly an interval around it. |
| MarketData.VwmpPassesFilter | orderbook/src/pricing/computation.rs:22-84 | If every sample passes the outlier filter for a median, so does the weighted mid. |
| MarketData.OrderIrrelevant | orderbook/src/pricing/computation.rs:22-73 | Any permutation of the samples gives the same snapshot, all fields included. |
| MarketData.WeightScaleIrrelevant | orderbook/src/pricing/computation.rs:31-51 | A common positive factor on the weights gives the same snapshot. |
| MarketData.ComputeRealizedVolatility | orderbook/src/pricing/computation.rs:94-135 | The loop over the history returns the specified volatility; no division in it is by zero. |
| MarketData.DivisorIsPositive | orderbook/src/pricing/computation.rs:116-125 | If the sum of squares is not zero there are at least two returns. |
| MarketData.ZeroVolatility | orderbook/src/pricing/computation.rs:112-134 | There is a volatility if and only if some step starts from a positive price and the yearly factor is not both needed and missing; it is never negative; it is zero if and only if all returns are equal or the root of their positive variance is missing or not positive. |
| MarketData.UnitIrrelevant | orderbook/src/pricing/computation.rs:102-134 | Multiplying all prices by a positive factor leaves the volatility unchanged. |
| MarketData.ThreeReturns | orderbook/src/pricing/computation.rs:94-135 | A concrete history of five prices, one skipped, with variance 0.03 over two degrees of freedom. |

## Left out

- HTTP, RPC, ZMQ, wallet and Postgres plumbing, transactions and rollbacks of single statements, logging, metrics and shutdown signals other than the scanner's.
- SHA-256 itself, and the contracts beyond the one-shot assumption.
- OrderMapper and the rest of the tars crate, the quote matcher, quote service and strategy builder are not part of this model.
- The alignment of multicall answers in evm-watcher/src/watcher/watcher.rs:333-370: every swap is taken to convert to a request.
- The EVM watcher's swap cache (evm-watcher/src/watcher/multi.rs): each round reads fresh rows; of the pending query, the ignored chains and supported assets.
- EvmSwaps.Row: required confirmations are not negative, and block numbers and block numbers plus spans stay below 2^64.
- EvmWatcher.HTLCEventWatcher.Watch: the order in which several events in one batch hit the same row is left open, as SQL leaves it.
- EvmConfirmations.Follow: reorganisations of the chain are not modelled: initiation and closing keep their logs and blocks.
- Lower-casing is ASCII; text outside ASCII is not modelled.
- normalizeToEvmAddress in initia-fe/src/lib/bech32.ts, and a bech32 checksum test, which the code does not make.
- SolanaFollower.Watcher.Run: the endless loop runs for any number of turns; a first run without a cursor begins 100 transactions back, and a cursor string that is not on the ledger is not modelled.
- SolanaProtocol.StepSafe: rows of other chains are unconstrained; that rows always reach the chain's state is not claimed, because a batch is applied newest first and a redeem needs a prior initiate.
- SolverOrders.CacheSyncer.ProcessOrders: cache expiry, capacity eviction and polling backoff; entries live until replaced.
- InitiaScanner.HtlcWatcher.FetchAndProcess: applying the fetched logs, since a log that fails is only warned about and the range still advances; configured addresses carry their "0x", and blocks stay below 2^64.
- Finalizer.WithdrawalFinalizer.Visit: the executor is taken to answer for the sequence asked; a state file edited by hand, fractional numbers and the temporary payload file.
- Durations.ParseDurationMs: rounding of numbers beyond 2^53; the tracker's parser is likewise exact.
- WithdrawalTracker.Tracker.Tick: ticks do not overlap, no record is removed and added again within a tick, and the stored list is the shown one; saves that fail are covered by StalePatchMovesBack only.
- SwapIds.PreimagesAgree: the executor's configured chain id and, for tokens, its configured HTLC address are those of the order; the refund path, which uses the filled amount, agrees when that amount is the order's.
- SwapIds.GenerateEvmSwapPreimage: parsing of the chain id's text; a panic of abi_encode_uint256 and an error are both "no identifier".
- The bitcoin, Solana, Starknet and Sui identifier schemes, match fees and order signing.
- MarketData.ComputeRealizedVolatility: fixed-precision rounding; the square root and the yearly factor are parameters. depth_usd, fetching and retention of samples.
- User interface, prompts, key generation, environment scripts, Bitcoin scripts and signing.

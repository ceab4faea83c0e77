# Verified models of node internals

This project models nine parts of the MuBdI node, a descendant of Bitcoin and PIVX, and
proves what their code and documentation promise. Objects that the node updates in place
are classes here, with methods proved against functions of the old state; the laws are
lemmas about those functions. Collections behind C++ iterators are sequences, sets and maps.
Integers are unbounded except where a width is written out.

- **Address manager** (`AddrMan*.dfy`). `AddrManState` holds the tables and their
  invariant, `AddrManSteps` and `AddrManMoves` what each step does to a manager that is
  consistent only up to peers in transit, `AddrManSpec` what the public calls do to the
  peers as seen from outside, `AddrMan` the class, `AddrManRuns` whole runs, `AddrManLaws`
  what each call means for each peer, without the words of the specification, and how few
  buckets an address range reaches, `AddrManCheck` the consistency check of the original and
  that it is this invariant, and `AddrManDisk`, `AddrManReading` and `AddrManLoad` the stream.
  Groups and hashes are arbitrary functions and the table sizes arbitrary numbers; time, randomness
  and routability are arguments.
- **Unspent outputs** (`CoinsRecord`, `CoinsStack`, `CoinsCache`). A stack of write-back
  caches over a database shows one flat map from transaction ids to records.
- **Their bytes** (`VarInts`, `Amounts`, `Scripts`, `CoinsSerial`).
- **Check queue** (`CheckQueue`, `CheckQueueProtocol`). The critical sections are methods of
  the class; the protocol is a state machine of one master and any number of workers whose
  steps are those sections, single checks, and notified or spurious wake-ups.
- **Coins in denominations** (`Denominations`, `CoinSelection`, `SpendFunctions`,
  `MintSelection`). The list of denominations is a parameter: positive, rising, each
  dividing the next. A denomination is its position in the list, and -1 is ZQ_ERROR.
- **Payments** (`PaymentOutputs`, `BudgetPayments`, `BudgetManager`, `BlockRewards`,
  `MasternodePayments`). Rewards are those of the main network.
- **Numbers** (`Numerals`, `Base58`, `Limbs`, `LimbShifts`, `ArithUint`, `Compact`). The
  width of `base_uint` is a parameter; the compact form uses eight limbs.
- **Chain** (`SkipHeights`, `BlockIndex`, `Chain`) and **stake modifier** (`StakeModifier`).
- **Page locks and bounded map** (`LockedPages`, `LimitedMap`).

`Arithmetic` and `Prelude` hold what several of these share.

Where the code differs from its documentation or from what one would expect, the model
follows the code:

- `CAddrMan::Clear` leaves the entries and the index in place, so clearing a used manager
  does not give a consistent one, and reading a stream needs a fresh manager.
- Undoing the last spend of a coinstake loses its coinstake flag.
- `CCoinsViewCache::Flush` without a best block overwrites that of the cache below.
- A version or height below zero does not survive `CCoins::Serialize`, and
  `CCoins::GetSerializeSize` can announce too few bytes.
- The payment history does not know blocks. A block validated twice counts as a double
  payment. After a proposal has been accepted, the next validation for it accepts it again
  exactly when, since then, a matching validation was of a budget whose window does not hold
  the height of the first payment; that cannot happen within a cycle while heights do not fall.
- With fewer than ten masternodes no budget block is valid.
- The masternode validator asks for exactly the required payment, where its comment says at
  least. A miner takes the payment for the height of the last block, the validator for the
  height of the block, so at the seven heights where the reward falls a block filled for an
  enforced payee is refused.
- A stake with fewer than two outputs pays the masternode from nothing.
- The comments on the masternode's shares (core/src/main.cpp:1862, 1870) name other
  percentages than the code pays, a half and sixty.
- `base_uint::operator*=` with itself as argument gives zero.
- `limitedmap` keeps one entry less than its maximum and never drops the entry that has
  just come in; once `max_size` has cut it to exactly its new maximum it grows without bound.
- The design notes of the address manager speak of a random victim in a full bucket
  (core/src/addrman.h:124-130); the code looks at one cell only.
- The documented variable-length integers for 16511 and 65535 (core/src/serialize.h:410-411)
  are not what the code writes, and the documented records of core/src/coins.h:45-76 have
  header codes without the coinstake bit.

## Model

| member | source | states |
|---|---|---|
| AddrManImpl.CAddrMan.Find | core/src/addrman.cpp:80-91 | An address is found exactly when the index and the table of entries both know it, and its id is the indexed one |
| AddrManImpl.CAddrMan.Create | core/src/addrman.cpp:93-103 | The whole new state: one entry with the next id, indexed by address and last in the random order |
| AddrManMoves.Creates | core/src/addrman.cpp:288-292 | A created, penalised and counted newcomer leaves the manager consistent but for being in no table yet, and adds exactly that peer to what is seen from outside |
| AddrManImpl.CAddrMan.SwapRandom | core/src/addrman.cpp:105-123 | The whole new state: two places of the random order exchanged, with the back references |
| AddrManSteps.SwappedKeeps | core/src/addrman.cpp:105-123 | Swapping two places keeps the invariant and changes no peer |
| AddrManImpl.CAddrMan.Delete | core/src/addrman.cpp:125-137 | The whole new state after deleting an unreferenced entry; the assertions of the source are its preconditions |
| AddrManSteps.DeletedKeeps | core/src/addrman.cpp:125-137 | Deleting an unreferenced entry keeps the invariant (index, random order, counters) and removes exactly that peer |
| AddrManImpl.CAddrMan.ClearNew | core/src/addrman.cpp:139-152 | The whole new state after emptying one cell of the "new" table |
| AddrManSteps.DroppedKeeps | core/src/addrman.cpp:143-150 | Taking an id out of a cell finds a positive count, and the count becomes zero exactly when that was its only cell |
| AddrManSteps.ClearedKeeps | core/src/addrman.cpp:139-152 | Emptying a cell keeps the invariant; its peer disappears exactly when it stood in no other cell, and every other peer is untouched |
| AddrManSteps.ClearedTouches | core/src/addrman.cpp:139-152 | Emptying a cell leaves the "tried" table, the other cells and all other entries as they were, up to the random order |
| AddrManSteps.LeavingEnds | core/src/addrman.cpp:156-163 | After the scan of all "new" buckets the entry stands in no cell and its reference count is exactly zero (the assertion after the scan) |
| AddrManMoves.EvictedLeaves | core/src/addrman.cpp:169-178 | The occupant of the wanted "tried" cell is known, is marked tried and sits at its own hashed position; taken out, it is in no table |
| AddrManMoves.EvictedClears | core/src/addrman.cpp:180-185 | Emptying the home cell of the evicted peer keeps both peers in transit, although the clearing may delete a third one |
| AddrManMoves.EvictedEnters | core/src/addrman.cpp:186-192 | The evicted peer enters its home cell of the "new" table and is counted again |
| AddrManMoves.EntersTried | core/src/addrman.cpp:194-200 | The promoted peer takes the free "tried" cell, which restores the whole invariant |
| AddrManMoves.MakeTriedViewIs | core/src/addrman.cpp:154-200 | All steps of the promotion together are the one outside transition: promoted, at most one peer evicted to its home cell, at most one peer of that cell displaced |
| AddrManImpl.CAddrMan.MakeTried | core/src/addrman.cpp:154-200 | From a valid manager to a valid manager whose peers are those of that transition |
| AddrManImpl.CAddrMan.Good | core/src/addrman.cpp:202-249 | A valid manager stays valid; times and attempts are set, and a known "new" peer with that service is promoted |
| AddrManImpl.CAddrMan.Add | core/src/addrman.cpp:251-317 | A valid manager stays valid; the peers and the result are those of the specification: known addresses are refreshed by the rules for time, services and repeated sightings, others enter, subject to the occupant of their cell |
| AddrManMoves.Inserts | core/src/addrman.cpp:305-308 | Clearing the wanted cell and storing the id restores the invariant and adds exactly that cell to the peer |
| AddrManMoves.YieldsIs | core/src/addrman.cpp:296-304 | Whether a cell may be overwritten, decided on reference counts, is what it is on the peers and their cells |
| AddrManMoves.GivesUp | core/src/addrman.cpp:309-313 | A newcomer that finds no place is deleted, and the manager is as consistent as before |
| AddrManImpl.CAddrMan.Attempt | core/src/addrman.cpp:319-336 | Only the attempt time and count of the peer with exactly that service change |
| AddrManImpl.CAddrMan.Connected | core/src/addrman.cpp:483-501 | Only the time of the peer with exactly that service changes, and only after the update interval |
| AddrManImpl.CAddrMan.GetAddr | core/src/addrman.cpp:462-481 | Every address told is of a distinct presentable peer; at most 2500 and 23 percent of the peers, and all presentable peers are told if the limit is not reached |
| AddrManLaws.AddRefreshes | core/src/addrman.cpp:260-284 | A known peer seen again: its time becomes the told one less the penalty exactly when one is told and the old one is missing or, beyond the penalty, more than an hour (a day if not seen within a day) behind; services are united, and nothing else of it changes |
| AddrManLaws.AddSpreads | core/src/addrman.cpp:270-317 | It gets one cell more exactly when what is told is news, it is not tried, in fewer than eight cells and not in that one, the draw falls for it, and whoever is in the cell is terrible; that one loses the cell, and leaves if it was its last |
| AddrManLaws.OneInMany | core/src/addrman.cpp:282-287 | Each cell a peer has makes the next one twice as rare: of two to that many random numbers in a row exactly one is for it |
| AddrManLaws.AddIntroduces | core/src/addrman.cpp:288-317 | An unknown peer enters, as reported, exactly when whoever is in its home cell is terrible or stands elsewhere too; otherwise nothing changes |
| AddrManLaws.GoodPromotes | core/src/addrman.cpp:202-249 | A promotion sets success and try, clears the failures, and leaves the time of sighting; a peer already tried only gets its times |
| AddrManLaws.GoodIntoEmpty | core/src/addrman.cpp:166-200 | Without an occupant of its "tried" cell no other peer changes |
| AddrManLaws.GoodEvicts | core/src/addrman.cpp:169-200 | The occupant goes back to exactly its home cell of the "new" table, whose occupant loses that cell; nobody else changes |
| AddrManLaws.AttemptCounts | core/src/addrman.cpp:319-336 | One attempt more at that time for exactly that service, and nothing else |
| AddrManLaws.ConnectedMoves | core/src/addrman.cpp:483-501 | The time moves exactly when it is more than twenty minutes behind |
| AddrManLaws.WhoIsPresentable | core/src/addrman.cpp:38-56 | Each rule for terrible peers, and that everyone else is presentable; one tried within the last minute always is |
| AddrManLaws.SourceSpreadsLittle | core/src/addrman.cpp:24-30 | All peers that the addresses of one range report go into at most 64 buckets of the "new" table |
| AddrManLaws.RangeIsBounded | core/src/addrman.h:113-133 | In every sound manager, whatever the hashes, one address range has at most 8 buckets of tried peers, with 64 places each |
| AddrManRuns.StepIsSound | core/src/addrman.cpp:93-317 | Every call with a positive time keeps the outside rules: at most 8 cells per peer, tried peers in none, hashed positions, no two peers in one cell |
| AddrManRuns.RunsAreSound | core/src/addrman.cpp:385-459 | From the empty manager every run of calls keeps those rules |
| AddrManRuns.TriedSurvives | core/src/addrman.cpp:154-200 | No single call makes the manager forget a tried peer; only another promotion can move it back to "new" |
| AddrManRuns.GoodIsSound | core/src/addrman.cpp:202-249 | A promotion keeps the rules, forgets no tried peer, and the promoted peer is tried afterwards |
| AddrManRuns.GoodAtTimeZero | core/src/addrman.cpp:202-249 | A promotion at time zero always breaks the rules, which is why times are positive |
| AddrManRuns.ConsistentShowsSound | core/src/addrman.cpp:385-459 | The invariant of the tables implies the outside rules, and both counters count the peers of their kind |
| AddrManImpl.CAddrMan.Clear | core/src/addrman.h:446-464 | The whole new state; since the entries and the index are not emptied, the result is valid if and only if both were empty before |
| AddrManImpl.BlankIsConsistent | core/src/addrman.h:446-464 | A state with empty tables and zero counters is consistent if and only if it has no entries and no index |
| AddrManDisk.Serialize | core/src/addrman.h:294-341 | What is written lists every "new" and every "tried" peer once, and in each bucket exactly the peers with a cell there |
| AddrManLoad.RowStep | core/src/addrman.h:406-422 | Restoring the next cell of a bucket finds it free and the entry known with room for a reference |
| AddrManLoad.RestoringEnds | core/src/addrman.h:405-434 | When all buckets have been read no entry is left without a cell, and the peers are the written ones |
| AddrManLoad.Unserialize | core/src/addrman.h:344-439 | A fresh manager reading what represents a view becomes valid with that key and those peers, except for the time of the last try; reading any stream that announces no address twice and no impossible time of success gives a valid manager whose peers are all named by the stream, whatever its rows say and whatever finds no place; on any other input the random order and the entries still match |
| AddrManReading.ReadingNew | core/src/addrman.h:364-370 | One more entry of the first list, with a new address, keeps everything but the counters consistent |
| AddrManReading.ReadingPlaced | core/src/addrman.h:371-420 | An entry that takes an empty cell, by its source or by an index of a row, keeps it so |
| AddrManReading.ReadingTried | core/src/addrman.h:384-402 | So does an entry of the second list that finds its cell empty |
| AddrManReading.ReadingEnds | core/src/addrman.h:382-403 | When both lists have been read the counters are right, and only new entries without a cell are left over |
| AddrManLoad.RoundTrip | core/src/addrman.h:294-439 | Serializing any valid manager and unserializing into a fresh one gives the same key and the same peers with the same cells, up to ids and random order, and without the memory-only time of the last try |
| AddrManLoad.StreamLayout | core/src/addrman.h:263-341 | The order of the stream: version, key size, key, both counts, the bucket count with its format bit, the new peers, then the tried ones |
| AddrManCheck.Check | core/src/addrman.cpp:385-459 | The result is zero if and only if the manager passes, stated without loops: sizes, every entry, every occupied cell of both tables, and counts that match; any other result names a fault of exactly that kind |
| AddrManCheck.CheckIsTheInvariant | core/src/addrman.cpp:385-459 | The invariant proved for every operation is exactly what this check accepts, together with a right index |
| AddrManCheck.CheckAcceptsValid | core/src/addrman.h:483-492 | The check that surrounds every public call reports nothing for a valid manager with a key |
| AddrManCheck.CheckEntries | core/src/addrman.cpp:393-424 | All entries pass if and only if no error is found, and the two collections are then those of the kinds |
| AddrManCheck.CheckTried | core/src/addrman.cpp:426-438 | No error if and only if every occupied tried cell is the hashed cell of a tried entry; nothing is left over if and only if every tried entry has one |
| AddrManCheck.CheckNew | core/src/addrman.cpp:440-456 | No error if and only if every occupied new cell is at a hashed position of a new entry and the reference counts are the numbers of cells |
| AddrManCheck.PlacesAreFilled | core/src/addrman.cpp:393-424 | As many places as entries, each entry at its own place: then the random order and the entries are inverse to each other |
| CoinsRecord.Cleanup | core/src/coins.h:124-130 | The trailing spent outputs, and only they, are dropped |
| CoinsRecord.TrimKeeps | core/src/coins.h:124-130 | What is kept is a prefix that ends with an unspent output, and all that is dropped was spent |
| CoinsRecord.Spend | core/src/coins.cpp:39-55 | A spend succeeds exactly for an unspent output; it empties that output and records the undo data |
| CoinsRecord.SpendMeans | core/src/coins.cpp:39-55 | The record without that output and without spent ones at its end, all other outputs as they were; the undo data hold the output, and height, version and flags exactly for the last output |
| CoinsRecord.UndoRestores | core/src/main.cpp:2220-2239 | Undoing a spend gives the record back if and only if it was not the last output of a coinstake above height zero: the coinstake flag is not restored |
| CoinsRecord.CoinstakeFlagLost | core/src/main.cpp:2220-2239 | A coinstake record of one output that comes back from spending and undoing without its flag |
| CoinsStack.PulledUp | core/src/coins.cpp:89-105 | Fetching an entry from below keeps every cache of the stack sound and the flat map unchanged |
| CoinsStack.Modifying | core/src/coins.cpp:117-134 | Handing out an entry for modification, DIRTY and possibly FRESH, keeps soundness; only that record may differ |
| CoinsStack.Finishing | core/src/coins.cpp:277-285 | Ending a modification, with the erasure of FRESH pruned entries, does not change the flat map |
| CoinsStack.WritingOne | core/src/coins.cpp:168-203 | Writing one child entry into the parent keeps the parent sound and shows the child record there |
| CoinsStack.OthersKeep | core/src/coins.cpp:168-203 | Entries still to be written stay correct while others are written |
| CoinsCache.CCoinsViewCache.FetchCoins | core/src/coins.cpp:89-105 | A record is found exactly when the stack below or the cache has one, and is then cached, clean and FRESH exactly if pruned; no other entry and nothing visible changes |
| CoinsCache.CCoinsViewCache.HaveCoins | core/src/coins.cpp:146-154 | The answer is whether the flat map has an unpruned record |
| CoinsCache.CCoinsViewCache.ModifyCoins | core/src/coins.cpp:117-134 | A valid, idle cache hands out a modifier; the entry is DIRTY, keeps its FRESH mark if it was cached and gets one otherwise exactly if there is nothing below; nothing visible changes yet |
| CoinsCache.CCoinsViewCache.BatchWrite | core/src/coins.cpp:168-203 | The parent stays valid and shows each written record, everything else as before; the assertion that an entry unknown to it is FRESH cannot fire |
| CoinsCache.CCoinsViewCache.Flush | core/src/coins.cpp:205-210 | The cache is empty, the stack below shows exactly what the cache showed, and the cache still shows the same; the best block survives if and only if the cache was told one or nothing below was told a different one |
| CoinsCache.CCoinsViewCache.SetBestBlock | core/src/coins.cpp:163-166 | The best block becomes the hash, or that of the stack below for a zero hash |
| CoinsCache.CCoinsModifier.Close | core/src/coins.cpp:277-285 | Leaving a modification ends it and cleans the record up, or drops it if it is FRESH and pruned; the flat map stays as modified |
| CoinsCache.CCoinsViewDB.BatchWrite | core/src/txdb.cpp:56-75 | The new contents: dirty records of the batch are written, or erased if pruned, and all others are as before |
| CheckQueue.CCheckQueue.Add | core/src/checkqueue.h:148-160 | The checks are appended and counted |
| CheckQueue.CCheckQueue.EnterSection | core/src/checkqueue.h:92-122 | One critical section from the head of the inner loop: return, sleep, or a batch taken from the end of the queue |
| CheckQueue.CCheckQueue.BeginRound | core/src/checkqueue.h:78-122 | The head of the outer loop: a finished batch is reported, or the thread is counted in; the master is notified exactly by the last report of a worker |
| CheckQueue.CCheckQueue.Execute | core/src/checkqueue.h:123-126 | The verdict of a batch, the rest skipped after a failure, is whether all of it is true |
| CheckQueue.BatchFits | core/src/checkqueue.h:107-112 | A batch holds at least one check, no more than the queue, and no more than the configured size unless it is one |
| CheckQueue.BatchIsLargest | core/src/checkqueue.h:107-112 | It is the largest number within the configured size of which every thread, looping or sleeping, could have one and one more be taken, or else one |
| CheckQueue.SectionMeans | core/src/checkqueue.h:92-122 | A thread works exactly if there is work, and takes it from the end; it returns exactly if nothing is left and it may; otherwise it sleeps; everything else shared is as before |
| CheckQueueProtocol.StepKeeps | core/src/checkqueue.h:71-160 | Every enabled step of every thread keeps the invariant: outstanding = queued + in batches, the counters of looping and sleeping threads, no verdict lost, and a waiting master has work outstanding |
| CheckQueueProtocol.WaitIsExact | core/src/checkqueue.h:93-102 | When the master leaves, its result is whether every check added since it last left is true, and nothing is queued or being worked on |
| CheckQueueProtocol.IdleMeans | core/src/checkqueue.h:166-170 | In every reachable state the queue reports itself idle exactly when no check is queued, no thread works on any, and no failure waits to be reported |
| CheckQueueProtocol.IdleWhenQuiet | core/src/checkqueue.h:185-192 | Between a return of the master and the next check the queue is idle, whatever the workers do: the assertion of the controller |
| CheckQueueProtocol.BatchBounds | core/src/checkqueue.h:107-119 | In every reachable state a batch taken has between one check and the whole queue |
| CheckQueueProtocol.EveryRun | core/src/checkqueue.h:71-160 | The same over every interleaving of one master and any number of workers, spurious wake-ups included |
| CheckQueueProtocol.NeverStuck | core/src/checkqueue.h:93-106 | While the master is in the loop some thread can make progress |
| CheckQueueProtocol.WorkIsNoticed | core/src/checkqueue.h:103-160 | No wake-up is lost: in every reachable state with checks in the queue some worker can make progress, whether or not a master waits |
| CheckQueueProtocol.ProgressCounts | core/src/checkqueue.h:71-129 | Every step of progress lowers a measure |
| CheckQueueProtocol.WaitEnds | core/src/checkqueue.h:142-145 | A run of progress is no longer than that measure: with NeverStuck, waiting ends under every schedule without spurious wake-ups |
| Denominations.GreedyIsBest | core/src/denomination_functions.cpp:42-64 | For denominations that each divide the next, no choice of held coins comes closer to the target from below, and none that comes as close uses fewer coins |
| Denominations.ExactWhenPossible | core/src/denomination_functions.cpp:42-64 | The bounded pass pays the target exactly if and only if some choice of held coins does, and then with the fewest coins |
| Denominations.Carve | core/src/denomination_functions.cpp:42-64 | Coins worth at least a multiple of the largest of them contain coins worth exactly that, and the pass finds them |
| Denominations.ChangeIsExact | core/src/denomination_functions.cpp:69-89 | The change is worth the amount, up to less than one smallest coin |
| Denominations.ChangeIsFewest | core/src/denomination_functions.cpp:69-89 | No other coins of the same worth are fewer |
| Denominations.OverCovers | core/src/denomination_functions.cpp:357-375 | The overshooting pass reaches the target whenever the held coins do, and otherwise spends them all |
| Denominations.OverHits | core/src/denomination_functions.cpp:357-375 | If the strict pass leaves only coins each worth exactly what is missing, the overshooting pass pays exactly |
| CoinSelection.TrimmingCovers | core/src/denomination_functions.cpp:270-284 | Coins that would come back as change can be kept without falling below the target |
| CoinSelection.NeededIsMet | core/src/denomination_functions.cpp:286-288 | What remains is then met exactly by the held coins |
| CoinSelection.ToppedByAll | core/src/denomination_functions.cpp:234-262 | Without a single coin above the target, topping up reaches the target whenever all held coins do, unless the first choice already pays exactly |
| CoinSelection.CalculatedPays | core/src/denomination_functions.cpp:312-391 | For every target: if the held coins reach it, the coins used are held, reach it, and the result is the coin count of their change; otherwise all coins are used and no change is reported |
| CoinSelection.CalculatedIs | core/src/denomination_functions.cpp:312-391 | Which choice it is: the smallest single coin above the target, or else the overshooting pass, unless the trimmed choice has fewer coins of change and not too many to spend |
| CoinSelection.SpentIsTargetAndChange | core/src/denomination_functions.cpp:312-391 | Conservation: for targets in multiples of the smallest denomination, what is used equals the target plus the change |
| SpendFunctions.GetSpendCoins | core/src/denomination_functions.cpp:42-64 | The loops compute the bounded pass |
| SpendFunctions.GetChange | core/src/denomination_functions.cpp:69-89 | The loops compute the unbounded pass |
| SpendFunctions.MinimizeChange | core/src/denomination_functions.cpp:215-304 | The five phases compute the specified choice, and the saved map is put back when it is not better |
| SpendFunctions.CalculateChange | core/src/denomination_functions.cpp:312-391 | Both branches compute the specified choice |
| SpendFunctions.GetNextLowerDenomHeld | core/src/denomination_functions.cpp:202-213 | The largest held denomination below the given one |
| MintSelection.IdealIsPossible | core/src/denomination_functions.cpp:95-119 | The greedy mints are worth the target if and only if some selection of unused mints is, and none has fewer mints |
| MintSelection.GetIdealSpends | core/src/denomination_functions.cpp:95-119 | The scan computes the bounded pass over the unused mints and tells whether it is exact |
| MintSelection.GetSpends | core/src/denomination_functions.cpp:124-144 | The mints picked are the first unused ones of each denomination, the map is used up, and the value is theirs |
| MintSelection.SelectionSelectable | core/src/denomination_functions.cpp:124-144 | Those mints are unused, none is picked twice, and they are worth what was asked |
| MintSelection.SelectionPicks | core/src/denomination_functions.cpp:124-144 | Denominations fall along the selection, and the mints of each are the first unused ones of the list |
| MintSelection.SelectMintsFromList | core/src/denomination_functions.cpp:397-420 | When an exact selection exists the result is one with the fewest mints, made of the first unused mints of each denomination, and the needed count is set if that is too many; otherwise nothing is selected |
| BudgetPayments.WindowIs | core/src/masternode-budget.h:342-367 | The window of a budget is one block for each of its payments, in their order |
| BudgetPayments.JudgedIs | core/src/masternode-budget.cpp:2117-2199 | One budget finds a block valid if and only if the height is in its window, exactly one output makes its payment and the proposal is not in the history of the window; the other verdicts and the new history are characterised too |
| BudgetPayments.JudgedTwice | core/src/masternode-budget.cpp:2117-2147 | A block found valid is a double payment when it is judged again |
| BudgetPayments.ProducedIsValidIff | core/src/masternode-budget.cpp:664-741 | A filled proof-of-stake transaction in which no other output makes a budget payment is valid if and only if some budget above the threshold makes that payment and finds it unpaid, or paid outside the window of a budget tried by then |
| BudgetPayments.ProducerAndValidatorAgree | core/src/masternode-budget.cpp:536-572 | In a payment block whose proposal is not recorded in the window of its budget, and in which no other output makes a budget payment, the filled proof-of-stake transaction is valid to the validator if and only if ten masternodes are enabled |
| BudgetPayments.TooFewMasternodes | core/src/masternode-budget.cpp:697-702 | With fewer than ten masternodes the threshold is the highest count itself and no block is valid |
| BudgetPayments.PaidAgainIff | core/src/masternode-budget.cpp:2117-2187 | In any run: the next validation for a proposal that was accepted at some height accepts it again if and only if its payment is made once and since then, itself included, a matching validation was of a budget whose window does not hold that height |
| BudgetPayments.AcceptedAgainIff | core/src/masternode-budget.cpp:2117-2147 | The same from any history in which the proposal is recorded |
| BudgetPayments.NotAcceptedUnpurged | core/src/masternode-budget.cpp:2117-2187 | Without such a validation the proposal is never accepted again, however often it is asked for |
| BudgetPayments.AtMostOncePerCycle | core/src/masternode-budget.cpp:2046-2187 | Over any run of validations at heights that do not fall, from any history, with budgets as IsValid demands and a cycle over 100 blocks, no proposal is accepted twice in a cycle |
| BudgetPayments.NoBlockPaysAgain | core/src/masternode-budget.cpp:664-741 | The same over whole blocks and changing sets of budgets, from any history |
| BudgetPayments.ValidMeans | core/src/masternode-budget.cpp:664-741 | A valid block makes the payment of a budget in its window exactly once; that budget has more votes than the leader less a tenth of the masternodes, some budget has the votes of a twentieth, and the payment is recorded at this height |
| BudgetPayments.CountsDecide | core/src/masternode-budget.cpp:664-741 | What the vote counts decide: with fewer votes than a twentieth nothing is valid and nothing recorded, and otherwise the verdict on the threshold comes exactly when no budget at all is above it |
| BudgetPayments.FallingHeightsPayTwice | core/src/masternode-budget.cpp:2117-2147 | A concrete run: a validation of a later cycle purges the payment, and a block of the earlier cycle is then accepted again |
| BudgetManager.CBudgetManager.IsPaidAlready | core/src/masternode-budget.cpp:2117-2147 | The erasing loop purges exactly the entries outside the window; the answer and the insertion follow from what is left |
| BudgetManager.CBudgetManager.FinalizedIsTransactionValid | core/src/masternode-budget.cpp:2149-2199 | Verdict and history are those of the specification |
| BudgetManager.CBudgetManager.IsBudgetPaymentBlock | core/src/masternode-budget.cpp:638-662 | True exactly when some budget in the window has the votes of more than a twentieth of the masternodes: the rounding of the five percent does not matter |
| BudgetManager.CBudgetManager.FillBlockPayee | core/src/masternode-budget.cpp:536-597 | The payment is that of the first budget in the window with the most votes, if any has one: a stake gets it appended, a miner keeps the first output with the block value and nothing but the payment beside it; with no votes a stake stays as it is and only the value of the first output of a miner changes |
| BudgetManager.CBudgetManager.IsTransactionValid | core/src/masternode-budget.cpp:664-741 | Verdict and history are those of trying the budgets above the threshold in turn |
| MasternodePayments.AddingTallies | core/src/masternode-payments.cpp:551-576 | Recording one winner keeps the tally: for every height and payee the votes equal the recorded winners |
| MasternodePayments.CleaningTallies | core/src/masternode-payments.cpp:685-712 | So does the clean-up, although a list is erased while winners of its height are still recorded |
| MasternodePayments.CMasternodePayments.AddWinningMasternode | core/src/masternode-payments.cpp:551-576 | A winner is recorded exactly when its block is known and it is new, and the tally stays right |
| MasternodePayments.CMasternodePayments.CleanPaymentList | core/src/masternode-payments.cpp:685-712 | Exactly the winners beyond the limit are forgotten, and the tally stays right |
| MasternodePayments.CMasternodePayments.GetBlockPayee | core/src/masternode-payments.cpp:511-518 | The payee with the most recorded winners, the first listed among equals, or none if none is recorded |
| MasternodePayments.CMasternodePayments.HasPayeeWithVotes | core/src/masternode-payments.h:138-147 | True exactly when the payee has at least one and at least the required number of recorded winners |
| MasternodePayments.PaymentKeepsTotal | core/src/masternode-payments.cpp:371-395 | The stake keeps its total if and only if it has two outputs or nothing is paid; otherwise it grows by the payment |
| MasternodePayments.FillBlockPayee | core/src/masternode-payments.cpp:348-411 | A stake is split as specified; a miner keeps the script of its first output with the block value less the payment, the scheduled payee or else the current masternode gets exactly the payment, and no other output stays; without any payee nothing changes |
| MasternodePayments.PaidShares | core/src/masternode-payments.cpp:383-397 | What each output of a stake gives: nothing the first, the others the quotient, and the last one the remainder as well |
| MasternodePayments.CMasternodePayments.IsTransactionValid | core/src/masternode-payments.cpp:578-683 | A transaction passes exactly when no payee has enough recorded winners, or some output pays one who has them exactly the required amount |
| MasternodePayments.FilledPasses | core/src/masternode-payments.cpp:348-411 | A transaction filled with the payee of most winners passes the validator if and only if that payee has too few of them, or the payment is the required one, or another output happens to fit |
| BlockRewards.ValueFits | core/src/main.cpp:1541-1615 | No block value takes the money supply beyond its maximum |
| BlockRewards.ScheduleEnds | core/src/main.cpp:1541-1615 | Over all blocks, each created with all it may: the supply never exceeds the maximum and reaches it with block 4653216, whose value is two and a half coins |
| BlockRewards.PaymentShares | core/src/main.cpp:1849-1875 | The share of a masternode by height: a fifth, a half, fifty coins, seventy percent, the see-saw, and sixty percent, with what rounding takes |
| BlockRewards.SamePaymentIff | core/src/main.cpp:1849-1875 | The payment for the height of the last block, which a miner takes, is that for the height of the block, which a validator asks for, if and only if the reward does not fall there or too little is left to create |
| MasternodePayments.NextBlockPasses | core/src/masternode-payments.cpp:348-613 | So a proof-of-stake block filled for a payee with enough winners is refused exactly at the heights where the reward falls, unless hardly any money is left to create |
| Base58.DecodeEncode | core/src/base58.cpp:87-120 | Bytes come back from their text, leading zeroes included |
| Base58.EncodeDecode | core/src/base58.cpp:26-70 | An accepted text is the text of its bytes, but for the spaces around it |
| Base58.TextsAreUnique | core/src/base58.cpp:26-70 | Texts of the same bytes differ only in the spaces around them |
| Base58.AcceptedIff | core/src/base58.cpp:26-70 | A text is accepted exactly when only characters of the alphabet are left between the spaces around it |
| Base58.EncodedIs | core/src/base58.cpp:87-120 | The text of the bytes is the one text of digits with the same number and as many zeroes in front |
| Base58.OneDigit | core/src/base58.cpp:24-120 | Each byte below 58 is the character at its place in the alphabet, which is given literally |
| Base58.KnownTexts | core/src/base58.cpp:87-120 | Texts known from the test data |
| Base58.StripIs | core/src/base58.cpp:28-59 | Exactly the spaces at both ends are left aside |
| Base58.SpaceIs | core/src/base58.cpp:29-57 | The spaces are those of the C locale |
| Base58.CStrIs | core/src/base58.cpp:127-130 | Exactly what comes before the first NUL is read |
| Base58.CheckedIff | core/src/base58.cpp:132-156 | With a checksum: a text is accepted with a result if and only if, but for spaces around it, it is the text of that result and its checksum |
| Base58.EncodeRoom | core/src/base58.cpp:95-106 | The buffer for the digits is large enough for every length |
| Base58.DecodeRoom | core/src/base58.cpp:37-52 | The buffer for the bytes is large enough for every length |
| Base58.MulAdd | core/src/base58.cpp:98-106 | One carry loop multiplies and adds, with what does not fit left in the carry |
| Base58.EncodeBase58 | core/src/base58.cpp:87-120 | The text of the bytes; the carry is zero after every byte |
| Base58.DecodeBase58 | core/src/base58.cpp:26-70 | The bytes of the text up to its first NUL, or failure, exactly as specified; the carry is zero after every character |
| Base58.EncodeBase58Check | core/src/base58.cpp:132-139 | The text of the bytes followed by the first four bytes of their hash |
| Base58.DecodeBase58Check | core/src/base58.cpp:141-156 | Accepts exactly as specified |
| Numerals.ConvertedBack | core/src/base58.cpp:26-120 | Converting digits to another base and back restores every digit, leading zeroes included |
| ArithUint.BaseUint.AddAssign | core/src/arith_uint256.h:142-151 | The sum modulo two to the number of bits |
| ArithUint.BaseUint.SubtractAssign | core/src/arith_uint256.h:153-157 | The difference modulo two to the number of bits |
| ArithUint.BaseUint.Increment | core/src/arith_uint256.h:179-186 | One more, modulo two to the number of bits |
| ArithUint.BaseUint.Decrement | core/src/arith_uint256.h:196-203 | One less, modulo two to the number of bits |
| ArithUint.BaseUint.Negated | core/src/arith_uint256.h:84-91 | The negative, modulo two to the number of bits |
| ArithUint.BaseUint.MultiplyAssign32 | core/src/arith_uint256.cpp:96-105 | The product modulo two to the number of bits |
| ArithUint.BaseUint.MultiplyAssign | core/src/arith_uint256.cpp:108-121 | The product modulo two to the number of bits; a number multiplied in place by itself gives zero instead |
| ArithUint.BaseUint.ShiftLeftAssign | core/src/arith_uint256.cpp:62-76 | Multiplication by a power of two, modulo two to the number of bits |
| ArithUint.BaseUint.ShiftRightAssign | core/src/arith_uint256.cpp:79-93 | Division by a power of two |
| LimbShifts.UpIsProduct | core/src/arith_uint256.cpp:62-76 | Limbs shifted up are the product, modulo the range |
| LimbShifts.DownIsQuotient | core/src/arith_uint256.cpp:79-93 | Limbs shifted down are the quotient |
| ArithUint.BaseUint.CompareTo | core/src/arith_uint256.cpp:150-159 | The sign of the difference of the values |
| ArithUint.BaseUint.Equals | core/src/arith_uint256.h:226-226 | Comparing limbs compares values |
| ArithUint.BaseUint.EqualTo | core/src/arith_uint256.cpp:162-173 | Comparing limbs with a 64-bit number compares values |
| ArithUint.BaseUint.Bits | core/src/arith_uint256.cpp:200-212 | The place of the highest bit plus one |
| ArithUint.BaseUint.DivideAssign | core/src/arith_uint256.cpp:124-147 | The quotient and the remainder for every divisor but zero, which is refused |
| Limbs.RowDone | core/src/arith_uint256.cpp:112-119 | One row of the long multiplication adds the partial product modulo the range |
| Compact.OverflowIff | core/src/arith_uint256.cpp:248-266 | The overflow flag is set if and only if the number does not fit 256 bits |
| Compact.ThereAndBack | core/src/arith_uint256.cpp:248-289 | Encoding and decoding rounds down by less than one part in 2^15, keeps the sign and never overflows |
| Compact.EncodingIsStable | core/src/arith_uint256.cpp:268-289 | Encoding what was decoded changes nothing |
| Compact.CompactMeans | core/src/arith_uint256.cpp:248-266 | The number meant by exponent, sign and word: the word times a power of 256, rounded down for exponents below three, taken modulo 2^256, with both flags |
| Compact.KnownTargets | core/src/arith_uint256.cpp:248-289 | Numbers known from the tests, in both directions |
| Compact.GetCompact | core/src/arith_uint256.cpp:268-289 | The limbs and shifts compute the specified number; both assertions hold |
| Compact.SetCompact | core/src/arith_uint256.cpp:248-266 | The limbs and shifts compute the specified value and flags |
| VarInts.ReadWritten | core/src/serialize.h:416-458 | What was written is read back, and nothing more |
| VarInts.OnlyEncoding | core/src/serialize.h:391-412 | There is no other encoding: whatever reads as a number starts with its bytes |
| VarInts.BytesMean | core/src/serialize.h:391-399 | The documented meaning: all bytes but the last have their top bit, and the weighed sum of all is the number |
| VarInts.KnownVarInts | core/src/serialize.h:407-412 | The documented examples, of which those of 16511 and 65535 have other bytes than the documentation says |
| VarInts.LongerIsMore | core/src/serialize.h:416-426 | Larger numbers do not take fewer bytes |
| VarInts.LengthIs | core/src/serialize.h:416-426 | A number takes more than k bytes exactly from the k-th limit on: 128, 16512, and so on |
| VarInts.WriteVarInt | core/src/serialize.h:429-443 | The bytes of the number, written from the first |
| VarInts.ReadVarInt | core/src/serialize.h:446-458 | Reads as specified, or fails at the end of the stream |
| VarInts.GetSizeOfVarInt | core/src/serialize.h:416-426 | The number of bytes written |
| Amounts.DecompressCompress | core/src/compressor.cpp:141-184 | Every amount comes back |
| Amounts.CompressDecompress | core/src/compressor.cpp:141-184 | Every code comes back: the two are inverse bijections |
| Amounts.CodeIs | core/src/compressor.cpp:132-158 | The code of a number whose last digit before up to eight zeroes is d: number, digit and zeroes packed in that order |
| Amounts.CodeOfNine | core/src/compressor.cpp:141-158 | The code of a number with nine zeroes |
| Amounts.KnownCodes | core/src/compressor.cpp:141-158 | Pairs known from the tests |
| Amounts.CompressedIsSmall | core/src/compressor.cpp:141-158 | No amount up to the largest configured supply overflows 64 bits |
| Amounts.CompressAmount | core/src/compressor.cpp:141-158 | The loop computes the code, and its values stay below 64 bits |
| Amounts.DecompressAmount | core/src/compressor.cpp:160-184 | The loop computes the amount, never exceeding it on the way |
| Scripts.ReadScriptBytes | core/src/compressor.h:74-106 | A script comes back exactly up to the size limit; a longer one becomes a single OP_RETURN |
| Scripts.ScriptComesBack | core/src/compressor.cpp:47-130 | Every special script is rebuilt from its code and body, full keys by the abstract curve |
| Scripts.KeyHashBytes | core/src/compressor.cpp:16-55 | A payment to a key hash, given by its 25 bytes, is stored as a zero and the hash |
| Scripts.ScriptHashBytes | core/src/compressor.cpp:25-62 | A payment to a script hash, given by its 23 bytes, is stored as a one and the hash |
| Scripts.ShortKeyBytes | core/src/compressor.cpp:34-70 | A payment to a short key is stored as the key |
| Scripts.FullKeyBytes | core/src/compressor.cpp:34-73 | A payment to a valid full key is stored as its first half under a code for the parity of the other |
| Scripts.OtherScripts | core/src/compressor.h:73-84 | Any other script follows its length plus six |
| Scripts.SpecialScripts | core/src/compressor.cpp:16-76 | Only scripts of these four forms, byte by byte, are special |
| CoinsSerial.MaskByteIs | core/src/coins.h:217-223 | Each bit of a mask byte stands for one output, and the byte is zero exactly when none of the eight is left |
| CoinsSerial.ReadMaskStops | core/src/coins.h:246-257 | The count of bytes that are not zero stops the mask loop right after the last one |
| CoinsSerial.CodeIsNatural | core/src/coins.h:206-211 | The assertion before writing holds for every record that is not pruned |
| CoinsSerial.RoundTrip | core/src/coins.h:204-267 | Reading gives the record without spent outputs at its end; a negative version or height keeps only its low seven bits |
| CoinsSerial.RoundTripExactly | core/src/coins.h:204-267 | For a clean record the round trip is exact if and only if version and height are not negative |
| CoinsSerial.PartsInOrder | core/src/coins.h:204-231 | The bytes of a record: version, code, mask, outputs and height, in this order |
| CoinsSerial.FirstRecord | core/src/coins.h:45-57 | The first documented record byte by byte, with the coinstake bit that the documentation lacks |
| CoinsSerial.SecondRecord | core/src/coins.h:60-76 | The second documented record, likewise |
| CoinsSerial.SizeIsExactIff | core/src/coins.h:179-201 | The announced size is the number of bytes written, or one less exactly if a length limit of variable-length integers lies between the two header codes |
| CoinsSerial.SizeOfShortCodes | core/src/coins.h:179-201 | Below a code of 16512 it is exact if and only if the written code is below 128 or the announced one is not |
| CoinsSerial.SizeCanUnderstate | core/src/coins.h:179-201 | A record whose announced size is too small |
| CoinsSerial.CalcMaskSize | core/src/coins.cpp:20-37 | The number of mask bytes up to the last used one, and how many are not zero |
| CoinsSerial.Serialize | core/src/coins.h:204-231 | Writes the specified bytes |
| CoinsSerial.GetSerializeSize | core/src/coins.h:179-201 | Computes the specified size |
| CoinsSerial.Unserialize | core/src/coins.h:234-267 | Reads as specified, on every stream |
| SkipHeights.SkipGoesBack | core/src/main.cpp:3963-3975 | The second pointer of a block goes back, and not below the first block |
| SkipHeights.InvertIs | core/src/main.cpp:3962-3963 | The lowest bit that is set is cleared |
| SkipHeights.EvenSkip | core/src/main.cpp:3966-3975 | From an even height the second pointer goes to the height without its lowest bit |
| SkipHeights.StepsInBits | core/src/main.cpp:3963-3998 | A walk from a height of k bits to any lower height takes at most 2k(k+2) steps |
| SkipHeights.StepsAreFew | core/src/main.cpp:3963-3998 | Every step lowers a measure made of the highest bit in which the heights differ and the bits below it |
| BlockIndex.CBlockIndex.GetAncestor | core/src/main.cpp:3977-3998 | The walk by both pointers ends at the ancestor of the height, within that many steps, or nowhere for a height outside the branch |
| BlockIndex.CBlockIndex.constructor | core/src/main.cpp:4005-4009 | A new block is linked to its parent and has its second pointer where the walk expects it |
| Chain.CChain.SetTip | core/src/chain.cpp:16-27 | Despite the early stop every entry is the ancestor of the new tip at its height |
| Chain.CChain.ContainsIs | core/src/chain.h:464-467 | A block is in the chain exactly when it is an ancestor of the tip |
| Chain.CChain.Next | core/src/chain.h:470-476 | The block of the chain on top of the given one, absent exactly at the tip or outside the chain |
| Chain.CChain.FindFork | core/src/chain.cpp:57-67 | The highest block common to the chain and the branch, or none |
| Chain.CChain.GetLocator | core/src/chain.cpp:29-56 | Ancestors from the start down to the first block; each of the first eleven is followed by the one right below, and from then on the distance doubles each time, until it would pass the first block; so twelve and more entries grow only with the logarithm of the height |
| StakeModifier.SectionsFillTheInterval | core/src/kernel.cpp:215-226 | The 64 sections add up to the whole interval |
| StakeModifier.SectionsGrow | core/src/kernel.cpp:219-226 | Later sections are not shorter, and all are between 20 and 60 seconds |
| StakeModifier.SelectBlockFromCandidates | core/src/kernel.cpp:231-289 | With all candidates indexed a block is found exactly when one is open, and it is the pick: first with the least hash up to the stop, or else the earliest open one |
| StakeModifier.RankIs | core/src/kernel.cpp:260-275 | The rank by the hash itself: after the switch a stake has the hash of its block over 2^32, before it that of zero over 2^32, and a work block that of its block; a stake ranks below 2^224 |
| StakeModifier.StakesCompete | core/src/kernel.cpp:260-284 | So before the switch the earliest of the stakes in time is picked, and after it one whose own hash is least |
| StakeModifier.PicksAreDistinct | core/src/kernel.cpp:391-410 | No block is picked twice |
| StakeModifier.BitOfPick | core/src/kernel.cpp:402-403 | Each bit of the modifier is the entropy bit of the block that its round picked |
| StakeModifier.SelectRounds | core/src/kernel.cpp:390-410 | With all candidates indexed no round fails; there are 64 picks or as many as candidates, each right for its round, and bit r is that of pick r |
| StakeModifier.CandidatesAreFit | core/src/kernel.cpp:375-388 | The collected candidates are sorted, distinct, and indexed if the chain is |
| StakeModifier.RecentIs | core/src/kernel.cpp:381-384 | The candidates are the blocks from the tip down to the first that is too old |
| StakeModifier.SortedByPairs | core/src/kernel.cpp:387-388 | They are sorted by time and then by hash, and none is lost |
| StakeModifier.LastGeneratedIs | core/src/kernel.cpp:362-367 | The last modifier is that of the first block downwards which has one, or of the first block of all |
| StakeModifier.ComputeNextStakeModifier | core/src/kernel.cpp:344-410 | All cases: first blocks, no modifier found, not old enough, and the new modifier made of the bits of the picks |
| LockedPages.LockedPageManager.LockRange | core/src/allocators.h:50-69 | The range joins the live ones; each page counts the live ranges on it and is locked exactly when it counts |
| LockedPages.LockedPageManager.UnlockRange | core/src/allocators.h:72-92 | A live range leaves; the assertion that its pages are known holds |
| LockedPages.LockedPageManager.LockedIs | core/src/allocators.h:24-31 | A page is locked exactly when some live range has a byte on it |
| LockedPages.TouchedPages | core/src/allocators.h:55-58 | The pages between the masked ends are exactly those with a byte of the range |
| LimitedMap.LimitedMap.Insert | core/src/limitedmap.h:41-52 | A new key always enters; when that makes the maximum, the first entry of least value among the others leaves; by value it stands behind its equals |
| LimitedMap.InsertedAt | core/src/limitedmap.h:49-49 | A new entry stands by value behind all that are not above it and before all that are |
| LimitedMap.LimitedMap.Erase | core/src/limitedmap.h:53-67 | Exactly the key is removed; its entry by value is always found |
| LimitedMap.LimitedMap.Update | core/src/limitedmap.h:68-84 | Exactly the value of the key changes; its entry by value is always found |
| LimitedMap.LimitedMap.SetMaxSize | core/src/limitedmap.h:86-95 | Only entries of least value are dropped, down to the new maximum |
| LimitedMap.BoundedIff | core/src/limitedmap.h:41-52 | The size stays below a maximum of two or more through any number of insertions if and only if it was below; from the maximum on every insertion adds an entry |

## Left out

- AddrManImpl.CAddrMan.Add: one reading of the clock serves a whole call, and the random numbers of a call are arguments.
- AddrManImpl.CAddrMan.Good: the time is positive, as the adjusted time of every caller is; at time zero the promoted entry breaks the rules (`AddrManRuns.GoodAtTimeZero`).
- AddrManImpl.CAddrMan.Create: ids are unbounded, so the overflow of a 32-bit id counter is not modelled.
- AddrManDisk.Serialize: a stream is a sequence of typed values; their byte layout is not modelled.
- AddrManLoad.Unserialize: it is stated for a fresh manager, since the code does not empty the entries and the index first. Of a stream that repeats an address only the random order is promised, although the manager is valid if every such entry is dropped again.
- `CAddrMan::Select_` and `GetChance`: floating point, and loops that end only with probability one.
- AddrManCheck.CheckEntries: the lookup of an address that is missing from the index inserts it in the original and does not here; a null key is zero.
- CoinsCache.CCoinsViewCache.FetchCoins: a parent cache is changed only through its one child, as in the node; two children of one cache are not modelled.
- `AccessCoins`, `GetValueIn`, `HaveInputs` and `GetPriority`: reading functions over the same lookups.
- CheckQueueProtocol.WaitEnds: spurious wake-ups are steps of the protocol but must not go on for ever for waiting to end; shutdown of workers is a flag that never changes during a run.
- `CCheckQueueControl`: only its assertion about an idle queue is stated.
- CoinSelection.CalculatedPays: amounts are unbounded, so 64-bit overflow of sums is not modelled.
- MintSelection.GetIdealSpends: the map of used coins starts empty, as in its only call.
- `getDenomWithMostCoins`, `getNextHighestDenom` and `listSpends`: not used by the selection.
- BudgetManager.CBudgetManager.FillBlockPayee: votes are their number, and the finalized budgets a sequence in the order of their map; the votes themselves (`AddOrUpdateVote`), `GetBudget`, proposals and their collateral are not modelled.
- BudgetPayments.ProducerAndValidatorAgree: both sides know the same finalized budgets and count the same masternodes; spork switches around the calls are not modelled.
- MasternodePayments.CMasternodePayments.CleanPaymentList: the limit, which the node computes from the number of masternodes in floating point, is an argument.
- BlockRewards.SamePaymentIff: the see-saw rule, in floating point, and the rewards of the other networks are not modelled; `startTime` is the setting that ends the see-saw, and miner and validator see the same money supply, that of the tip.
- MasternodePayments.CMasternodePayments.IsTransactionValid: the required payment is an argument.
- MasternodePayments.FillBlockPayee: the masternode to pay when no winner is recorded, the block value and the payment are arguments.
- Base58.DecodeBase58Check: the hash is any function to 32 bytes; `CBase58Data` and the address classes on top are not modelled.
- ArithUint.BaseUint.DivideAssign: the remainder, a local variable of the original, is returned so that it can be stated; the exception for zero is the result `ok`.
- `getdouble`, `GetHex`, `SetHex`, and the bitwise operators of `base_uint`.
- VarInts.ReadVarInt: a number too large for its C++ type wraps there and does not here.
- Amounts.CompressAmount: beyond the largest supply the 64-bit wrap is not modelled.
- Scripts.ReadScriptBytes: decompression of full public keys is an abstract inverse on the valid keys.
- CoinsSerial.RoundTrip: outputs hold the initial round marker, which is not written.
- `CCoins::FromTx`, `ClearUnspendable` and the statistics.
- `CChain::Tip` for proof-of-stake tips and the comparison of chains.
- StakeModifier.ComputeNextStakeModifier: sorting is the standard library's and given by what it returns; the modifier of the block after the first, a pointer turned into a number in the original, is an argument, and `GetOldModifier` and the kernel hash are not modelled.
- LockedPages.LockedPageManager.LockRange: ranges end a page below the top of the address space, where the loop of the original would not end; masking an address is rounding down to a multiple of the page size, and counts are unbounded.
- LimitedMap.LimitedMap.Insert: with a maximum of one and an empty map the original removes an entry that is not there; that call is excluded.
- Signatures, peer messages, files and logging around all of these.

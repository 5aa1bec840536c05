# Ganache in Dafny

A model of the parts of Ganache, an in-process Ethereum and Filecoin simulator, that carry
algorithms of their own, with proofs of what they promise. `dafny verify dfyconfig.toml`
checks the whole project.

Where the source updates objects, buffers or arrays step by step, the model has a class or a
method with the same steps, proved against functions on values; the promises are then lemmas
about those functions.

| modules | what they model |
|---|---|
| `Snapshots`, `SnapshotRuns`, `ChainIndexes`, `Blockchain` | snapshot and revert of the Ethereum chain, over whole runs |
| `Bytes`, `Rlp` | numbers as buffers; the RLP encoder, recursive and incremental, with a decoder written from Appendix B of the Ethereum Yellow Paper |
| `Heap`, `Nonces`, `TransactionPool`, `PoolRuns` | the transaction pool of one sender |
| `Promises`, `PromiseQueue` | the promise queue: what it owes, told from the events alone, and the queue |
| `BaseFee`, `HeaderChain` | EIP-1559 fees and the headers of every reachable chain |
| `Filecoin`, `FilecoinChain` | the Filecoin message pool and miner |
| `StorageRange` | `debug_storageRangeAt`'s streaming selection of keys |
| `ConsoleLog`, `Permute` | `console.log` decoding and the enumeration of its signatures |
| `Signing`, `RuntimeTransaction` | signing, recovering and parsing the three kinds of transaction |
| `BlockCodec`, `Receipts` | how blocks and receipts are stored |
| `RunInvariants`, `Wrappers` | what runs of the pool and of Filecoin share; `Option` and `Result` |

## What does not hold

The model follows the code. Where the code does not do what its documentation or a reader
expects, a lemma shows it and another says exactly when it does:

- `revert` deletes blocks by hash from the wrong store, so the hash index keeps the hashes of
  blocks that were cut off (`StaleHash`, `HashIndexRestoredIff`, `LookupOutcome`).
- Replacing a pending transaction whose nonce is one above the highest nonce scanned before it
  pushes the transaction a second time (`RootPushedTwice`), and a nonce below the account's is
  accepted while something is pending (`BelowAccountIsQueued`). `SubmissionKeepsIff` says that
  no other submission breaks the order.
- A pending transaction that the VM rejects is removed while the account's nonce stays, so that
  what is pending behind it is one nonce too high (`RejectionKeepsIff`, `RejectionExample`);
  `evm_setAccountNonce` moves the nonce under what is pending (`SettingNonceKeepsIff`).
  `OrderKeptIff` says when a run of all the events modelled keeps the order.
- `PromiseQueue.clear` waits for its promises to settle; its documentation says it resolves
  them immediately (`ClearResolvesNothing`).
- The base fee bound needs a next base fee of at least 8 (`BoundHoldsIff`). Blocks that respect
  an odd gas limit can use more than twice their target, and then pass the bound
  (`OddLimitBreaksBound`) unless the fees are as `BoundHoldsUnderIff` says.
- A Filecoin transfer to oneself mints the amount (`TransferConservesIff`), also that of an
  accepted message (`SelfSendMints`, `FundedMiningConservesIff`).
- Filecoin messages signed elsewhere are not checked against the balance or the nonce
  (`SignedElsewhere`); `PushSignedKeepsIff` and `RunStaysSolventIff` say when that is harmless.
- `mineTipset` does not await the increment of a nonce, so the increment is lost when the next
  message has the same sender (`LostIncrement`, `NonceCountsIff`), and a mined nonce is given out
  again (`NonceReusedIff`, `NonceReusedExample`).
- On a chain with id 0 legacy transactions are signed over other bytes than they are recovered
  from (`SameBytesIff`).

## Assumptions

- Keccak-256 and ECDSA are uninterpreted, with the one law that recovery undoes signing.
- A block being mined has the next number, transactions that are not on the chain yet, and a
  header hash that no different block has.
- Saving a block and telling its listeners is one step; so is the part of
  `prepareTransaction` after its last `await`, and a Filecoin `push`.
- `mineTipset` runs without other events in between. The increment of a nonce that it does not
  await is read before the first transfer of the next message loads its accounts, and stored
  before that transfer stores them, since it waits for fewer reads; the last one is stored before
  the next event.
- A promise settles at most once.
- Payload lengths are below 2^64, the limit of the RLP format; chain ids too.
- The clock, the size of serialized Filecoin messages, gas estimates and what a database
  returned for an account are parameters.

## Model

| member | source | states |
|---|---|---|
| SnapshotRuns.RunRefinesCopying | src/chains/ethereum/ethereum/src/blockchain.ts:853-1001 | Over every run of mining, snapshots, reverts and clock changes, the recorded hash list does as well as a machine that copies the whole database at every snapshot |
| SnapshotRuns.RevertRestores | src/chains/ethereum/ethereum/src/blockchain.ts:922-1001 | Whatever happened since snapshot `id`, short of reverting to it or past it, `revert(id)` succeeds and the latest block, the indexes by number, transactions, receipts, logs, state root and time adjustment are what they were, and all older snapshots are still there |
| SnapshotRuns.HashIndexRestoredIff | src/chains/ethereum/ethereum/src/blockchain.ts:866-881 | `revert` never removes entries from the hash index: it is back to what it was exactly when no block with a new hash was saved in between |
| SnapshotRuns.LookupOutcome | src/chains/ethereum/ethereum/src/data-managers/block-manager.ts:183-208 | What looking up the hash of any block ever saved gives: the block itself exactly when it is on the chain, nothing while its number is above the latest, otherwise the other block that has its number |
| SnapshotRuns.StaleHash | src/chains/ethereum/ethereum/src/blockchain.ts:866-881 | Snapshot, save a block, revert, save another: from any state the hash of the first is then looked up as the second |
| SnapshotRuns.StaleHashLookup | src/chains/ethereum/ethereum/src/blockchain.ts:866-881 | The same on concrete blocks |
| SnapshotRuns.RunKeepsInv | src/chains/ethereum/ethereum/src/blockchain.ts:389-461 | Every state of every run satisfies the invariant of `Snapshots.Inv` |
| Snapshots.StepKeepsInv | src/chains/ethereum/ethereum/src/blockchain.ts:894-920 | Each operation keeps: the database is exactly the chain, every block ever saved is in the hash index, and the list is the blocks above the oldest live snapshot, newest first |
| Snapshots.WalkFinds | src/chains/ethereum/ethereum/src/blockchain.ts:973-979 | The loop over the hash list finds exactly the blocks above the snapshot and stops at its block |
| Snapshots.RevertRewinds | src/chains/ethereum/ethereum/src/blockchain.ts:922-1001 | A revert never fails to look up a recorded hash, and leaves exactly the chain below the snapshot |
| ChainIndexes.ReachableIndexed | src/chains/ethereum/ethereum/src/blockchain.ts:389-461 | In every state reached from genesis the transaction, receipt and log indexes hold exactly what the blocks on the chain brought |
| Blockchain.Blockchain.constructor | src/chains/ethereum/ethereum/src/blockchain.ts:733-800 | The state after genesis; the latest index is not written yet |
| Blockchain.Blockchain.SaveNewBlock | src/chains/ethereum/ethereum/src/blockchain.ts:389-461 | All indexes gain the block; the listener records its hash while snapshots are live |
| Blockchain.Blockchain.PutTransactions | src/chains/ethereum/ethereum/src/blockchain.ts:410-420 | The loop stores each transaction and receipt under its hash, a later duplicate winning |
| Blockchain.Blockchain.IncreaseTime | src/chains/ethereum/ethereum/src/blockchain.ts:831-836 | Negative amounts count as 0 |
| Blockchain.Blockchain.SetTimeDiff | src/chains/ethereum/ethereum/src/blockchain.ts:843-851 | Read back on the clock the chain uses, the time is the new one |
| Blockchain.Blockchain.EndMine | src/chains/ethereum/ethereum/src/blockchain.ts:598-605 | The time adjustment is reset with incremental time, and set from an explicit timestamp on the clock |
| Blockchain.Blockchain.Snapshot | src/chains/ethereum/ethereum/src/blockchain.ts:894-920 | Ids count the live snapshots; the first one starts the listener |
| Blockchain.Blockchain.DeleteBlockData | src/chains/ethereum/ethereum/src/blockchain.ts:853-882 | Removes the blocks, their transactions, receipts and logs; the hash index is not touched |
| Blockchain.Blockchain.WalkBlocks | src/chains/ethereum/ethereum/src/blockchain.ts:972-981 | The loop collects the blocks above the snapshot and cuts the list |
| Blockchain.Blockchain.Revert | src/chains/ethereum/ethereum/src/blockchain.ts:922-1001 | The errors and the false result change nothing; success leaves the state `Snapshots.RevertTo` describes, whose meaning `RevertRestores` gives |
| Rlp.DecodeEncoding | src/packages/rlp/index.ts:75-118 | Decoding an encoding with anything behind it gives the tree and what was behind it |
| Rlp.PrefixFree | src/packages/rlp/index.ts:75-118 | No encoding is a proper prefix of another, and equal encodings are of equal trees |
| Rlp.EncodeDecoding | src/packages/rlp/index.ts:120-127 | Whatever the decoder accepts is the encoding of what it returns |
| Rlp.DecodeIff | src/packages/rlp/index.ts:120-127 | The decoder accepts exactly the encodings |
| Rlp.EncodeLength | src/packages/rlp/index.ts:107-118 | The header of Appendix B of the Yellow Paper, short and long form |
| Rlp.Encode | src/packages/rlp/index.ts:75-105 | The recursive encoder gives the encoding of Appendix B; a missing value is an empty string |
| Rlp.EncodeRange | src/packages/rlp/index.ts:25-45 | The encodings of the chosen items, and their summed length |
| Rlp.Digest | src/packages/rlp/index.ts:52-68 | The buffer is filled exactly, with the list header and all parts in order |
| Rlp.RangesFlatten | src/packages/rlp/index.ts:25-68 | Any cut into consecutive ranges flattens to the payload of the list |
| Rlp.DigestIsEncoding | src/packages/rlp/index.ts:25-68 | For any cut, what `digest` writes is the encoding of the whole list |
| Rlp.EncodeInRanges | src/packages/rlp/index.ts:25-68 | Encoding in any ranges gives the plain encoding, which decodes to the list |
| Bytes.UintToBuffer | src/packages/utils/src/utils/uint-to-buffer.ts:177-179 | The shortest big-endian buffer; one zero byte for 0 |
| Bytes.WideIsBigEndian | src/packages/utils/src/utils/uint-to-buffer.ts:91-175 | Numbers wider than 32 bits are written with no gap between the two words |
| Bytes.BigEndianUnique | src/packages/utils/src/utils/uint-to-buffer.ts:177-179 | A buffer without leading zero is the one its number is written as |
| Heap.Heap.Push | src/packages/utils/src/utils/heap.ts:56-60 | Adds one element and keeps the heap ordered |
| Heap.Heap.Peek | src/packages/utils/src/utils/heap.ts:69-71 | The root goes before everything or ties with it |
| Heap.Heap.RemoveBest | src/packages/utils/src/utils/heap.ts:154-169 | Removes the root, keeps the order, and says whether anything is left |
| Heap.Heap.Up | src/packages/utils/src/utils/heap.ts:185-190 | Restores the order above a changed element, as a permutation |
| Heap.Heap.Down | src/packages/utils/src/utils/heap.ts:192-208 | Restores the order below a changed element, as a permutation, and tells whether a child went before the node |
| Heap.SinksIff | src/packages/utils/src/utils/heap.ts:192-208 | A child goes before the node exactly when the better one of its two children does |
| Heap.SwapUp | src/packages/utils/src/utils/heap.ts:185-190 | A swap with the parent moves the only disorder one level up |
| Heap.SwapDown | src/packages/utils/src/utils/heap.ts:192-208 | A swap with the better child moves the only disorder one level down |
| Heap.RootIsBest | src/packages/utils/src/utils/heap.ts:9-14 | In an ordered heap nothing goes before the root |
| Nonces.ScanFor | src/chains/ethereum/ethereum/src/transaction-pool.ts:249-270 | The scan of a raw array finds the first transaction with the nonce, or none has it |
| Nonces.ReplacesIff | src/chains/ethereum/ethereum/src/transaction-pool.ts:29-78 | A transaction with the nonce is replaced exactly when the miner has not locked it and both fees are over its own by the bump; otherwise the reason is the lock, and without it the price |
| Nonces.ScanIs | src/chains/ethereum/ethereum/src/transaction-pool.ts:249-270 | The scan hits the first transaction with the nonce if it may be replaced, throws for it if it may not, and misses when there is none |
| Nonces.RefusedIff | src/chains/ethereum/ethereum/src/transaction-pool.ts:230-338 | The reasons for which a submission is refused once the heaps are looked at, and exactly when each of them applies |
| Nonces.DisplacedCanBe | src/chains/ethereum/ethereum/src/transaction-pool.ts:253-338 | Whatever a submission replaces had its nonce, was not locked and is outbid |
| Nonces.SubmittedIsHeld | src/chains/ethereum/ethereum/src/transaction-pool.ts:230-404 | The heaps hold what was submitted, with its fees, its nonce, and not locked |
| Nonces.ReplacementPays | src/chains/ethereum/ethereum/src/transaction-pool.ts:68-77 | A replacement never lowers a fee, and raises one that the bump is worth a unit of |
| PoolRuns.ReplacementsPay | src/chains/ethereum/ethereum/src/transaction-pool.ts:29-78 | Over any run of replacements neither fee falls, and each rises at every replacement once the bump is worth a unit of it |
| Nonces.SubmissionKeepsIff | src/chains/ethereum/ethereum/src/transaction-pool.ts:209-404 | An accepted submission keeps pending nonces contiguous and queued ones distinct and above if and only if it is neither a replacement that is pushed again nor below the account nonce |
| Nonces.RootPushedTwice | src/chains/ethereum/ethereum/src/transaction-pool.ts:253-277 | Any replacement of a pending root with nonce 1 is accepted and leaves the new transaction in the heap twice |
| Nonces.PushedTwiceExample | src/chains/ethereum/ethereum/src/transaction-pool.ts:253-277 | The same with concrete fees and a price bump of 10 |
| Nonces.BelowAccountIsQueued | src/chains/ethereum/ethereum/src/transaction-pool.ts:273-292 | While anything is pending, every nonce below the account nonce is accepted, and queued where it can never execute |
| Nonces.BelowAccountExample | src/chains/ethereum/ethereum/src/transaction-pool.ts:273-292 | The same on a concrete sender |
| PoolRuns.OrderKeptIff | src/chains/ethereum/ethereum/src/transaction-pool.ts:150-411 | Over every run of submissions, refusals, locking, mining, rejections by the VM, clearing and nonces set from outside: all states are in order if and only if no submission is of one of those two kinds, no rejected transaction has others pending behind it, and no nonce is set that something pending or queued contradicts |
| PoolRuns.LockedStays | src/chains/ethereum/ethereum/src/transaction-pool.ts:41-48 | Over any stretch of any run, a transaction the miner has locked stays pending unless the miner itself or a clear takes it |
| PoolRuns.RootCanBeMined | src/chains/ethereum/ethereum/src/miner/miner.ts:324-365 | In order, a pending transaction has the account nonce and can be mined |
| Nonces.HitOutcome | src/chains/ethereum/ethereum/src/transaction-pool.ts:253-282 | A replacement leaves the nonces in order unless its nonce is one above the highest scanned before it; then the transaction is in the heap twice |
| Nonces.QueuedOutcome | src/chains/ethereum/ethereum/src/transaction-pool.ts:289-338 | A transaction that is not executable keeps the queue in order unless it is below the account nonce |
| Nonces.AutomaticNonceIsNew | src/chains/ethereum/ethereum/src/transaction-pool.ts:273-292 | A nonce the pool fills in is the next executable one and is in neither heap |
| Nonces.DrainIsMaximal | src/chains/ethereum/ethereum/src/transaction-pool.ts:359-383 | The drain moves exactly the maximal run of consecutive queued nonces |
| Nonces.NothingLost | src/chains/ethereum/ethereum/src/transaction-pool.ts:348-383 | Push and drain together lose and duplicate nothing |
| Nonces.MiningKeeps | src/chains/ethereum/ethereum/src/miner/miner.ts:324-365 | Mining the root takes the account nonce and leaves the rest in order from the next |
| Nonces.RejectionKeepsIff | src/chains/ethereum/ethereum/src/miner/miner.ts:464-492 | A root that the VM rejects leaves the heap without its nonce being used: order is kept exactly when nothing else is pending |
| PoolRuns.RejectionExample | src/chains/ethereum/ethereum/src/miner/miner.ts:464-492 | Two pending transactions of which the first is rejected leave the second one above the account nonce |
| Nonces.SettingNonceKeepsIff | src/chains/ethereum/ethereum/src/api.ts:473-492 | Setting the account nonce keeps the order exactly when it is what it was, or nothing is pending and everything queued is above it |
| TransactionPool.ScanPending | src/chains/ethereum/ethereum/src/transaction-pool.ts:249-271 | The loop finds what to replace and the highest nonce seen before |
| TransactionPool.ScanQueued | src/chains/ethereum/ethereum/src/transaction-pool.ts:316-337 | The loop over the queued heap |
| TransactionPool.ReplaceInPlace | src/chains/ethereum/ethereum/src/transaction-pool.ts:253-257 | Replacing without a re-sort keeps the heap ordered at every node |
| TransactionPool.Drain | src/chains/ethereum/ethereum/src/transaction-pool.ts:359-382 | The loop moves roots while they have the expected nonce, and ends |
| TransactionPool.DrainedAll | src/chains/ethereum/ethereum/src/transaction-pool.ts:359-382 | What the turns of the loop moved is one drain: consecutive, from the lowest, and complete |
| TransactionPool.TriagePending | src/chains/ethereum/ethereum/src/transaction-pool.ts:237-306 | The decision against the pending heap or the account, and the replacement it makes |
| TransactionPool.TriageQueued | src/chains/ethereum/ethereum/src/transaction-pool.ts:308-338 | The decision against the queued heap, and the replacement it makes |
| TransactionPool.SenderPool.PlaceExecutable | src/chains/ethereum/ethereum/src/transaction-pool.ts:348-383 | Pushes, drains what follows, and drops the queue if that empties it |
| TransactionPool.SenderPool.EntryIffQueued | src/chains/ethereum/ethereum/src/transaction-pool.ts:373-378 | There is a queue entry exactly while something is queued |
| TransactionPool.SenderPool.PrepareTransaction | src/chains/ethereum/ethereum/src/transaction-pool.ts:150-404 | Every refusal with its reason and without effect; an acceptance leaves the heaps as decided and names the transaction it replaced; what the miner has locked is not replaced, and a submission with the nonce of a locked pending transaction is refused |
| TransactionPool.SenderPool.Clear | src/chains/ethereum/ethereum/src/transaction-pool.ts:406-410 | Both heaps are gone |
| PromiseQueue.PromiseQueue.EveryOutcomeIsOwed | src/packages/promise-queue/index.ts:45-100 | For any interleaving of add, settle and clear: every outer promise was resolved once or not at all, with the value owed by the events alone |
| PromiseQueue.PromiseQueue.CallsInOrder | src/packages/promise-queue/index.ts:45-100 | In the log the objects keep of their calls of `resolve`: one call for every entry that is owed its outcome, none for others, in the order of insertion |
| PromiseQueue.PromiseQueue.Add | src/packages/promise-queue/index.ts:65-70 | Records the event; the new entry is the last |
| PromiseQueue.PromiseQueue.Settle | src/packages/promise-queue/src/entry.ts:11-24 | The handler of a settled promise, which announces idle exactly when everything of the generation is resolved; earlier calls of `resolve` stay in the log |
| PromiseQueue.PromiseQueue.Clear | src/packages/promise-queue/index.ts:76-83 | Records the event; entries point at the array they were moved to |
| PromiseQueue.PromiseQueue.TryResolve | src/packages/promise-queue/index.ts:45-56 | Resolves a head and the chain behind it, marks anything else |
| PromiseQueue.PromiseQueue.TryResolveChain | src/packages/promise-queue/index.ts:88-100 | The loop resolves marked entries from the front |
| PromiseQueue.PromiseQueue.IsBusy | src/packages/promise-queue/index.ts:38-40 | Busy exactly while a live entry lacks its outcome |
| Promises.RunHolds | src/packages/promise-queue/index.ts:45-100 | The queue as a machine holds after every run exactly what the events alone ask for |
| Promises.OwedIffDue | src/packages/promise-queue/index.ts:45-100 | The entries with an outcome are exactly the longest settled prefix of each generation |
| Promises.FirstInFirstOut | src/packages/promise-queue/index.ts:6-8 | Over every run `resolve` is called once for exactly the entries that are owed, and within a generation the calls come in the order of insertion, also inside one chain |
| Promises.LogGrows | src/packages/promise-queue/index.ts:45-100 | An event only adds to the calls made before, and only a promise that settles does |
| Promises.OutcomeOf | src/packages/promise-queue/index.ts:76-83 | An outcome never changes; one that is missing when its generation is cleared becomes the value of the clear |
| Promises.ClearResolvesNothing | src/packages/promise-queue/index.ts:25-30 | A clear resolves nothing by itself, unlike its documentation says |
| Promises.EmptyIff | src/packages/promise-queue/index.ts:38-40 | A queue is empty exactly when everything of its generation has its outcome |
| BaseFee.NextBaseFeeIff | src/chains/ethereum/block/src/block.ts:136-172 | The next base fee is the one number EIP-1559 allows: it falls by the floor of an eighth of the fee in proportion to the gas that stays below the target, or rises by that for the gas beyond it, and then by at least 1 |
| BaseFee.StepBounds | src/chains/ethereum/block/src/block.ts:136-172 | In one block the base fee moves by at most an eighth, or by 1 up |
| BaseFee.FeeDeltaIsOneFloor | src/chains/ethereum/block/src/block.ts:151-167 | The two floors give the floor of the exact eighth |
| BaseFee.FloorKept | src/chains/ethereum/block/src/block.ts:136-172 | The base fee never falls below the smaller of 7 and what it was |
| BaseFee.CalcNBlocksMaxBaseFee | src/chains/ethereum/block/src/block.ts:174-190 | The loop computes the repeated eighths; it fails as the next base fee does |
| BaseFee.NBlocksBounded | src/chains/ethereum/block/src/block.ts:174-190 | Each of the next n blocks stays within the bound, whatever gas the blocks use |
| BaseFee.BoundReached | src/chains/ethereum/block/src/block.ts:174-190 | The bound is reached when every block uses exactly twice its target |
| BaseFee.BoundHoldsIff | src/chains/ethereum/block/src/block.ts:174-190 | For two or more blocks the bound holds for all histories exactly when the next base fee is at least 8 |
| BaseFee.FullBlockIsWithin | src/chains/ethereum/block/src/block.ts:140-142 | Respecting an even gas limit implies using at most twice the target |
| BaseFee.FullBlockIff | src/chains/ethereum/block/src/block.ts:136-172 | A full block raises the fee by no more than an eighth exactly when the gas limit is even or the rest of the fee by 8 and its share of the target are below 8 together |
| BaseFee.BoundHoldsUnderIff | src/chains/ethereum/block/src/block.ts:174-190 | For two or more blocks that respect one gas limit, odd or even, the bound holds for all histories exactly when the next fee is at least 8 and a full block would raise none of the bounds before by more than an eighth; a limit of 0 leaves the fee alone, and one of 1 divides by 0 |
| BaseFee.OddLimitBreaksBound | src/chains/ethereum/block/src/block.ts:140-142 | At the genesis base fee a full block under the gas limit 30000001 takes the fee past the bound |
| BaseFee.FeeMarketTransaction.Autofill | src/chains/ethereum/ethereum/src/api.ts:63-94 | Fills in what is missing, the maximum fee with the bound for three blocks |
| BaseFee.FeeMarketTransaction.UpdateEffectiveGasPrice | src/chains/ethereum/transaction/src/eip1559-fee-market-transaction.ts:280-287 | The price is the tip on top of the base fee, up to the maximum fee |
| BaseFee.FeeMarketTransaction.GetUpfrontCost | src/chains/ethereum/transaction/src/eip1559-fee-market-transaction.ts:185-199 | The upfront cost is at that same price |
| BaseFee.PriceCovers | src/chains/ethereum/transaction/src/eip1559-fee-market-transaction.ts:280-287 | The price is the base fee and the tip or, if that is less, the maximum fee; it covers the base fee exactly when the maximum fee does, and never costs more than was checked |
| BaseFee.AutofilledIsPayable | src/chains/ethereum/ethereum/src/api.ts:80-89 | An autofilled transaction that passed the funds check is payable in each of the next three blocks |
| BaseFee.AutofilledIsPayableUnder | src/chains/ethereum/ethereum/src/api.ts:80-89 | The same for blocks that respect one gas limit, even or odd, whenever the bound holds under it |
| HeaderChain.ReachableChain | src/chains/ethereum/ethereum/src/blockchain.ts:557-576 | In every chain reached by mining and reverting: numbers, parent hashes, total difficulty, the floor of base fees, and each base fee the one EIP-1559 allows for the gas limit and gas used of the block before |
| HeaderChain.StepKeepsLinked | src/chains/ethereum/block/src/runtime-block.ts:107-141 | Mining and reverting keep the links between the headers |
| HeaderChain.MineIs | src/chains/ethereum/ethereum/src/blockchain.ts:557-576 | Mining puts exactly the header of the parent, the work and the next base fee on the chain, and fails only where there is no next base fee |
| HeaderChain.LinkedAddsUp | src/chains/ethereum/block/src/runtime-block.ts:107-141 | What the links add up to over a whole chain |
| Filecoin.FilledRespectsMaxFee | src/chains/filecoin/filecoin/src/gas.ts:66-109 | Whatever the caller gives, filling respects a positive maximum fee and changes only the three gas fields |
| Filecoin.FilledDefaults | src/chains/filecoin/filecoin/src/gas.ts:66-92 | What was given stays, and what was left out gets its default |
| Filecoin.FilledHighestCap | src/chains/filecoin/filecoin/src/gas.ts:94-109 | A maximum fee changes only a message that is over it, which gets the highest fee cap that is not |
| Filecoin.GasByKind | src/chains/filecoin/filecoin/src/gas.ts:22-64 | The gas of transfers and calls, with and without value, per byte of their size |
| Filecoin.CheckedInOrder | src/chains/filecoin/filecoin/src/message.ts:159-188 | A message is accepted exactly when none of the fourteen checks fails; otherwise the first that does decides the error |
| Filecoin.ZeroAddressByVersion | src/chains/filecoin/filecoin/src/message.ts:24-30 | The zero address is refused from network version 7 on |
| Filecoin.ProtocolByDigit | src/chains/filecoin/filecoin/src/things/address.ts:265-287 | The digit behind the letter of the network names the protocol |
| Filecoin.FilledPremiumIff | src/chains/filecoin/filecoin/src/gas.ts:66-109 | The premium is within the fee cap exactly when the cap was left out, was not below the premium, or was cut to the maximum fee |
| Filecoin.Truncated | src/chains/filecoin/filecoin/src/gas.ts:103-103 | BigInt division rounds toward zero, for every sign |
| Filecoin.TransferConservesIff | src/chains/filecoin/filecoin/src/data-managers/account-manager.ts:91-107 | A transfer conserves the total exactly when the balance does not cover it, it is not to the sender itself, or it moves nothing |
| Filecoin.TransferTotal | src/chains/filecoin/filecoin/src/data-managers/account-manager.ts:91-107 | A transfer to the sender itself adds the amount to the total |
| Filecoin.PushKeepsSolvent | src/chains/filecoin/filecoin/src/blockchain.ts:357-427 | A pushed message is covered by the balance and has the next nonce |
| Filecoin.PushSignedKeepsIff | src/chains/filecoin/filecoin/src/blockchain.ts:429-463 | An accepted message signed elsewhere keeps the pool covered and numbered exactly when it has the next nonce of its sender and the balance covers it on top of what is pending |
| Filecoin.ClearKeepsSolvent | src/chains/filecoin/filecoin/src/blockchain.ts:471-495 | Clearing keeps whole senders, so what stays is covered and numbered |
| Filecoin.MiningAFundedPool | src/chains/filecoin/filecoin/src/blockchain.ts:536-641 | If every sender can pay for its messages, mining drops none, gives every account exactly what the messages move - the miner the gas limit times the premium, recipients the values, senders less both - and advances each nonce by the number of stretches of adjacent messages of the sender |
| Filecoin.NonceCountsIff | src/chains/filecoin/filecoin/src/blockchain.ts:634-634 | Mining advances a nonce by the number of messages exactly when no two adjacent messages of the tipset are both of that sender: the increment is not awaited, and the transfer of the next message stores the old nonce again |
| Filecoin.NonceReused | src/chains/filecoin/filecoin/src/blockchain.ts:357-390 | After an increment was lost, the next message pushed by the sender gets a nonce that was mined before, and which |
| Filecoin.NonceReusedIff | src/chains/filecoin/filecoin/src/blockchain.ts:357-390 | The next message pushed after mining a solvent pool has a nonce that was mined before exactly when two adjacent messages of the pool were both of its sender |
| Filecoin.NonceReusedExample | src/chains/filecoin/filecoin/src/blockchain.ts:357-390 | After two messages with nonces 0 and 1 were mined, the next one pushed gets nonce 1 |
| Filecoin.LostIncrement | src/chains/filecoin/filecoin/src/blockchain.ts:634-634 | Two adjacent messages of one sender in a solvent pool are both mined and counted once |
| Filecoin.MiningTotal | src/chains/filecoin/filecoin/src/blockchain.ts:536-641 | Whatever is in the pool, mining adds to the total exactly what the successful messages send from an account to itself |
| Filecoin.MiningConservesIff | src/chains/filecoin/filecoin/src/blockchain.ts:536-641 | Whatever is in the pool, mining conserves the total exactly when no successful message sends anything to its own sender |
| Filecoin.FundedMiningConservesIff | src/chains/filecoin/filecoin/src/blockchain.ts:536-641 | If every sender can pay for its messages, mining conserves the total exactly when no message of the pool sends anything to its own sender |
| Filecoin.SelfSendMints | src/chains/filecoin/filecoin/src/blockchain.ts:536-641 | An accepted message of a sender to itself, alone in a solvent pool, adds its value to the total |
| Filecoin.RunStaysSolventIff | src/chains/filecoin/filecoin/src/blockchain.ts:323-641 | Over every run of pushes, messages signed elsewhere, clears and minings: all states are solvent with nonces in order if and only if every accepted message signed elsewhere has the next nonce and is covered |
| Filecoin.RunTotal | src/chains/filecoin/filecoin/src/blockchain.ts:323-641 | Over every run, solvent or not, the total changes only by what senders manage to send themselves |
| Filecoin.EveryMiningTakesAll | src/chains/filecoin/filecoin/src/blockchain.ts:536-641 | Every mining of a run without such a message takes all of its messages, with exact balances and nonces, and counts every message of a sender exactly when no two are adjacent |
| Filecoin.SignedElsewhere | src/chains/filecoin/filecoin/src/blockchain.ts:429-463 | A message signed elsewhere is accepted uncovered and out of order, and mining then drops it |
| Filecoin.CostCoversFee | src/chains/filecoin/filecoin/src/gas.ts:125-130 | The miner gets the gas limit times the premium, which with the value is covered by the gas limit times the fee cap and the value |
| FilecoinChain.AccountManager.TransferFunds | src/chains/filecoin/filecoin/src/data-managers/account-manager.ts:91-107 | Both accounts are loaded before either is stored, and an increment under way is stored in between |
| FilecoinChain.AccountManager.IncrementNonce | src/chains/filecoin/filecoin/src/data-managers/account-manager.ts:109-113 | The account is read, and the store that is left has its nonce one higher |
| FilecoinChain.AccountManager.GetAccount | src/chains/filecoin/filecoin/src/data-managers/account-manager.ts:52-69 | A missing account is stored with nothing in it |
| FilecoinChain.Blockchain.Push | src/chains/filecoin/filecoin/src/blockchain.ts:323-427 | Every refusal and its order; success adds the prepared message |
| FilecoinChain.Blockchain.PushSigned | src/chains/filecoin/filecoin/src/blockchain.ts:429-463 | Only the message itself is checked |
| FilecoinChain.Blockchain.MpoolClear | src/chains/filecoin/filecoin/src/blockchain.ts:471-495 | The filter loop keeps the messages of controllable senders |
| FilecoinChain.Blockchain.MineTipset | src/chains/filecoin/filecoin/src/blockchain.ts:530-641 | The pool is emptied and its messages are applied in order, with one increment under way from each successful message to the next |
| FilecoinChain.Blockchain.ApplyMessage | src/chains/filecoin/filecoin/src/blockchain.ts:571-640 | One turn of the loop: the fee, the value, and the increment that is not awaited |
| StorageRange.FindInsertPosition | src/packages/utils/src/utils/find-insert-position.ts:28-63 | Binary search finds the position behind everything that does not come after the value |
| StorageRange.HandleData | src/chains/ethereum/ethereum/src/blockchain.ts:1588-1598 | The collected keys stay sorted and agree with the sorted list in their first maxResult + 1 entries; a key that is not among them is not kept |
| StorageRange.LessIff | src/chains/ethereum/ethereum/src/blockchain.ts:1577-1598 | Buffers compare by the first byte in which they differ, a proper prefix first |
| StorageRange.LessInNumbers | src/chains/ethereum/ethereum/src/blockchain.ts:1577-1598 | Keys of one length compare as the numbers they write |
| StorageRange.GetStorageKeys | src/chains/ethereum/ethereum/src/blockchain.ts:1575-1621 | The stream gives the first maxResult of the keys not before the start in ascending order, each as often as it arrived, and the next key exactly when there are more |
| StorageRange.RangeInNumbers | src/chains/ethereum/ethereum/src/blockchain.ts:1575-1621 | For keys of one length the range is told in numbers: ascending, from the start on, and what is left out is not below the next key |
| StorageRange.ArrivalOrderIsIrrelevant | src/chains/ethereum/ethereum/src/blockchain.ts:1575-1621 | The order of arrival does not matter, and any sorted listing of the keys gives the same range |
| StorageRange.SortSorts | src/chains/ethereum/ethereum/src/blockchain.ts:1593-1598 | The reference sort sorts and permutes |
| StorageRange.SortedUnique | src/chains/ethereum/ethereum/src/blockchain.ts:1593-1598 | There is only one sorted listing |
| ConsoleLog.LogsAreArguments | src/chains/ethereum/console.log/src/maybe-get-logs.ts:35-69 | For every argument list, and wherever its payload is in memory, the logged values are the arguments |
| ConsoleLog.NotALog | src/chains/ethereum/console.log/src/maybe-get-logs.ts:38-72 | Exactly when a step of the machine gives no logs: another opcode or address, numbers that are too large, no selector, an unknown one, or a handler that throws |
| ConsoleLog.BeyondMemory | src/chains/ethereum/console.log/src/handlers.ts:66-151 | What each handler gives behind the end of the memory |
| ConsoleLog.ConsoleAddressSpells | src/chains/ethereum/console.log/src/maybe-get-logs.ts:5-9 | The address is the bytes of console.log |
| ConsoleLog.ArgDecoded | src/chains/ethereum/console.log/src/handlers.ts:144-151 | Each handler reads its argument back from the encoding of the whole list |
| ConsoleLog.Int256Decoded | src/chains/ethereum/console.log/src/handlers.ts:82-93 | Two's complement is read back, negative numbers included |
| ConsoleLog.MarkersFound | src/chains/ethereum/console.log/src/handlers.ts:34-58 | The markers enclose exactly the dynamic data |
| ConsoleLog.StaticDecoded | src/chains/ethereum/console.log/src/handlers.ts:65-133 | Static values are read back from their word |
| Signing.SignedIsParsed | src/chains/ethereum/transaction/src/transaction-factory.ts:231-259 | Parsing what was signed gives the same kind and fields, and as sender the last 20 bytes of the hash of the public key of the signer, for all three kinds, unless s is at or above the limit |
| Signing.InactiveRefused | src/chains/ethereum/transaction/src/transaction-factory.ts:55-100 | A kind whose rules are not active is refused |
| Signing.ToHasLength | src/chains/ethereum/transaction/src/legacy-transaction.ts:38-38 | A recipient is empty or has 20 bytes, filled or cut |
| Signing.MaxSIsHalf | src/packages/secp256k1/index.ts:12-16 | The limit for s is half of the order of the curve |
| Signing.SameBytesIff | src/chains/ethereum/transaction/src/signing.ts:73-102 | Signer and recovery hash the same bytes, except for a legacy transaction on a chain with id 0 |
| Signing.SignerRecovered | src/chains/ethereum/transaction/src/signing.ts:104-127 | Recovery from a stored signature finds the address of the signer, told from the public key |
| Signing.OtherChainRefused | src/chains/ethereum/transaction/src/signing.ts:85-102 | A legacy signature for one chain id is refused under every other |
| Signing.OtherChainRefusedTyped | src/chains/ethereum/transaction/src/eip2930-access-list-transaction.ts:86-91 | A typed transaction is refused on any chain but its own |
| Signing.FillRestores | src/chains/ethereum/transaction/src/signing.ts:37-59 | Leading zeros lost in a number come back |
| Signing.CopyOrFill | src/chains/ethereum/transaction/src/signing.ts:37-59 | Writes the source with zeros to its left, or refuses without touching the target |
| Signing.EcdsaRecover | src/chains/ethereum/transaction/src/signing.ts:104-127 | Recovery through the shared buffer |
| Signing.CoreParsed | src/chains/ethereum/transaction/src/eip1559-fee-market-transaction.ts:63-81 | The fields of all three kinds are read back from their raw items |
| Signing.AccessesParsed | src/chains/ethereum/transaction/src/eip1559-fee-market-transaction.ts:72-74 | Access lists are read back from their items |
| RuntimeTransaction.RuntimeTransaction.SignAndHash | src/chains/ethereum/transaction/src/legacy-transaction.ts:160-211 | Sets signature, raw items, serialization and hash as specified; a failure changes nothing |
| RuntimeTransaction.FromItems | src/chains/ethereum/transaction/src/legacy-transaction.ts:28-61 | The constructor from raw items, with every refusal |
| RuntimeTransaction.SigningMessage | src/chains/ethereum/transaction/src/eip1559-fee-market-transaction.ts:210-231 | The bytes that are signed, made with the incremental encoder |
| RuntimeTransaction.RecoveryMessage | src/chains/ethereum/transaction/src/signing.ts:88-99 | The bytes that recovery hashes, made with the incremental encoder |
| BlockCodec.Serialize | src/chains/ethereum/block/src/serialize.ts:39-55 | The stored bytes are the plain encoding of the six elements, and the size is that of the plain Ethereum block |
| BlockCodec.StoredBlockReadBack | src/chains/ethereum/block/src/block.ts:35-49 | A stored block is read back with its header fields, transactions, metadata and size |
| BlockCodec.HeaderReadBackIff | src/chains/ethereum/block/src/block.ts:35-49 | A header is read back from its raw listing exactly when its fixed parts have their lengths |
| BlockCodec.FinalHeaderListed | src/chains/ethereum/block/src/runtime-block.ts:147-180 | What is listed at the end of mining is the raw listing of the mined header, with a zero mix hash and nonce |
| BlockCodec.FinalHeaderValues | src/chains/ethereum/block/src/runtime-block.ts:147-180 | The finished header has the values of the block being mined |
| BlockCodec.MinedBlockReadBack | src/chains/ethereum/block/src/runtime-block.ts:147-180 | A mined block that was stored is read back with the values it was mined with |
| BlockCodec.StoredBlocksDiffer | src/chains/ethereum/block/src/serialize.ts:39-55 | Blocks stored as the same bytes are the same |
| Receipts.InternalTransactionReceipt.Serialize | src/chains/ethereum/transaction/src/transaction-receipt.ts:111-134 | The cached part serves both formats |
| Receipts.StoredReceiptDecodes | src/chains/ethereum/transaction/src/transaction-receipt.ts:61-74 | A stored receipt decodes to the values it was built from, a missing address as an empty one |
| Permute.Permute | src/chains/ethereum/console.log/scripts/helpers.ts:183-195 | The triple loop lists the digits of the counter, by length |
| Permute.EveryListOnce | src/chains/ethereum/console.log/scripts/helpers.ts:177-182 | Every list of 1 to n of the types, each exactly once, and nothing else |
| Permute.DigitAt | src/chains/ethereum/console.log/scripts/helpers.ts:188-193 | What the innermost loop computes is a base-n digit |

## Left out

- EVM execution, gas estimation, tracing, tries and forking, which rest on other libraries.
- Keccak-256, secp256k1, BLS, scrypt and key derivation.
- Emission of `block` events later than the save, stale nonces while a block is being mined, and Filecoin pushes during mining.
- The maps from senders to heaps: `SenderPool` is the entry of one sender, and transactions are values, so that a transaction locked by the miner is a replaced value.
- `finalize` of a replaced transaction: its promise is not modelled; the replaced transaction is returned.
- Heap initialisation from an array, `refresh`, `shift`, `replace`, `remove` and the miner's heap of prices, which would add easy members.
- `revert` clearing pending transactions and pausing the miner.
- Storage keys saved with a block, which a revert does not remove and nothing here reads.
- The conversion of decoded bytes to hexadecimal or UTF-8 text in `console.log` handlers and in JSON output.
- Signing.FromString: an RLP string in place of a list is refused here, where the source goes on with a buffer as if it were a JSON transaction; access lists of another shape than pairs of an address and keys are refused.
- Access list gas and the JSON form of transactions.
- Logs inside receipts are kept as opaque trees.
- Filecoin address checksums, tipset headers, BLS aggregation and storage deals.
- The precision of JavaScript numbers above 2^53: chain ids, block numbers and powers are exact here.
- Alias expansion and name collisions in the generator of `console.log` signatures.
- LevelDB batching, IPFS, HTTP and websocket servers, the command line, and RPC methods that return constants.

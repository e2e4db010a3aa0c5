# GrinPlusPlus node core, modelled in Dafny

This project models six pieces of a Grin++ full node:

- **Fast sync.** After a TxHashSet snapshot (the committed UTXO set: output, range-proof and kernel MMRs) has been downloaded for a header, the node adopts it. It closes the live set, loads and validates the snapshot, and then, in one write batch, stores the block sums and output positions, installs the set and fast-forwards the *confirmed* chain to the *candidate* chain. Each chain is a view of the blockchain.
- **Four foreign-API RPC handlers.** `get_blocks` pages through blocks. `get_kernel` finds a kernel by its excess commitment. `get_pmmr_indices` pages through outputs by leaf index. `get_unconfirmed_transactions` lists the mempool.
- **Pool-entry identity.** A transaction-pool entry's identity and ordering come from its transaction hash alone.

Modelling choices:

- A chain is a `seq<Hash>` indexed by height.
- Block storage is a function from height to `Option` of the block.
- The node's durable state is an immutable `ChainState` value. A write batch is a pending copy of that state, and it becomes the state only on commit.
- Every handler is a function or method that returns a `Response`: either a result or one of the source's error replies.
- Collaborators whose code is not part of this model become parameters:
  - the snapshot loader and validator;
  - `LeafIndex::GetPosition`;
  - `GetOutputsByLeafIndex`;
  - the range-proof hash;
  - the `gmtime`/`put_time` calendar text.

Files:

| file | module(s) |
|---|---|
| basics.dfy | `Basics`: `U64`, `byte`, `Option`, saturating subtraction |
| hashes.dfy | `Hashes`: 32-byte hashes, 33-byte commitments, lexicographic hash order |
| json_util.dfy | `JsonUtil`: JSON values and the conversions the handlers apply |
| rpc.dfy | `Rpc`: error replies and the response type |
| chain_store.dfy | `ChainStore`: `FindCommonIndex`, `Rewind`, `AddBlock` |
| txhashset_processor.dfy | `TxHashSetProcessor`, `TxHashSetReconciliation` |
| get_blocks_handler.dfy | `GetBlocksHandler` |
| get_kernel_handler.dfy | `GetKernelHandler` |
| get_pmmr_indices_handler.dfy | `GetPMMRIndicesHandler` |
| get_unconfirmed_transactions_handler.dfy | `GetUnconfirmedTransactionsHandler` |
| tx_pool_entry.dfy | `TxPool`: `TxPoolEntry` and `DandelionStatus` |

## A failed sync leaves the TxHashSet closed

Step 1 of `ProcessTxHashSet` (src/BlockChain/Processors/TxHashSetProcessor.cpp:31-34) closes the live TxHashSet under its own write lock, outside the later batch. So when loading or validation fails, the node is left with no live TxHashSet, and the model says so:

- every failure after the header lookup yields the prior state with `txHashSet := None`;
- only the batch contents (block sums, output positions, new set, confirmed chain) are discarded.

## Model

| member | source | states |
|---|---|---|
| ChainStore.FindCommonIndex | src/BlockChain/Processors/TxHashSetProcessor.cpp:89 | the common index is 0 or a height below both chain lengths where the chains agree, and the chains differ at every greater height below both lengths |
| ChainStore.Rewind | src/BlockChain/Processors/TxHashSetProcessor.cpp:90 | rewinding to a height keeps exactly the first `height + 1` entries (all, if fewer), unchanged |
| ChainStore.AddBlock | src/BlockChain/Processors/TxHashSetProcessor.cpp:95 | a block is appended only at height == current length, so the chain never has gaps; earlier entries stay unchanged |
| TxHashSetProcessor.ReconciledChain | src/BlockChain/Processors/TxHashSetProcessor.cpp:89-97 | after reconciliation the confirmed chain is unchanged up to the common height, equals the candidate at every height in (common, header height], and ends at max(common, header height) |
| TxHashSetProcessor.UpdateConfirmedChain | src/BlockChain/Processors/TxHashSetProcessor.cpp:78-99 | fails, with the chain unchanged, exactly when the candidate's hash at the header height differs from the header's hash; otherwise the rewind-then-append loop produces the reconciled chain |
| TxHashSetProcessor.ProcessTxHashSet | src/BlockChain/Processors/TxHashSetProcessor.cpp:21-76 | an unknown header changes nothing; load, validation or chain-update failure leaves only the prior set closed; commit happens exactly when every step succeeds, and then publishes the block sums, output positions, new set and reconciled confirmed chain together |
| TxHashSetReconciliation.ReconciledIsCandidatePrefix | src/BlockChain/Processors/TxHashSetProcessor.cpp:89-97 | when the chains agree up to the common height and the common height is below the header height, the reconciled confirmed chain is exactly the candidate chain up to the header |
| TxHashSetReconciliation.ForkScenario | src/BlockChain/Processors/TxHashSetProcessor.cpp:89-97 | confirmed chain at height 10 and candidate at height 12, agreeing on heights 0-7 and differing on 8-10: the common height is 7; heights 0-7 are kept and 8-12 are adopted from the candidate |
| TxHashSetReconciliation.ReconcileIdempotent | src/BlockChain/Processors/TxHashSetProcessor.cpp:89-97 | reconciling an already reconciled chain against the same candidate and header changes nothing |
| GetBlocksHandler.ParseQuery | src/API/Node/Handlers/GetBlocksHandler.h:28-60 | a non-array, empty or null-first params is INVALID_PARAMS; end defaults to start and is raised to it; max defaults to 100 and 0 becomes 1; include_proof defaults to true; it succeeds exactly when every supplied value converts |
| GetBlocksHandler.BlockView | src/API/Node/Handlers/GetBlocksHandler.h:96-107 | without include_proof, only the `proof` member of each output is removed; every other member and the number of outputs are unchanged |
| GetBlocksHandler.StoredHeightsSpec | src/API/Node/Handlers/GetBlocksHandler.h:88-94 | the walk's reference lists exactly the heights in range that hold a block, strictly increasing |
| GetBlocksHandler.PageHeightsSpec | src/API/Node/Handlers/GetBlocksHandler.h:85-117 | a page has at most max heights, strictly increasing, within [start, end], all holding a block; missing blocks do not use up the budget, so no stored height up to the last retrieved one is skipped |
| GetBlocksHandler.CollectBlocks | src/API/Node/Handlers/GetBlocksHandler.h:84-117 | the loop returns exactly the first max stored heights of [start, end] with their (proof-stripped) blocks; last_retrieved_height is the last of them, or start when there are none |
| GetBlocksHandler.Handle | src/API/Node/Handlers/GetBlocksHandler.h:16-126 | missing params, unavailable chain, bad params and missing tip give their errors in source order; start above the tip gives no blocks and last_retrieved_height == tip; otherwise the page runs from start to min(end, tip) |
| GetKernelHandler.ParseQuery | src/API/Node/Handlers/GetKernelHandler.h:30-70 | fewer than 3 params, a null excess or a bad commitment gives INVALID_PARAMS; min defaults to 0; max defaults to the tip and is clamped to it; a supplied min or max that does not convert propagates the conversion failure (min before the tip check, max after it); min > max after clamping gives INVALID_PARAMS, so a result has min <= max <= tip |
| GetKernelHandler.KernelLeafIndex | src/API/Node/Handlers/GetKernelHandler.h:82-91 | leaf index = (total kernels - kernels in block, saturating at 0) + kernel index, which stays below max(total, kernels in block) |
| GetKernelHandler.FirstMatch | src/API/Node/Handlers/GetKernelHandler.h:86-90 | the first kernel of the block whose excess matches, or none exactly when no kernel matches |
| GetKernelHandler.Search | src/API/Node/Handlers/GetKernelHandler.h:72-122 | visits max down to min inclusive without underflow; the answer is the first matching kernel of the highest matching block, with mmr_index = position(leaf index) + 1; no answer exactly when no height in range matches |
| GetKernelHandler.Handle | src/API/Node/Handlers/GetKernelHandler.h:20-123 | error replies in source order, then Ok(null) exactly when nothing in [min, max] matches, else the first kernel with the excess in the highest matching block of [min, max], with mmr_index = position(leaf index) + 1 |
| JsonUtil.CommitmentRoundTrip | src/API/Node/Handlers/GetKernelHandler.h:40-47 | the excess parameter accepts the hex text of any commitment and yields that commitment |
| GetPMMRIndicesHandler.ParseRangeArgs | src/API/Node/Handlers/GetPMMRIndicesHandler.h:25-50 | absent params give start 1 and max 100; present non-array params give INVALID_PARAMS; supplied values override the defaults; max is capped at 1000 |
| GetPMMRIndicesHandler.ToEntry | src/API/Node/Handlers/GetPMMRIndicesHandler.h:56-72 | each output's mmr_index is its leaf position + 1; commitment, spent flag, proof, proof hash and block height are carried over |
| GetPMMRIndicesHandler.Handle | src/API/Node/Handlers/GetPMMRIndicesHandler.h:17-84 | an unavailable TxHashSet is an internal error before params are read; the range query gets max <= 1000; highest_index and last_retrieved_index pass through; one entry per output, in order, carrying every field of that output with mmr_index = position + 1 |
| GetUnconfirmedTransactionsHandler.SourceLabel | src/API/Node/Handlers/GetUnconfirmedTransactionsHandler.h:29-43 | FLUFFED and TO_FLUFF are "Broadcast", TO_STEM and STEMMED are "Stem", every other status is "Queued" |
| GetUnconfirmedTransactionsHandler.DivTowardZero | src/API/Node/Handlers/GetUnconfirmedTransactionsHandler.h:71-72 | `duration_cast` rounds toward zero: the remainder is smaller than the divisor in size and has the sign of the dividend |
| GetUnconfirmedTransactionsHandler.MicrosPartRange | src/API/Node/Handlers/GetUnconfirmedTransactionsHandler.h:71-72 | for times at or after the epoch, the microsecond field is the sub-second remainder in microseconds, within [0, 10^6) |
| GetUnconfirmedTransactionsHandler.FractionRoundTrip | src/API/Node/Handlers/GetUnconfirmedTransactionsHandler.h:83 | a microsecond count below 10^6 prints as exactly six digits that read back as the count |
| GetUnconfirmedTransactionsHandler.FormatTimestampFraction | src/API/Node/Handlers/GetUnconfirmedTransactionsHandler.h:69-85 | for times at or after the epoch, tx_at ends in '.', six digits giving the microseconds past the second, and 'Z' |
| GetUnconfirmedTransactionsHandler.TxAt | src/API/Node/Handlers/GetUnconfirmedTransactionsHandler.h:48-55 | tx_at is null exactly when the timestamp is the default (epoch) time point |
| GetUnconfirmedTransactionsHandler.Handle | src/API/Node/Handlers/GetUnconfirmedTransactionsHandler.h:22-62 | exactly one entry per mempool transaction, in the same order, each with its transaction, label and tx_at |
| TxPool.NewEntry | src/TxPool/TxPoolEntry.h:13-17 | the getters return the transaction, status and timestamp given to the constructor |
| TxPool.SetStatus | src/TxPool/TxPoolEntry.h:47 | SetStatus sets the status and leaves the transaction and timestamp unchanged |
| TxPool.EqualityByHash | src/TxPool/TxPoolEntry.h:34-35 | == holds exactly when the transaction hashes are equal, and != is its negation |
| TxPool.EntryTrichotomy | src/TxPool/TxPoolEntry.h:33-34 | for any two entries exactly one of a < b, a == b, b < a holds |
| TxPool.EntryLessTransitive | src/TxPool/TxPoolEntry.h:33 | < on entries is transitive |
| TxPool.SameTransactionSameEntry | src/TxPool/TxPoolEntry.h:33-35 | entries with the same transaction but different status or timestamp are equal and unordered |
| TxPool.SetStatusKeepsIdentity | src/TxPool/TxPoolEntry.h:47 | changing the status keeps an entry equal to itself and in the same place in the order |
| Hashes.HashLessTrichotomy | src/TxPool/TxPoolEntry.h:33 | the hash order used by the pool entries is trichotomous: for any two hashes exactly one of a < b, a == b, b < a holds |
| Hashes.LexLessTransitive | src/TxPool/TxPoolEntry.h:33 | the byte-wise hash order used by the pool entries is transitive, so with trichotomy it is a strict total order |

## Left out

- `LoadFromZip`, `ValidateTxHashSet` and `SaveOutputPositions` are not modelled in detail. They involve zip extraction, MMR root and size checks, commitment sums, range-proof and signature checks. The first two are function parameters that may fail; the third merges the loaded set's output positions into the state.
- `SyncStatus` progress reporting and logging are left out. They have no effect on the outcome.
- Locking (`Read`, `Write`, `BatchWrite`), the `weak_ptr` lifetime of the TxHashSet and durability are left out. The batch is a pending copy with no concurrency, and a released TxHashSet is a boolean `live` flag.
- `Chain::Rewind` and `Chain::AddBlock` are defined outside the modelled files. `ChainStore.Rewind` keeps the first `height + 1` entries and is a no-op on a shorter chain; `ChainStore.AddBlock` appends only at `height == length`.
- The hash type's `operator<` is defined outside the modelled files. It is modelled as byte-wise lexicographic order on the 32 bytes; `Hashes.HashLessTrichotomy`, `Hashes.LexLessTransitive`, `TxPool.EntryTrichotomy` and `TxPool.EntryLessTransitive` rest on that.
- `FindCommonIndex` (ChainStore) is defined outside the modelled files. It is modelled by its specification: the greatest agreeing height below both lengths, with genesis (0) taken as common.
- `UpdateConfirmedChain` requires header height < candidate length and a non-empty confirmed chain. The source dereferences the candidate's entry at the header height without a null check, and appending at common + 1 presupposes a genesis entry.
- `ProcessTxHashSet` carries the same header-height and non-empty-chain requirement, but only when loading and validation succeed, since only the chain update reads the chains. Its results are the outcome and the new state, and the source's `bool` is `result.Committed?`.
- Whether a JSON `null` `params` member arrives as absent is decided by `RPC::Request`, which is not part of this model. A present `null` is treated as the code treats it: it is not an array.
- JSON conversion is simplified. `JsonUtil::ConvertToUInt64` accepts JSON integers in [0, 2^64) and nothing else. `ConvertToCommitment` accepts 66 hexadecimal digits and nothing else. Any other value counts as the conversion exception, and only `get_kernel`'s commitment conversion catches it. The text of that exception is a fixed placeholder message.
- JSON marshalling of blocks, kernels and outputs is left out: `ToJSON`, feature `ToString`, hex output and `RangeProof::Format`. Blocks arrive as JSON, and kernels and outputs are returned as values.
- `removeMember` on a non-object output is left unchanged. jsoncpp would assert.
- Heights and indices are unbounded naturals wherever a `uint64_t` could wrap only at 2^64 − 1:
  - GetBlocksHandler.CollectBlocks: the `++height` past a tip of 2^64 − 1.
  - GetKernelHandler.Search: `GetPosition() + 1`.
  - GetPMMRIndicesHandler.ToEntry: `GetPosition() + 1`.
- `GetOutputsByLeafIndex` is a parameter, so its paging (which outputs a start index and max select) is not modelled.
- The calendar text of `FormatTimestamp` (`gmtime` plus `put_time`) is a parameter. Only the seconds/microseconds split and the padded fraction are modelled.
- Timestamps are nanoseconds since the epoch, the resolution of libstdc++'s `system_clock`. Before the epoch, `duration_cast` truncates toward zero, so the fraction can be negative. It then prints with the fill before the sign (for example `0000-1`), which the model reproduces without stating a property about it.
- `EDandelionStatus` is defined outside the modelled files. The four named values are modelled, plus `Other(code)` for any further value that reaches the switch's `default`.
- `GetUnconfirmedTransactionsHandler.Handle` reads the public fields of the pool's `TransactionPoolEntry` struct, a different type from the `TxPoolEntry` class with private members. Both hold a transaction, a Dandelion status and a timestamp, so both are modelled as the one `TxPool.TxPoolEntry` record.
- Transactions are reduced to their hash and body. The default constructor with a null transaction pointer, copy/move construction and assignment are left out.

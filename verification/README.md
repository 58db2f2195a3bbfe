# A verified model of a liquidity-staking blockchain node

The project models the stateful core of a Rust blockchain node: fork resolution and finality, the block store, the
journaled world state and transaction execution, the transaction pool and block filling, the Merkle tree, validator
selection, the LRU cache, transaction gossip, and the slashing and lending ledgers. For each component there is a
specification by functions over values; the classes and loops of the source refine it, and the promises of the
component are proved about it for every input, run or reachable state.

    dafny verify dfyconfig.toml

## Modules

| module | about |
|---|---|
| `Types`, `Sums`, `Remainders`, `Nested` | shared values, sums over maps, remainders, two-level maps |
| `Blocks`, `Forks`, `Chains`, `Finality`, `EngineRuns` | block validation, reorganisation paths, the block store, justified checkpoints, runs of the engine |
| `WorldStates`, `Execution` | the undo journal, and transactions against it |
| `Mempool`, `PoolRuns`, `BlockFilling`, `TransactionPools`, `BlockProduction` | the pool's specification, its entries over runs, greedy filling, the pool object, the produced block |
| `Merkle`, `Selection`, `LruCaches`, `Gossip` | one component each |
| `Slashing`, `Lending` | the two ledgers |

## Conventions

- Hashes and addresses are numbers; hashing is a function parameter. Injectivity, and that no block hashes to the zero
  hash, are hypotheses only of the theorems that need them.
- `Amount` is an unbounded natural number, as in the source. 64-bit arithmetic is written out where it decides a branch:
  account nonces, the gas costs and the fee of a transaction, the gas sums of a block and of block filling, the weight
  sums of validator selection, the cap of a penalty. The release profile does not enable overflow checks, so these wrap.
- Clocks, the account nonce handed to the pool, connected-peer lists, random draws and the answer of the persistence
  callback are parameters. The choices that `HashMap` iteration leaves open (which of the cheapest transactions is
  evicted, the order within a price bucket, the order of pruning) are nondeterministic, and the theorems hold for every
  choice.
- Floating-point formulas (penalty rates, interest, required collateral, health, selection weights) are arbitrary values
  given to the operation that uses them.

## Where the code falls short of its promise

The model keeps the code as it is. Each entry names the lemma at a failing input, then the exact condition; where one
lemma gives both, it is named alone.

- The ancestor search answers genesis for two heads of equal height: `Chains.EqualHeightsMissTheParent`,
  `Forks.FindsLowestIff`.
- For such heads a reorganisation reverts and applies the blocks they share and slashes their proposers, even one who
  signed nothing twice: `Finality.InnocentIsSlashed`, `Finality.SlashesAreGenuineIff`. Once a block above genesis is
  final it is refused instead: `Finality.EqualHeightsAreRefusedIff`.
- Committing an inner frame discards records an outer rollback needs: `WorldStates.InnerCommitIsLost`,
  `WorldStates.RollbackRestoresIff`.
- A transfer to oneself creates tokens: `Execution.SelfTransferCreates`, `Execution.RunConservesIff`.
- A fee is a 64-bit product, which wraps, down to zero: `Execution.WrappedFeeIsFree`, `Execution.FeeIsFullIff`,
  `Execution.RunBurnsFullPriceIff`.
- Finality by depth alone is not enforced: `Finality.DepthFinalIsReverted`, `Finality.DepthFinalIsRevertedIff`.
- A produced block leaves its state root zero and is refused once an account exists:
  `BlockProduction.ProducedBlockIsAddedIff`.
- A nonce returns after 2^64 transactions: `Execution.WrappedNonceReplays`, `Execution.ReplayIff`.
- The height index stops being the head's ancestry when a block is built on a replaced one, and `verify_chain` reports
  exactly that: `Chains.StaleParentBreaksIndex`, `Chains.AddFollowsIff`.
- The Merkle tree panics on every leaf count that is not zero or a power of two, so no block is produced from, and none
  validated with, such a number of transactions: the contracts of `Merkle.New`, `BlockProduction.ProduceBlock` and
  `BlockProduction.CheckRoot` say so for every count.
- A second queued transaction with the same sender and nonce orphans the first: `Mempool.SlotReuseOrphans`,
  `Mempool.QueueIndexedIff`, `Mempool.RemoveIndexedIff`. Its removal leaves the queued count wrong:
  `Mempool.SlotReuseMiscounts`, `Mempool.RemoveCountsIff`.
- Block filling can exceed the gas limit by wrapping 64 bits: `BlockFilling.WrappedFillOverflows`,
  `BlockFilling.AlwaysFitsIff`.
- Sums of weights wrap. The two selection loops then disagree: `Selection.WrappedLoopsDisagree`,
  `Selection.LoopsAgreeIff`. Slots are not shared out by weight: `Selection.FairWindowIff`, which fails on every such
  list. The Nakamoto count is wrong: `Selection.QuartersMislead`, `Selection.AlwaysLeastIff`.
- A loan id, derived from borrower and time, can replace an active loan: `Lending.ReusedIdUnbalances`,
  `Lending.RunsBalanceIff`.
- A cache of capacity 0 acts as one of capacity 1: `LruCaches.RunAgrees`, for every capacity.

## Model

| member | source | states |
|---|---|---|
| `Forks.FindCommonAncestor` | crates/blockchain-core/src/fork.rs:107-149 | Over two well-formed maps that agree where they overlap, the lockstep walk terminates and returns exactly `SearchOutcome` of their union: nothing for an unknown head; genesis for heads of one height up to 10000; otherwise the lowest common ancestor, if the higher head is at most 10000 and at most the lower height plus one above it |
| `Forks.Search` | crates/blockchain-core/src/fork.rs:114-148 | The loop with its cursors and visited sets computes that outcome |
| `Forks.JoinedRound` | crates/blockchain-core/src/fork.rs:120-147 | One round over two maps is one round over their union |
| `Forks.LowestIsCommon` | crates/blockchain-core/src/fork.rs:106-113 | The lowest common ancestor that the search is compared with is an ancestor of both heads |
| `Forks.LowestIsLowest` | crates/blockchain-core/src/fork.rs:106-113 | Every common ancestor of two heads is an ancestor of the lowest one |
| `Forks.WalksMeet` | crates/blockchain-core/src/fork.rs:120-127 | Two walks up the tree stand on the same block exactly when they are at the same height, no higher than the lowest common ancestor |
| `Forks.SearchRound` | crates/blockchain-core/src/fork.rs:120-147 | What each test of one round decides about the final answer, for both visited sets and the 10000 limit |
| `Forks.OutcomeIsCommon` | crates/blockchain-core/src/fork.rs:107-149 | Any hash the search returns is an ancestor-or-self of both heads |
| `Forks.FindsLowestIff` | crates/blockchain-core/src/fork.rs:107-149 | The exact condition, in heights alone, under which the search answers with the lowest common ancestor |
| `Forks.CyclesNeverEnd` | crates/blockchain-core/src/fork.rs:120-148 | Over maps that are not well formed the loop need not end: with two blocks that are their own parents no round is the last |
| `Forks.UpInTree` | crates/blockchain-core/src/fork.rs:166-170 | Following k parent links from a stored block stays in the tree, lowers the height by k, and ends at genesis |
| `Forks.ChainSplits` | crates/blockchain-core/src/fork.rs:163-188 | The chain of a block is the chain of any ancestor followed by the reversed walk down to it |
| `Forks.CollectRevert` | crates/blockchain-core/src/fork.rs:163-177 | The revert loop collects the walk down to the ancestor, or fails with depth max + 1 when it is longer than allowed |
| `Forks.CollectApply` | crates/blockchain-core/src/fork.rs:179-187 | The apply loop collects the walk down from the new head; no block on it is missing |
| `Forks.CalculateReorgPath` | crates/blockchain-core/src/fork.rs:152-196 | Both path loops terminate, never meet a missing block, and return exactly `PathOutcome`, including `ReorgTooDeep` with depth max + 1 |
| `Forks.PathFoundIff` | crates/blockchain-core/src/fork.rs:145-177 | In heights alone, with the limit of 10000: when a path is found, and which of the two errors is given otherwise |
| `Forks.PathSplices` | crates/blockchain-core/src/fork.rs:163-195 | chain(old head) = chain(ancestor) ++ reverse(revert), chain(new head) = chain(ancestor) ++ apply, and depth = length of revert, at most the maximum |
| `Finality.ResolvedNumbers` | crates/consensus/src/poas.rs:363-369 | Along a path found by the resolver, block numbers count down to and up from the ancestor's number by one |
| `Finality.InferenceIsExact` | crates/consensus/src/poas.rs:363-369 | The ancestor number inferred from the path is the true number of the common ancestor |
| `Finality.CheckpointNeverFalls` | crates/consensus/src/poas.rs:277-285 | Over every run of checkpoints and reorganisations the highest justified number never falls or disappears |
| `Finality.FinalityIsPermanent` | crates/consensus/src/poas.rs:267-274 | Once a checkpoint exists, a final number stays final after any later events and at any head |
| `Finality.FirstCheckpointDecides` | crates/consensus/src/poas.rs:267-285 | Finality by depth alone survives the first checkpoint exactly up to that checkpoint's number |
| `Finality.EqualHeightsAreRefusedIff` | crates/consensus/src/poas.rs:363-378 | A path between heads of equal height above genesis is refused exactly when a checkpoint above genesis exists, however recent the fork |
| `Finality.FinalNeverReverted` | crates/consensus/src/poas.rs:371-378 | No path accepted later in a run reverts a block whose number was final earlier |
| `Finality.DepthFinalIsRevertedIff` | crates/consensus/src/poas.rs:267-274 | Without a checkpoint every path that changes anything is accepted, and it reverts a number final by depth exactly when that lies above the common ancestor |
| `Finality.DepthFinalIsReverted` | crates/consensus/src/poas.rs:267-274 | Counterexample, for every depth of finality within the search limits: a reachable fork is accepted that reverts block one, final by depth |
| `Finality.ReachableReorgIsSafe` | crates/consensus/src/poas.rs:361-378 | Over any run of block additions from genesis and any run of consensus events, an accepted path between two stored heads splices their chains and reverts nothing final |
| `Finality.OffencesRise` | crates/consensus/src/poas.rs:380-396 | Over rising heights the nested scan yields exactly the applied blocks signed twice, once each and in order |
| `Finality.OneSlashPerHeight` | crates/consensus/src/poas.rs:380-396 | On every path the resolver returns, the scan slashes exactly once for each applied block that shares height and proposer with a reverted one, be it the same block or another |
| `Finality.OnePenaltyPerOffence` | crates/consensus/src/poas.rs:385-392 | The slashes add to the ledger exactly one penalty per offence of each registered proposer, and none for anybody else |
| `Finality.OffenceIsPunished` | crates/consensus/src/poas.rs:380-396 | So each offence of an accepted path costs its registered proposer a penalty |
| `Finality.RunsKeepKeyed` | crates/consensus/src/validator.rs:231-233 | In every run of a new engine each validator is stored under its own address |
| `Finality.CanonicalIffChosen` | crates/consensus/src/poas.rs:440-449 | After an accepted path a tip that was not among the losers is canonical exactly when its side was the longer |
| `Finality.LowestIsShared` | crates/consensus/src/poas.rs:381-383 | A path that starts below the lowest common ancestor has that block on both sides |
| `Finality.SharedBlockIsSlashed` | crates/consensus/src/poas.rs:381-392 | Then its proposer is slashed for it, though the two sides hold one and the same block |
| `Finality.SidesAreDisjoint` | crates/consensus/src/poas.rs:381-383 | A path that starts at the lowest common ancestor has no block on both sides |
| `Finality.GenuineIff` | crates/consensus/src/poas.rs:380-396 | Over a consistent store, every match of the scan is between two different blocks exactly when the path starts at the lowest common ancestor |
| `Finality.SlashesAreGenuineIff` | crates/consensus/src/poas.rs:380-396 | After every run of additions that is so exactly when the heads differ in height or have no common ancestor above genesis |
| `Finality.InnocentIsSlashed` | crates/consensus/src/poas.rs:380-396 | Counterexample, for every sound hashing and genesis: with one block and two siblings of other proposers above it stored, that one block is reverted, applied and slashed for, though its proposer signed no two stored blocks of one height |
| `Finality.PoASConsensus.constructor` | crates/consensus/src/poas.rs:97-121 | A new engine has no checkpoint, no fork history and an empty slashing ledger |
| `Finality.PoASConsensus.RegisterValidator` | crates/consensus/src/poas.rs:452-475 | Refuses beyond the maximum count, a known address or too small a stake, in this order, and otherwise adds the validator |
| `Finality.PoASConsensus.VerifyChainCanonical` | crates/consensus/src/poas.rs:440-449 | False exactly when a remembered fork ended in the head without being longer than what it replaced |
| `Finality.PoASConsensus.CreditProposer` | crates/consensus/src/poas.rs:339-343 | A registered proposer's count of produced blocks rises by two, once directly and once with the uptime update |
| `Finality.PoASConsensus.UpdateJustifiedCheckpoint` | crates/consensus/src/poas.rs:277-285 | The checkpoint becomes the maximum of the old one and the given number, the number is marked and logged with its time; nothing else changes |
| `Finality.PoASConsensus.SlashDoubleSigner` | crates/consensus/src/poas.rs:386-392 | One registered proposer is slashed through the slashing manager; an unregistered one changes nothing |
| `Finality.PoASConsensus.SlashDoubleSigners` | crates/consensus/src/poas.rs:381-396 | The nested loops perform exactly the slashes for the list of offences, in order |
| `Finality.PoASConsensus.RecordFork` | crates/consensus/src/poas.rs:410-418 | The fork joins a history of at most 100 and the event log, and the metrics are updated |
| `Finality.PoASConsensus.ApplyReorg` | crates/consensus/src/poas.rs:361-436 | Refuses an empty path or one past the checkpoint and then changes nothing; otherwise slashes and records as specified, gives the callback the fork, its depth and the chain chosen, and passes its failure on |
| `EngineRuns.HistoryIsLastHundred` | crates/blockchain-core/src/fork.rs:199-205 | In every run of a new engine the fork history is the last 100 accepted forks, in order |
| `EngineRuns.CanonicalIff` | crates/consensus/src/poas.rs:440-449 | In every run a head is canonical if and only if it lost none of the last 100 accepted forks |
| `EngineRuns.LoserStaysOut` | crates/consensus/src/poas.rs:440-449 | A head that lost an accepted reorganisation is not canonical again until 100 later ones are accepted |
| `EngineRuns.RecordIsTrue` | crates/consensus/src/poas.rs:398-408 | The record of a resolved path over a consistent store names the ancestor and its number, both heads, and how far each is above it |
| `EngineRuns.MetricsAreExact` | crates/consensus/src/poas.rs:411-418 | In every run the metrics count the accepted paths, list their ancestors, add up their depths and keep the greatest |
| `EngineRuns.CheckpointsAreExact` | crates/consensus/src/poas.rs:277-285 | In every run the engine knows exactly the announced checkpoints with their times, and the greatest is in force |
| `EngineRuns.FinalIff` | crates/consensus/src/poas.rs:267-274 | In every run a number is final exactly up to the greatest announced checkpoint, or by depth before the first |
| `EngineRuns.RefusedIff` | crates/consensus/src/poas.rs:363-378 | A resolved path is refused if and only if it changes nothing or starts below the checkpoint in force |
| `EngineRuns.RegisterIff` | crates/consensus/src/poas.rs:452-475 | When a registration is accepted and what it stores; nobody else changes |
| `EngineRuns.BlocksCountTwice` | crates/consensus/src/poas.rs:339-343 | In every run each produced block counts twice for its registered proposer |
| `EngineRuns.EvidenceIsTheHeader` | crates/consensus/src/poas.rs:386-392 | A slash records the offending header's hash, the condition and the proposer, and takes the amount off the stake |
| `EngineRuns.AnswerIff` | crates/consensus/src/poas.rs:424-435 | A reorganisation succeeds exactly when it is not refused and the callback does not fail |
| `EngineRuns.RunPunishes` | crates/consensus/src/poas.rs:380-396 | In every run the ledger holds against each address exactly one penalty per offence on an accepted path while registered, and none with slashing off |
| `EngineRuns.RunsBalanceStakes` | crates/consensus/src/poas.rs:380-396 | In every run of the engine the slashing ledger balances: the stakes brought in are the stakes left and what was slashed |
| `WorldStates.RollbackUndoesWrite` | crates/blockchain-core/src/state.rs:239-281 | A write, recorded or not, does not change what a rollback leads to |
| `WorldStates.RollbackUndoesRun` | crates/blockchain-core/src/state.rs:224-281 | Nor does any program of writes and nested frames that are rolled back, at any depth |
| `WorldStates.RollbackRestores` | crates/blockchain-core/src/state.rs:224-253 | Checkpoint, any such program, rollback: accounts (absent keys included) and journal are exactly as before |
| `WorldStates.OuterOfRun` | crates/blockchain-core/src/state.rs:224-281 | Every program, with committed frames too, leaves the journal below its frame untouched |
| `WorldStates.CommitKeeps` | crates/blockchain-core/src/state.rs:229-236 | Committing a frame keeps its accounts and restores the journal prefix, whatever frames it contained |
| `WorldStates.RollbackExact` | crates/blockchain-core/src/state.rs:239-253 | For every journal, a rollback gives each account the value of its earliest record in the frame, or leaves it |
| `WorldStates.OriginalOfRun` | crates/blockchain-core/src/state.rs:260-280 | That value is the one the account had just before the frame first wrote it directly |
| `WorldStates.RollbackLookup` | crates/blockchain-core/src/state.rs:239-253 | So a rollback gives each account, absent or not, that value |
| `WorldStates.RollbackRestoresIff` | crates/blockchain-core/src/state.rs:229-253 | With committed inner frames, rollback restores the start exactly when each account, at its first direct write in the frame or at the end, still has the value from the checkpoint |
| `WorldStates.InnerCommitIsLost` | crates/blockchain-core/src/state.rs:229-236 | Counterexample: a committed inner frame's write survives the rollback of the frame around it |
| `WorldStates.WorldState.constructor` | crates/blockchain-core/src/state.rs:133-138 | A new state has no accounts and an empty journal |
| `WorldStates.WorldState.RecordAccountModification` | crates/blockchain-core/src/state.rs:260-280 | The backward scan appends the account's current value unless the frame already holds a record for it |
| `WorldStates.WorldState.SetAccount` | crates/blockchain-core/src/state.rs:154-159 | The write and its record; rollback target and outer journal are unchanged |
| `WorldStates.WorldState.TakeCheckpoint` | crates/blockchain-core/src/state.rs:224-226 | Opens a frame |
| `WorldStates.WorldState.CommitFrame` | crates/blockchain-core/src/state.rs:229-236 | Pops exactly the current frame |
| `WorldStates.WorldState.RollbackFrame` | crates/blockchain-core/src/state.rs:239-253 | Pops the current frame, restoring each recorded account |
| `Execution.SuccessIff` | crates/blockchain-core/src/chain.rs:258-352 | A transaction succeeds exactly under stated conditions on its signature, gas, nonce and amount and on its sender's balance, stake and deployed liquidity, type by type |
| `Execution.FailureIff` | crates/blockchain-core/src/chain.rs:262-276 | Which failures are invalid transactions, which nonce mismatches, and which want of stake or liquidity |
| `Execution.SenderAfter` | crates/blockchain-core/src/chain.rs:301-334 | What a success does to each field of its sender's account, type by type: amount between balance and stake, liquidity, fee, nonce, nothing else |
| `Execution.OthersAfter` | crates/blockchain-core/src/state.rs:174-201 | The receiver of a transfer gains exactly the amount and changes in nothing else; every other account, absent ones included, is untouched |
| `Execution.SelfTransferAfter` | crates/blockchain-core/src/state.rs:181-198 | A transfer to oneself leaves its credit and the fee |
| `Execution.RecipientIff` | crates/blockchain-core/src/chain.rs:336-350 | The receipt names the receiver of a transfer or the contract called, and 21000 gas |
| `Execution.ApplyLedger` | crates/blockchain-core/src/chain.rs:304-334 | One success changes balance, stake and deployed liquidity of every address by the stated amounts |
| `Execution.RunLedger` | crates/blockchain-core/src/chain.rs:258-352 | Over every run each account ends with exactly what its executed transactions and the transfers to it come to |
| `Execution.MovedSupply` | crates/blockchain-core/src/state.rs:174-201 | A transfer conserves tokens between different accounts and creates the amount when sender and receiver are the same |
| `Execution.EffectSupply` | crates/blockchain-core/src/chain.rs:304-329 | Each transaction type conserves balance + staked over all accounts, self-transfers excepted |
| `Execution.ApplySupply` | crates/blockchain-core/src/chain.rs:258-352 | A success lowers the supply by exactly the fee and raises it by what a self-transfer sends |
| `Execution.FeeIsFullIff` | crates/blockchain-core/src/chain.rs:331-334 | The fee is 21000 × gas price if and only if that product is below 2^64 |
| `Execution.WrappedFeeIsFree` | crates/blockchain-core/src/chain.rs:271-276 | Counterexample: at gas price 2^61 and gas limit 8 a call from an account that does not exist succeeds with fee 0 |
| `Execution.ApplyNonces` | crates/blockchain-core/src/chain.rs:258-302 | A success requires the sender's nonce, advances it by one 64-bit increment, and changes no other nonce |
| `Execution.RunConserves` | crates/blockchain-core/src/chain.rs:258-352 | Over every run of attempts: supply after + fees = supply before + self-transferred amounts |
| `Execution.RunConservesIff` | crates/blockchain-core/src/chain.rs:258-352 | Tokens are conserved up to fees exactly when no executed transfer is to its own sender |
| `Execution.RunBurnsFullPriceIff` | crates/blockchain-core/src/chain.rs:258-352 | A run burns exactly 21000 × gas price for everything it executes if and only if none of these products wraps |
| `Execution.SelfTransferCreates` | crates/blockchain-core/src/state.rs:181-198 | Counterexample: an account with 100000 tokens sends itself 10; the transaction succeeds and the supply grows by 10 beside the fee |
| `Execution.ExecutedAreValid` | crates/blockchain-core/src/chain.rs:262-263 | Whatever a run executes passed the basic checks |
| `Execution.ConsecutiveNonces` | crates/blockchain-core/src/chain.rs:265-302 | Each sender's executed transactions carry the successive 64-bit increments of its account's nonce, which ends just past them |
| `Execution.NonceAfterIsSum` | crates/blockchain-core/src/state.rs:60-62 | That is nonce + k modulo 2^64 after k increments |
| `Execution.ReplayIff` | crates/blockchain-core/src/chain.rs:265-302 | Two executed transactions of one sender carry one nonce exactly when a positive multiple of 2^64 of its transactions separates them |
| `Execution.NoReplay` | crates/blockchain-core/src/chain.rs:265-302 | So none fewer than 2^64 transactions apart share sender and nonce |
| `Execution.WrappedNonceReplays` | crates/blockchain-core/src/state.rs:60-62 | Counterexample: a sender rich enough for 2^64 + 1 transactions executes nonce 0 twice |
| `Blocks.ValidateIff` | crates/blockchain-core/src/block.rs:139-169 | A block passes validation if and only if number, parent, time, gas limit, transactions, root and 64-bit gas sum are all in order |
| `Blocks.ValidateReports` | crates/blockchain-core/src/block.rs:37-68 | A refusal names a check that fails, the earlier ones having passed |
| `Chains.AcceptedIff` | crates/blockchain-core/src/chain.rs:128-142 | A block is accepted if and only if its parent is stored, all of validation holds and the state root is the current one |
| `Chains.NewIsConsistent` | crates/blockchain-core/src/chain.rs:31-55 | A store holding genesis alone is consistent and its index follows the head |
| `Chains.AddKeepsConsistent` | crates/blockchain-core/src/chain.rs:128-164 | Every attempted addition keeps the tree well formed, every block valid against its parent, and the index sound |
| `Chains.RunsAreConsistent` | crates/blockchain-core/src/chain.rs:128-164 | So does every run of additions |
| `Chains.StoredChain` | crates/blockchain-core/src/chain.rs:128-164 | A stored block closes a chain from genesis with number + 1 blocks, each valid against the one before |
| `Chains.ReachableChains` | crates/blockchain-core/src/chain.rs:31-164 | After every run from genesis each stored block has such a chain, with strictly increasing timestamps, and every block above genesis has valid transactions, a checked root and its exact gas within its limit |
| `Chains.IndexIsFull` | crates/blockchain-core/src/chain.rs:155-161 | Every height up to the head's has an index entry of that height |
| `Chains.AddFollowsIff` | crates/blockchain-core/src/chain.rs:155-161 | After an addition the index is the head's ancestry exactly when it was the parent's before |
| `Chains.IndexedAncestorFollows` | crates/blockchain-core/src/chain.rs:155-161 | An index that follows the head follows every block it lists up to the head |
| `Chains.ExtendingRunsFollow` | crates/blockchain-core/src/chain.rs:128-164 | If each accepted block extends the head, or any block on the index, the index stays the head's ancestry |
| `Chains.StaleParentBreaksIndex` | crates/blockchain-core/src/chain.rs:128-164 | Counterexample, for every hashing and genesis: building on a replaced block leaves an index that is not the head's ancestry |
| `Chains.SiblingsAreStored` | crates/blockchain-core/src/chain.rs:128-164 | From any genesis one block and two siblings above it can be added |
| `Chains.EqualHeads` | crates/blockchain-core/src/chain.rs:128-164 | From any genesis two different heads of any one height can be reached |
| `Chains.EqualHeightsMissTheParent` | crates/blockchain-core/src/fork.rs:122-143 | Counterexample, for every sound hashing and genesis: for those siblings the walks are never on each other's trail, and the answer is genesis instead of their parent |
| `Chains.VerifyStep` | crates/blockchain-core/src/chain.rs:360-367 | Along an index followed so far, the next indexed block validates exactly when the index follows it too |
| `Chains.Blockchain.FromGenesis` | crates/blockchain-core/src/chain.rs:38-54 | The object built from a genesis block holds its store, an empty state and no receipts |
| `Chains.Blockchain.New` | crates/blockchain-core/src/chain.rs:31-55 | Succeeds exactly on a genesis block, with the genesis store, an empty state and no receipts |
| `Chains.Blockchain.AddBlock` | crates/blockchain-core/src/chain.rs:128-164 | Refusal and new store are exactly `Refusal` and `Add`; state and receipts are untouched |
| `Chains.Blockchain.VerifyChain` | crates/blockchain-core/src/chain.rs:355-370 | Succeeds if and only if the index is the head's ancestry; the missing-block branch is dead |
| `Chains.Blockchain.ExecuteTransaction` | crates/blockchain-core/src/chain.rs:258-293 | Atomic: a success leaves exactly the accounts of the journal-free semantics, the old journal and one receipt; a failure leaves accounts, journal and receipts unchanged |
| `Chains.Blockchain.ExecuteTransactionType` | crates/blockchain-core/src/chain.rs:295-352 | The journaled body refines the journal-free one and can always be rolled back |
| `Chains.Blockchain.ChangeAccounts` | crates/blockchain-core/src/chain.rs:295-334 | Nonce, effect and fee in order, with the rollback target kept even when a step fails half way |
| `Chains.Blockchain.ApplyType` | crates/blockchain-core/src/chain.rs:304-329 | The effect of each type, including the account write of a failing one |
| `Chains.Blockchain.ChargeFee` | crates/blockchain-core/src/chain.rs:331-334 | The fee leaves the sender's balance or the step fails |
| `BlockFilling.FillSelects` | crates/blockchain-core/src/mempool.rs:169-190 | The greedy pass takes at most the allowed number, each from the listing and no more often than listed |
| `BlockFilling.FillPricesFall` | crates/blockchain-core/src/mempool.rs:173-186 | The selection is in non-increasing gas price |
| `BlockFilling.FillGasWraps` | crates/blockchain-core/src/mempool.rs:171-184 | Wrapping or not, the 64-bit gas sum of the selection is within the limit |
| `BlockFilling.FillFits` | crates/blockchain-core/src/mempool.rs:171-184 | With gas limits of at most G, where G + limit or count × G stays below 2^64, the exact gas sum is within the limit |
| `BlockFilling.FillIsMaximal` | crates/blockchain-core/src/mempool.rs:175-186 | A selection whose exact gas is within the limit, below the count, leaves out nothing that still fits |
| `BlockFilling.WrappedFillOverflows` | crates/blockchain-core/src/mempool.rs:175-184 | Counterexample from the empty pool by two additions: gas limits that add up to 2^64 or more, the dearer within the block limit (10000000 and 2^64 - 1 under 10000000), are both taken |
| `BlockFilling.SelectionIsListed` | crates/blockchain-core/src/mempool.rs:169-190 | Over the pool: pending transactions only, unrepeated, by falling price, within the count |
| `BlockFilling.SelectionIsMaximal` | crates/blockchain-core/src/mempool.rs:169-190 | Over the pool: a selection within the gas limit and below the count omits no pending transaction that fits |
| `BlockFilling.SelectionFits` | crates/blockchain-core/src/mempool.rs:169-190 | Over the pool: a bound on the pending gas limits that keeps every selection within the gas limit |
| `BlockFilling.WrapTakesAll` | crates/blockchain-core/src/mempool.rs:171-184 | Transactions that add up to exactly 2^64 are all taken when the last alone carries the sum over |
| `BlockFilling.AlwaysFitsIff` | crates/blockchain-core/src/mempool.rs:169-190 | The exact bound: selections from all valid pools with gas limits of at most G stay within the limit if and only if G + limit < 2^64 or count × G < 2^64 |
| `BlockProduction.RootIsUnique` | crates/blockchain-core/src/block.rs:92-99 | Transactions have at most one root |
| `BlockProduction.RootBindsTransactions` | crates/blockchain-core/src/block.rs:92-99 | With sound hashing a root commits a block to its transactions and their order |
| `BlockProduction.TransactionsRoot` | crates/blockchain-core/src/block.rs:92-99 | There is a root exactly for no transactions or a power of two of them; otherwise the tree panics |
| `BlockProduction.CheckRoot` | crates/blockchain-core/src/block.rs:148-158 | The validation check compares with that root, and panics on exactly the same counts |
| `BlockProduction.NewBlock` | crates/blockchain-core/src/block.rs:84-126 | A block is built exactly when there is a root; header fields, root and 64-bit gas sum are as specified |
| `BlockProduction.SumGas` | crates/blockchain-core/src/block.rs:101-104 | The 64-bit sum of the gas limits |
| `BlockProduction.SelectionIsUsable` | crates/consensus/src/poas.rs:318-328 | Everything selected from a valid pool passes the basic checks, so the producer's filter drops nothing |
| `BlockProduction.KeepUsable` | crates/consensus/src/poas.rs:322-328 | The filter keeps exactly the transactions that pass, as often as listed |
| `BlockProduction.BuiltPasses` | crates/blockchain-core/src/block.rs:139-169 | A built block with usable transactions within the parent's gas limit passes every check but the timestamp's |
| `BlockProduction.ProducedBlockPasses` | crates/consensus/src/poas.rs:314-334 | A block built from the selection passes validation, root included, exactly when the clock has moved on since its parent |
| `BlockProduction.ProducedBlockIsAddedIff` | crates/blockchain-core/src/chain.rs:128-142 | A store that holds its parent accepts a produced block, whose state root is zero, exactly when the clock has moved on and no account exists |
| `BlockProduction.IncludedAreGone` | crates/blockchain-core/src/mempool.rs:215-222 | Removing what a block includes takes exactly those hashes out of the pool and keeps it valid |
| `BlockProduction.ProduceBlock` | crates/consensus/src/poas.rs:314-346 | A block is produced exactly when the parent lost no remembered fork and the selection is empty or a power of two long; then the pool loses exactly its transactions and the proposer is credited, otherwise nothing changes |
| `Mempool.EmptyIsValid` | crates/blockchain-core/src/mempool.rs:82-91 | The empty pool satisfies both invariants |
| `Mempool.RemoveKeepsValid` | crates/blockchain-core/src/mempool.rs:193-212 | Removal keeps the pool invariant: live disjoint indexes, no empty price bucket, exact sender counts within the limit, size within the limit, exact pending count, added - removed = live |
| `Mempool.InsertKeepsValid` | crates/blockchain-core/src/mempool.rs:127-163 | So does an insertion into either index |
| `Mempool.AddKeepsValid` | crates/blockchain-core/src/mempool.rs:94-166 | So does every attempted addition, with any eviction and any refusal |
| `Mempool.PromoteKeepsValid` | crates/blockchain-core/src/mempool.rs:225-254 | So does promoting a queue entry |
| `Mempool.StepKeepsValid` | crates/blockchain-core/src/mempool.rs:94-321 | So does each public operation |
| `Mempool.RunsKeepValid` | crates/blockchain-core/src/mempool.rs:94-321 | So does every run of them |
| `Mempool.RemoveIndexedIff` | crates/blockchain-core/src/mempool.rs:193-212 | A removal leaves some live transaction without an index exactly when it removes a pending one whose (sender, nonce) slot is also queued |
| `Mempool.QueueIndexedIff` | crates/blockchain-core/src/mempool.rs:150-155 | A queue insertion does so exactly when the slot is occupied |
| `Mempool.PendingStaysIndexed` | crates/blockchain-core/src/mempool.rs:142-149 | A pending insertion never does |
| `Mempool.SlotReuseOrphans` | crates/blockchain-core/src/mempool.rs:150-155 | Counterexample: queueing two transactions of one sender and nonce leaves the first live and in no index |
| `Mempool.RemoveCountsIff` | crates/blockchain-core/src/mempool.rs:193-212 | A removal keeps pending count + queued count = live transactions exactly when the transaction is pending and its slot is not queued, or not pending and its slot is |
| `Mempool.InsertAndPromoteKeepCounts` | crates/blockchain-core/src/mempool.rs:142-254 | Insertions and promotions always keep that equation |
| `Mempool.SlotReuseMiscounts` | crates/blockchain-core/src/mempool.rs:193-212 | Counterexample: queueing two transactions in one slot and removing both leaves an empty pool with a queued count of one |
| `Mempool.RemoveKeepsExact` | crates/blockchain-core/src/mempool.rs:193-212 | Where no slot is shared, removal keeps every live transaction in exactly one index and the queue count exact |
| `Mempool.InsertKeepsExact` | crates/blockchain-core/src/mempool.rs:142-163 | So does inserting into a free slot |
| `Mempool.PromoteKeepsExact` | crates/blockchain-core/src/mempool.rs:225-254 | So does promotion |
| `Mempool.AddKeepsExact` | crates/blockchain-core/src/mempool.rs:94-166 | So does an addition that takes a free slot |
| `Mempool.StepKeepsExact` | crates/blockchain-core/src/mempool.rs:94-321 | So does each operation |
| `Mempool.RunsKeepExact` | crates/blockchain-core/src/mempool.rs:94-321 | In every run whose additions take free slots: indexes disjoint and covering, pending count + queued count = live transactions |
| `PoolRuns.AcceptedIff` | crates/blockchain-core/src/mempool.rs:94-131 | An addition is accepted if and only if the transaction is valid and new, there is room or something to evict, its sender has fewer than the maximum live after the eviction, and price and nonce suffice |
| `PoolRuns.RefusalIs` | crates/blockchain-core/src/mempool.rs:94-131 | A refusal names a check that fails |
| `PoolRuns.LiveAfterAdd` | crates/blockchain-core/src/mempool.rs:94-166 | What is live after an attempt: the new transaction if accepted, and not the victim once the size check is passed |
| `PoolRuns.AddedEntry` | crates/blockchain-core/src/mempool.rs:127-157 | An accepted addition stores its transaction with the current time, in its price bucket or its queue slot by nonce |
| `PoolRuns.PromotedEntry` | crates/blockchain-core/src/mempool.rs:237-247 | A promotion moves the entry with its time to the bucket of its price |
| `PoolRuns.RunEntries` | crates/blockchain-core/src/mempool.rs:94-321 | In every run each entry of either index carries the time at which the run added its transaction |
| `PoolRuns.StaleIff` | crates/blockchain-core/src/mempool.rs:257-278 | A transaction added at a time is stale exactly from more than the maximum age later |
| `PoolRuns.StaleIsOld` | crates/blockchain-core/src/mempool.rs:257-278 | In every run whatever is stale was added by the run more than the maximum age ago |
| `PoolRuns.EvictsCheapest` | crates/blockchain-core/src/mempool.rs:347-357 | An eviction takes a transaction no dearer than any other pending one |
| `PoolRuns.PromotesInOrder` | crates/blockchain-core/src/mempool.rs:225-254 | Promotion takes exactly one entry of each sender, before any later nonce of the same sender |
| `TransactionPools.TransactionPool.constructor` | crates/blockchain-core/src/mempool.rs:82-91 | A new pool is empty and valid |
| `TransactionPools.TransactionPool.Add` | crates/blockchain-core/src/mempool.rs:94-166 | Answer and new pool are those of the specification, for some lowest-priced victim |
| `TransactionPools.TransactionPool.Admit` | crates/blockchain-core/src/mempool.rs:112-163 | The checks after the size check in order, and the insertion they guard |
| `TransactionPools.TransactionPool.StorePending` | crates/blockchain-core/src/mempool.rs:142-149 | Insertion into the bucket of the price |
| `TransactionPools.TransactionPool.StoreQueued` | crates/blockchain-core/src/mempool.rs:150-157 | Insertion into the queue slot of sender and nonce |
| `TransactionPools.TransactionPool.Track` | crates/blockchain-core/src/mempool.rs:159-163 | Hash map, sender count and totals of a new transaction |
| `TransactionPools.TransactionPool.Remove` | crates/blockchain-core/src/mempool.rs:193-212 | Returns the transaction; the new pool drops it from all four collections and counts |
| `TransactionPools.TransactionPool.UncountSender` | crates/blockchain-core/src/mempool.rs:196-202 | One fewer for the sender, no zero entries |
| `TransactionPools.TransactionPool.RemoveFromPending` | crates/blockchain-core/src/mempool.rs:325-334 | Drops the entry and an emptied bucket, counting only a real removal |
| `TransactionPools.TransactionPool.RemoveFromQueued` | crates/blockchain-core/src/mempool.rs:336-345 | Drops whatever holds the slot, counting only a real removal |
| `TransactionPools.TransactionPool.LowestPriced` | crates/blockchain-core/src/mempool.rs:347-357 | A hash from the cheapest bucket |
| `TransactionPools.TransactionPool.RemoveIncluded` | crates/blockchain-core/src/mempool.rs:215-222 | Removes every listed transaction, then promotes exactly each sender's next queued entry |
| `TransactionPools.TransactionPool.PromoteQueued` | crates/blockchain-core/src/mempool.rs:225-254 | Promotes exactly the lowest-nonce entry of every sender's queue |
| `TransactionPools.TransactionPool.PromoteOne` | crates/blockchain-core/src/mempool.rs:237-253 | Moves one entry from the queue to its price bucket |
| `TransactionPools.TransactionPool.Prune` | crates/blockchain-core/src/mempool.rs:257-284 | Removes exactly the transactions older than the limit in either index |
| `TransactionPools.TransactionPool.RemoveEach` | crates/blockchain-core/src/mempool.rs:280-283 | Removes every hash of a set, in some order |
| `TransactionPools.TransactionPool.Clear` | crates/blockchain-core/src/mempool.rs:315-321 | Empties the pool and its counts |
| `TransactionPools.TransactionPool.ListPending` | crates/blockchain-core/src/mempool.rs:173-175 | The bucket iteration lists each pending transaction once, dearest first |
| `TransactionPools.TransactionPool.GetPending` | crates/blockchain-core/src/mempool.rs:169-190 | The greedy pass over such a listing: pending transactions only, unrepeated, by falling price, within the count |
| `TransactionPools.TransactionPool.FillBlock` | crates/blockchain-core/src/mempool.rs:171-189 | The loop with its running 64-bit sum computes exactly the recursive greedy pass |
| `Merkle.BuildLevel` | crates/blockchain-crypto/src/merkle.rs:117-139 | One level hashes its pairs of children, leaves the levels below alone, and fails exactly when a left child lies outside the array |
| `Merkle.BuildTree` | crates/blockchain-crypto/src/merkle.rs:117-139 | Over a perfect layout it completes a heap; over a shifted one it indexes outside the array |
| `Merkle.NextPow2OfPow2` | crates/blockchain-crypto/src/merkle.rs:94-103 | The rounded-up count equals the leaf count exactly for powers of two |
| `Merkle.New` | crates/blockchain-crypto/src/merkle.rs:17-36 | Succeeds with a complete heap over the leaf hashes if and only if the leaf count is a power of two; empty is an error, any other count panics |
| `Merkle.NodeIsUnique` | crates/blockchain-crypto/src/merkle.rs:117-139 | The leaves determine every node of the tree |
| `Merkle.HeapWalk` | crates/blockchain-crypto/src/merkle.rs:105-115 | The parent and sibling index arithmetic is the walk over levels and positions |
| `Merkle.WalkUp` | crates/blockchain-crypto/src/merkle.rs:54-61 | The proof loop collects the sibling of each node up to the root |
| `Merkle.GenerateProof` | crates/blockchain-crypto/src/merkle.rs:49-68 | The proof of a leaf carries its index, its hash and its siblings; an index past the leaves is an error |
| `Merkle.VerifyProof` | crates/blockchain-crypto/src/merkle.rs:71-90 | Accepts exactly when the data hashes to the leaf hash and climbing by index parity reaches the root |
| `Merkle.CombineGivesParent` | crates/blockchain-crypto/src/merkle.rs:71-90 | In a heap, combining a node with the one beside it in parity order gives their parent |
| `Merkle.ClimbReachesRoot` | crates/blockchain-crypto/src/merkle.rs:49-90 | Climbing from any node with its siblings reaches the root |
| `Merkle.GeneratedProofVerifies` | crates/blockchain-crypto/src/merkle.rs:49-90 | The generated proof of every leaf of every tree verifies with that leaf's data |
| `Merkle.ClimbIsPinned` | crates/blockchain-crypto/src/merkle.rs:71-90 | With injective hashing, whatever climbs to the root in d steps is the node at that position with its own siblings |
| `Merkle.AcceptedProofIsGenerated` | crates/blockchain-crypto/src/merkle.rs:71-90 | An accepted proof with one hash per level carries the data of the leaf at its index (modulo the leaf count) and is the generated proof |
| `Merkle.NodesAgree` | crates/blockchain-crypto/src/merkle.rs:117-139 | Two heaps of one size with equal roots agree at every node |
| `Merkle.RootBindsLeaves` | crates/blockchain-crypto/src/merkle.rs:17-36 | Two lists of equally many leaves with equal roots are equal |
| `LruCaches.HitTakes` | crates/storage/src/cache.rs:102-111 | Moving a key among the first n to the front commutes with taking the first n |
| `LruCaches.MissTakes` | crates/storage/src/cache.rs:113-124 | Bringing a new key to the front keeps the n - 1 newest others |
| `LruCaches.HitKeepsOrder` | crates/storage/src/cache.rs:102-111 | A hit keeps the queue a repeat-free listing of the stored keys |
| `LruCaches.MissKeepsOrder` | crates/storage/src/cache.rs:113-124 | An insertion of a new key does too, evicting exactly the oldest key when full |
| `LruCaches.TouchAgrees` | crates/storage/src/cache.rs:102-124 | One hit or insertion keeps the cache in agreement with the history |
| `LruCaches.RunAgrees` | crates/storage/src/cache.rs:87-130 | After every run the queue is the first max(1, capacity) distinct keys of the hit/insert history, newest first, the map has exactly these keys, each with its last inserted value |
| `LruCaches.LruCache.constructor` | crates/storage/src/cache.rs:94-100 | A new cache is empty |
| `LruCaches.LruCache.Get` | crates/storage/src/cache.rs:102-111 | Returns the stored value and moves a hit key to the front |
| `LruCaches.LruCache.Insert` | crates/storage/src/cache.rs:113-124 | Evicts when full and the key is new, then stores at the front |
| `LruCaches.LruCache.Clear` | crates/storage/src/cache.rs:126-129 | Empties the cache |
| `Selection.SelectValidator` | crates/consensus/src/selection.rs:81-109 | The subtracting loop picks the holder of the drawn ticket among one ticket per unit of weight, fails where the 64-bit sum of the weights is zero, and never reaches its fallback |
| `Selection.SelectForSlot` | crates/consensus/src/selection.rs:141-173 | The checks, the 64-bit total, and the loop for slot mod total |
| `Selection.Accumulate` | crates/consensus/src/selection.rs:161-172 | The accumulating loop stops at the first validator to carry the 64-bit sum past the selection, and never reaches its fallback |
| `Selection.SlotPickIsTicket` | crates/consensus/src/selection.rs:161-169 | Unless the sum wraps that is the holder of the ticket |
| `Selection.SlotPickIsHolderIff` | crates/consensus/src/selection.rs:161-169 | From any running sum the accumulating loop stops at the holder of the ticket exactly when the weights up to it do not wrap the sum; a wrap makes it stop at a later one |
| `Selection.LoopsAgreeIff` | crates/consensus/src/selection.rs:81-173 | For validators with distinct addresses, both loops pick the same one for a draw if and only if the weights up to the holder of that ticket sum to less than 2^64 |
| `Selection.LoopsAlwaysAgreeIff` | crates/consensus/src/selection.rs:81-173 | They do so for every draw if and only if they do for the largest |
| `Selection.LoopsAgree` | crates/consensus/src/selection.rs:81-173 | Without a wrap of the total they always do, whatever the addresses; where it wraps to zero both fail |
| `Selection.WrappedLoopsDisagree` | crates/consensus/src/selection.rs:155-169 | Counterexample: for weights 1, 2^64 - 1 and 5 they pick different ones for 3 |
| `Selection.TicketsPerAddress` | crates/consensus/src/selection.rs:141-173 | An address holds exactly its weight in tickets |
| `Selection.EligibleWeight` | crates/consensus/src/selection.rs:141-173 | Dropping zero-weight validators changes nobody's weight |
| `Selection.FullTurn` | crates/consensus/src/selection.rs:141-173 | Any full turn over a list holds each element as often as the list |
| `Selection.FairWindow` | crates/consensus/src/selection.rs:141-173 | In every window of total-weight consecutive slots each address is chosen exactly weight times |
| `Selection.FairWindowIff` | crates/consensus/src/selection.rs:141-173 | Slots are shared out by weight if and only if the sum of the weights does not wrap |
| `Selection.SelectCommittee` | crates/consensus/src/selection.rs:112-137 | For every sequence of draws: distinct eligible addresses, as many as asked or available; without a wrap, failure exactly when eligible addresses run out before ineligible ones |
| `Selection.TopSumOfInsert` | crates/consensus/src/selection.rs:203-227 | How the k largest weights change when one is inserted into a descending list |
| `Selection.LargestOutweigh` | crates/consensus/src/selection.rs:203-227 | Exchange argument: no coalition outweighs equally many of the largest weights |
| `Selection.LargestCoalition` | crates/consensus/src/selection.rs:203-227 | Some coalition of k validators has the weight of the k largest |
| `Selection.NakamotoCoefficient` | crates/consensus/src/selection.rs:203-227 | The loop with its 64-bit sums computes `Coefficient` |
| `Selection.TakenIsFirst` | crates/consensus/src/selection.rs:215-224 | Without a wrap it stops at the first weights that reach the threshold |
| `Selection.CoefficientIsLeast` | crates/consensus/src/selection.rs:203-227 | Without a wrap the coefficient is the least size of a non-empty coalition reaching a third of the total weight, rounded down |
| `Selection.CoefficientHoldsThird` | crates/consensus/src/selection.rs:212-224 | Some coalition of that size holds a third of the weight, rounded down, and no smaller one does |
| `Selection.AlwaysLeastIff` | crates/consensus/src/selection.rs:203-227 | It is so for all weights that sum to at most B if and only if B < 2^64 |
| `Selection.QuartersMislead` | crates/consensus/src/selection.rs:212-224 | Counterexample: four weights of 2^62 wrap to zero and the answer is one |
| `Slashing.SharesAre` | crates/consensus/src/slashing.rs:78-91 | A half is burned, three tenths insure, a fifth rewards, each rounded down |
| `Slashing.DistributionLoss` | crates/consensus/src/slashing.rs:78-91 | A 50/30/20 split loses at most two units, and none exactly when ten divides the amount |
| `Slashing.PenaltyWithinStake` | crates/consensus/src/slashing.rs:121-159 | For any rounding of the penalty formula the amount is within the stake |
| `Slashing.SlashIsExact` | crates/consensus/src/slashing.rs:121-202 | A slash takes exactly the formula's value, or the low 64 bits of the stake if less, marks a governance attacker, and records reason, evidence and the number of earlier offences |
| `Slashing.StepBalanced` | crates/consensus/src/slashing.rs:145-202 | A slash or withdrawal keeps total slashed = sum of the history = stake removed, insurance + withdrawn = sum of the 30% shares, burned = sum of the 50% shares, and offence counts = history entries |
| `Slashing.RunsBalance` | crates/consensus/src/slashing.rs:145-202 | Every run of slashes and withdrawals keeps all of these |
| `Slashing.SlashingManager.constructor` | crates/consensus/src/slashing.rs:110-118 | An empty ledger |
| `Slashing.SlashingManager.SlashValidator` | crates/consensus/src/slashing.rs:145-202 | Never fails; the penalty, the validator and the ledger are as specified |
| `Slashing.SlashingManager.WithdrawInsurance` | crates/consensus/src/slashing.rs:263-272 | Succeeds exactly when the fund covers the amount |
| `Gossip.TargetsAreSafe` | crates/networking/src/p2p.rs:155-172 | The forwarding loop sends to distinct peers, never the sender, and to at most max(1, limit) of them |
| `Gossip.TargetsCoverPeers` | crates/networking/src/p2p.rs:155-172 | A limit that covers the peers leaves out only the sender |
| `Gossip.OutgoingIs` | crates/networking/src/p2p.rs:155-172 | Forwarding goes to exactly the first max(1, limit) peers other than the sender, and to nobody with gossip off |
| `Gossip.PostAllIs` | crates/networking/src/p2p.rs:76-80 | Each target's messages gain exactly the transaction at the end; nobody else's change |
| `Gossip.StandingAfter` | crates/networking/src/p2p.rs:137-153 | A new peer gains a point per accepted transaction up to 1000, loses five per refused one, and is banned from the twenty-first refusal on |
| `Gossip.NetworkService.constructor` | crates/networking/src/p2p.rs:49-63 | Nothing seen, nothing to send |
| `Gossip.NetworkService.HandleNewPendingTransaction` | crates/networking/src/p2p.rs:118-175 | A seen or invalid transaction changes nothing; a new valid one is marked, offered to the pool with an account nonce of zero, credited or held against the sender, and posted to the outgoing peers |
| `Gossip.NetworkService.Forward` | crates/networking/src/p2p.rs:155-172 | The counting loop posts exactly to the specified targets |
| `Gossip.DeliverIsHandler` | crates/networking/src/p2p.rs:155-172 | The messages a delivery puts in flight are exactly those the handler adds to its node's outbox, none for a seen or invalid transaction |
| `Gossip.DeliverMarks` | crates/networking/src/p2p.rs:118-135 | A delivery marks exactly the hashes the handler marks |
| `Gossip.DeliverKeepsOrder` | crates/networking/src/p2p.rs:118-175 | One delivery keeps the forwarding log orderly |
| `Gossip.RunsAreOrderly` | crates/networking/src/p2p.rs:118-175 | Under any delivery order each node forwards a hash in at most one activation, to distinct peers, never back to the sender |
| `Gossip.ForwardsPerForwarder` | crates/networking/src/p2p.rs:155-172 | Forwards of a hash number at most the forwarding nodes times the fan-out |
| `Gossip.ForwardsAreBounded` | crates/networking/src/p2p.rs:118-175 | In every run a hash is forwarded at most N × max(1, max_tx_propagate_peers) times |
| `Gossip.DeliverShrinks` | crates/networking/src/p2p.rs:118-175 | Every delivery lowers messages in flight + fan-out × unmarked (node, hash) pairs |
| `Gossip.RunsAreShort` | crates/networking/src/p2p.rs:118-175 | Flooding terminates: no run is longer than that measure at its start |
| `Gossip.DeliverSpreads` | crates/networking/src/p2p.rs:118-175 | Over a fixed topology covered by the limit, every peer of a node that saw a hash has it or a copy on the way; a delivery keeps this |
| `Gossip.RunsSpread` | crates/networking/src/p2p.rs:118-175 | So does every run, and nobody informed is forgotten |
| `Gossip.QuietNetworkIsInformed` | crates/networking/src/p2p.rs:118-175 | With nothing in flight, whoever is reachable from a node that saw the hash has seen it |
| `Gossip.FloodReaches` | crates/networking/src/p2p.rs:118-175 | A flood run until quiet reaches every node reachable from where it entered |
| `Lending.BorrowIff` | crates/liquidity/src/lending.rs:213-253 | A borrow is accepted exactly when liquidity and collateral suffice; the new loan holds borrower, principal, collateral, rate and time, and no other loan changes |
| `Lending.BorrowLoses` | crates/liquidity/src/lending.rs:213-253 | An accepted borrow takes from the books exactly the outstanding principal its id replaces |
| `Lending.BorrowBalancedIff` | crates/liquidity/src/lending.rs:213-253 | A borrow keeps total_borrowed = outstanding principal ≤ total_supplied exactly when its id replaces no outstanding principal |
| `Lending.RepayIsExact` | crates/liquidity/src/lending.rs:256-313 | A repayment succeeds exactly on an active loan and never underflows; a partial one lowers principal + interest by exactly the amount paid, interest first, to the debt returned; nothing else of the loan, and no other loan, changes |
| `Lending.LiquidateIsExact` | crates/liquidity/src/lending.rs:316-338 | A liquidation never underflows, returns borrower and collateral, and takes exactly the principal off the total |
| `Lending.StepAccounts` | crates/liquidity/src/lending.rs:203-338 | Each operation keeps total_borrowed = outstanding principal + replaced principal ≤ total_supplied |
| `Lending.RunsAccount` | crates/liquidity/src/lending.rs:203-338 | So does every run, whatever ids it uses |
| `Lending.RunsSupply` | crates/liquidity/src/lending.rs:203-210 | In every run total_supplied is what was supplied |
| `Lending.UnderflowIsDead` | crates/liquidity/src/lending.rs:256-338 | After every run neither underflow branch of repay and liquidate is reachable |
| `Lending.RunsBalanceIff` | crates/liquidity/src/lending.rs:203-338 | A run ends with total_borrowed equal to the principals of active loans exactly when no accepted borrow replaced outstanding principal |
| `Lending.ReusedIdUnbalances` | crates/liquidity/src/lending.rs:397-400 | Counterexample: any two accepted loans with one id, as of one borrower at one time, leave books that no longer balance |
| `Lending.LendingPool.constructor` | crates/liquidity/src/lending.rs:185-200 | An empty book |
| `Lending.LendingPool.SupplyLiquidity` | crates/liquidity/src/lending.rs:203-210 | Raises total_supplied once the base pool accepted the deposit |
| `Lending.LendingPool.TakeLoan` | crates/liquidity/src/lending.rs:213-253 | Answer and book are those of `Borrow` |
| `Lending.LendingPool.RepayLoan` | crates/liquidity/src/lending.rs:256-313 | Answer and book are those of `Repay`, including the loan entry written before an underflow error |
| `Lending.LendingPool.LiquidateLoan` | crates/liquidity/src/lending.rs:316-338 | Answer and book are those of `Liquidate` |

## Left out

- Forks.FindCommonAncestor: requires two well-formed maps with one genesis that agree where they overlap, as
  `Chains.ReachableChains` proves of every reachable store; on other maps the source's loop need not end
  (`Forks.CyclesNeverEnd`).
- Mempool.RunsKeepExact: one direction over whole runs; step by step, coverage is exact in `Mempool.RemoveIndexedIff` and
  `Mempool.QueueIndexedIff`, the count equation in `Mempool.RemoveCountsIff` and `Mempool.InsertAndPromoteKeepCounts`.
- Gossip.NetworkService.HandleNewPendingTransaction: runs as one step; the locks between its parts are not modelled.
- BlockProduction.ProduceBlock: leaves out the proposer's uptime, a floating-point average.
- In the block store the transactions-root comparison of block validation is an abstract predicate;
  `BlockProduction.CheckRoot` models it, with its panic, for one block.
- `add_block_with_execution`: its rollback runs after each transaction's frame is closed, so it is not atomic.
- `liquidity_deployed` within `staked` is not an invariant of the source and is not claimed.
- Contract storage and code in the world state, and the state root's own computation.
- The pool's entry status and its unused replacement counters.
- Validator exit, unbonding, epochs and uptime; `check_downtime_slashing`, `detect_fork`, mempool synchronisation: single
  branches, counters or plain filters.
- Counters such as block numbers, metrics and offence counts are unbounded, without 64-bit wrap-around.
- Floating-point formulas: pricing, interest, minting curves, reward weights, risk scores.
- Storage on disk, JSON-RPC, node runtime, locks and background tasks, key handling, the EVM placeholder, wallets.

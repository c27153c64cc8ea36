# Bolt registry, verified

A Dafny model of the two halves of the Bolt registry, with machine-checked properties.

On chain, `OperatorsRegistryV1` keeps operators in a pauseable, enumerable set beside a mapping of
records. Every timestamp is rounded to the start of an epoch, and different calls deliberately pass
the epoch start or the second before it. The EigenLayer and Symbiotic middlewares keep their
whitelists in the same kind of set and compute stakes over them.

Off chain, a syncer turns a noisy stream of payload attributes into epoch transitions, catches up on
overlapping two-epoch lookahead windows, and writes registrations and operators into the database,
while an API actor registers and reads whenever the registry is synced.

| file | contents |
|---|---|
| `Evm.dfy` | bounded words, checked arithmetic, reverts |
| `EpochGrid.dfy` | the registry's clock |
| `PauseableSet.dfy` | the set library: operations on sequences, and the array with its position table |
| `CleanupPass.dfy` | what one cleanup pass over the entries, and several, leave behind |
| `RegistrySpec.dfy`, `OperatorsRegistry.dfy` | the registry's calls as functions, and the contract as a class proved against them |
| `CallOutcomes.dfy` | why a call reverts, and what an operator's record holds after any history |
| `Lifecycle.dfy` | the timestamp-free lifecycle that the registry refines, over whole histories |
| `CleanupHistory.dfy` | cleanup as calls in a history: when it is safe, and how many calls are enough |
| `Whitelists.dfy` | whole histories of a whitelist |
| `Stakes.dfy`, `EigenLayerMiddleware.dfy`, `SymbioticMiddleware.dfy` | whitelists, filters and stakes |
| `Primitives.dfy`, `MemoryDb.dfy`, `ValidatorIndex.dfy` | the in-memory database and its secondary index |
| `Batches.dfy`, `RegistryActor.dfy` | batch registration and the lookahead join |
| `EpochStream.dfy` | epoch transitions from payload attributes |
| `SyncSpec.dfy`, `Syncer.dfy`, `SyncProtocol.dfy` | what syncing writes, the syncer, and the syncer interleaved with the API |

`dafny verify dfyconfig.toml` checks everything.

## How the model reads the code

- A contract call returns a `Result`: it reverts with the source's error, and then leaves all state
  as it was, or it returns. The block's timestamp, the sender and the answers of other contracts are
  parameters. `mapping` and storage array become a map and a sequence in the fields of a class.
- The set library `PauseableEnumerableSet` is imported from the Symbiotic middleware SDK and is not
  part of the repository. Its behaviour is an assumption, stated in `PauseableSet.dfy`: an array of
  address, enabling and disabling time, with one-based positions; registering appends `(t, 0)`;
  pausing needs a zero disabling time; unpausing and unregistering need a nonzero disabling time whose
  period has passed, with checked 48-bit addition; unregistering swaps with the last and pops. The
  errors are those in `registry/src/chainio/artifacts/OperatorsRegistryV1.json:601-673`.
- `u64` subtraction on the Rust side wraps, as in a release build (`registry/Cargo.toml` turns
  nothing else on). A payload attribute with proposal slot 0 is then dropped as a duplicate; a debug
  build would panic on it. The block distance at `registry/src/sync/mod.rs:139` is only logged.
- The beacon client and the source retry until they get an answer, so their answers are total
  functions. Beginning and committing an in-memory transaction cannot fail.
- API actions are steps that run when the state channel says synced.

## Where code and documentation differ

- The comment at `contracts/src/contracts/OperatorsRegistryV1.sol:230` says that cleanup removes any
  expired operator. One pass steps past each operator it swaps in; `OnePassClearsIff` says exactly
  when one pass is enough, `EnoughCleanupsClear` and `FewerCleanupsDoNot` how many calls are.
- The documented lifecycle holds exactly if the registry starts at second 2 or later
  (`ActiveIffLastEvent`, `HistoriesRefineIff`). A registration in an epoch that starts at second 0 is
  stored with the enabling time 0, which reads as never enabled (`RegisterTakesEffectIff`); a pause in
  an epoch that starts at second 1 is stored with the mark 0, which reads as not paused
  (`PauseTakesEffectIff`), and at second 0 it reverts. `EarlyHistory` gives the two histories. With
  epochs of one second unpausing is possible at once, but deregistering is not (`PausedGates`).
- `registry/src/registry.rs:132` reports that not all validators are active; a batch that names an
  active validator twice gets the same answer (`AdmittedIff`). A batch with fewer signatures than keys
  is cut short silently (`AdmittedItems`).
- A validator known only from a sync is not found by index, because the sync transaction does not
  write the index (`IndexAgreesIff`, `SyncOnlyIsNotFound`).
- A new syncer reports synced before it has loaded the stored sync state
  (`registry/src/sync/mod.rs:88`), so an API action may run before the syncer knows where it stands.
  `ApiSeesSyncedStateIff` says exactly when it does, and `ApiMayRunBeforeLoading` shows a run.

## Model

| member | source | states |
|---|---|---|
| `CleanupPass.SweepHalves` | contracts/src/contracts/OperatorsRegistryV1.sol:231-241 | A cleanup pass from any index leaves at most half of the expired operators it has not seen yet, on top of those it has already stepped past |
| `CleanupPass.OnePassClearsIff` | contracts/src/contracts/OperatorsRegistryV1.sol:230-241 | One pass clears every expired operator exactly when, of n expired ones, none is in the last n - 1 places of the array; the comment promises it always |
| `CleanupPass.OnePassMayLeaveExpired` | contracts/src/contracts/OperatorsRegistryV1.sol:230-241 | A concrete set of two expired operators of which one pass leaves one |
| `CleanupPass.SweepClearsIff` | contracts/src/contracts/OperatorsRegistryV1.sol:231-241 | The same criterion for a pass standing at any index |
| `CleanupPass.SweepTable` | contracts/src/contracts/OperatorsRegistryV1.sol:231-241 | A pass removes only expired operators, never duplicates one, and keeps the entry of everybody it leaves |
| `CleanupPass.EnoughPassesClear` | contracts/src/contracts/OperatorsRegistryV1.sol:231-241 | floor(log2 k) + 1 runs of the loop over the entries clear k expired ones, wherever they are in the array |
| `CleanupHistory.EnoughCleanupsClear` | contracts/src/contracts/OperatorsRegistryV1.sol:230-241 | After any history with k operators due, floor(log2 k) + 1 cleanup calls in one epoch leave none due, whatever other calls of that epoch come in between (with epochs of one second, other than pauses) |
| `CleanupPass.FewerPassesDoNot` | contracts/src/contracts/OperatorsRegistryV1.sol:231-241 | With everybody expired, fewer passes leave somebody: the bound is tight |
| `CleanupHistory.FewerCleanupsDoNot` | contracts/src/contracts/OperatorsRegistryV1.sol:230-241 | With every operator due, fewer cleanup calls leave one registered and due: the bound on calls is tight |
| `CleanupHistory.OneCleanupMayLeaveDue` | contracts/src/contracts/OperatorsRegistryV1.sol:230-241 | A history of calls, two registrations and two pauses, after which one cleanup call leaves an expired operator |
| `CleanupHistory.TwoCleanupsClear` | contracts/src/contracts/OperatorsRegistryV1.sol:230-241 | On the set that history leads to the bound is met exactly: one cleanup leaves somebody due, two leave nobody |
| `CleanupPass.SweepFits` | contracts/src/contracts/OperatorsRegistryV1.sol:231-241 | Without an entry whose period end overflows 48 bits no pass reverts |
| `CleanupHistory.CleanupSafeIff` | contracts/src/contracts/OperatorsRegistryV1.sol:231-241 | Cleanup goes through after every history of calls exactly when epoch start + EPOCH_DURATION - 1 fits into 48 bits |
| `OperatorsRegistry.LoopIsSweep` | contracts/src/contracts/OperatorsRegistryV1.sol:231-241 | Deleting set entries and records one by one inside the loop deletes the records of exactly the operators that are gone at its end |
| `EpochGrid.Grid.NowIsEpochStart` | contracts/src/contracts/OperatorsRegistryV1.sol:85-88 | The epoch start is computed without overflow whenever the registry has started and epochs exist, is the last grid point not after the clock, and reverts otherwise |
| `EpochGrid.Grid.NowReasons` | contracts/src/contracts/OperatorsRegistryV1.sol:85-88 | Before the start the computation panics on the subtraction, and with a duration of 0 on the division |
| `EpochGrid.Grid.EpochIffBetweenTicks` | contracts/src/contracts/OperatorsRegistryV1.sol:85-88 | A clock is in epoch k exactly between the k-th and the next grid point, so the epoch start is constant inside an epoch |
| `EpochGrid.Grid.NowMonotoneAndIdempotent` | contracts/src/contracts/OperatorsRegistryV1.sol:85-88 | The epoch start never decreases with the clock and is its own epoch start |
| `Lifecycle.StepRefinesIff` | contracts/src/contracts/OperatorsRegistryV1.sol:104-241 | Every call is a step of a timestamp-free machine (active, or paused since an epoch), exactly unless it is a pause in an epoch starting at second 0 or 1 that the machine allows: accepted exactly when it comes from a middleware and the machine allows it, with the machine's effect; a cleanup drops at least half of the due operators and nobody else, and alone may panic near the end of the 48-bit range |
| `Lifecycle.HistoriesRefineIff` | contracts/src/contracts/OperatorsRegistryV1.sol:104-241 | All steps of all histories with non-decreasing time are steps of that machine exactly when START_TIMESTAMP is at least 2 |
| `Lifecycle.ActiveIffLastEvent` | contracts/src/contracts/OperatorsRegistryV1.sol:91-144 | After every history with non-decreasing time an operator is active exactly when the last accepted call about it registered or unpaused it; this holds exactly when START_TIMESTAMP is at least 2 |
| `Lifecycle.EarlyHistory` | contracts/src/contracts/OperatorsRegistryV1.sol:104-131 | The failing histories: a registration at second 0 is not seen as active, and a pause at second 1 does not deactivate |
| `Lifecycle.ReachableTimed` | contracts/src/contracts/OperatorsRegistryV1.sol:112-167 | In every reachable state enabling times are epoch starts that have come, and pause marks are one second before such a start |
| `Lifecycle.PauseTakesEffectIff` | contracts/src/contracts/OperatorsRegistryV1.sol:127-129 | An accepted pause deactivates an active operator at once exactly when the epoch does not start at second 1, where the mark would read as not paused |
| `Lifecycle.RegisterTakesEffectIff` | contracts/src/contracts/OperatorsRegistryV1.sol:112 | An accepted registration is active at once exactly when the epoch does not start at second 0, where the enabling time would read as never enabled |
| `Lifecycle.PausedGates` | contracts/src/contracts/OperatorsRegistryV1.sol:137-171 | For an entry paused in epoch j, deregistering opens exactly in later epochs; unpausing and cleanup open with it, unless an epoch lasts one second |
| `Lifecycle.GatesOpenTogether` | contracts/src/contracts/OperatorsRegistryV1.sol:122-171 | All three gates open at the first second of the epoch after the pause, in terms of the block clock; with epochs of one second unpausing and cleanup are open at once |
| `Lifecycle.CleanupRefines` | contracts/src/contracts/OperatorsRegistryV1.sol:231-241 | In lifecycle terms a pass removes only due operators and at least half of them, counted as a set |
| `Lifecycle.CountIsCardinality` | contracts/src/contracts/OperatorsRegistryV1.sol:231-241 | Counting expired array entries counts expired operators |
| `RegistrySpec.ReachableConsistent` | contracts/src/contracts/OperatorsRegistryV1.sol:104-241 | After any history of calls by anybody, the set has no duplicates and exactly its members have a record, which is their own, nonzero and with an rpc endpoint |
| `RegistrySpec.StepKeepsConsistent` | contracts/src/contracts/OperatorsRegistryV1.sol:104-241 | Every accepted call keeps set and records in agreement |
| `OperatorsRegistry.Registry.RegisterOperator` | contracts/src/contracts/OperatorsRegistryV1.sol:104-116 | Does what the call specifies on set and records, including each revert and its order, and keeps the invariant |
| `OperatorsRegistry.Registry.PauseOperator` | contracts/src/contracts/OperatorsRegistryV1.sol:122-131 | Pauses at the epoch start minus one second or reverts with nothing changed |
| `OperatorsRegistry.Registry.UnpauseOperator` | contracts/src/contracts/OperatorsRegistryV1.sol:137-144 | Unpauses at the epoch start once the immutable period has passed, or reverts with nothing changed |
| `OperatorsRegistry.Registry.UpdateOperatorRpcEndpoint` | contracts/src/contracts/OperatorsRegistryV1.sol:150-155 | On success the member's record carries the new endpoint and nothing else changed; otherwise reverts with nothing changed |
| `OperatorsRegistry.Registry.DeregisterOperator` | contracts/src/contracts/OperatorsRegistryV1.sol:161-171 | Removes entry and record together once the period has passed at the epoch start minus one second, or reverts with nothing changed |
| `OperatorsRegistry.Registry.CleanupLoop` | contracts/src/contracts/OperatorsRegistryV1.sol:231-241 | The loop over a set that shrinks under it never indexes out of range and runs turn by turn as specified, to its end or to the first revert |
| `OperatorsRegistry.Registry.Cleanup` | contracts/src/contracts/OperatorsRegistryV1.sol:231-241 | A cleanup transaction is all or nothing |
| `OperatorsRegistry.Registry.GetAllOperators` | contracts/src/contracts/OperatorsRegistryV1.sol:175-184 | Returns one record per member, in set order, each the member's own and well formed |
| `OperatorsRegistry.Registry.GetActiveOperators` | contracts/src/contracts/OperatorsRegistryV1.sol:188-197 | Returns the records of exactly the members active in this epoch, in set order |
| `OperatorsRegistry.Registry.IsActiveOperator` | contracts/src/contracts/OperatorsRegistryV1.sol:224-228 | Answers whether the address is a member whose timestamps cover the epoch start |
| `CallOutcomes.RecordsFollowHistory` | contracts/src/contracts/OperatorsRegistryV1.sol:104-171 | After every history each member's record is its own and carries the endpoint of the last accepted call that registered it or updated its endpoint, and the sender and extra data of the last accepted call that registered it |
| `CallOutcomes.RecordsMove` | contracts/src/contracts/OperatorsRegistryV1.sol:104-241 | Registering stores signer, endpoint, sender and extra data; an endpoint update changes nothing but the endpoint of that record; every other call only ever removes records |
| `CallOutcomes.StrangersRevert` | contracts/src/contracts/OperatorsRegistryV1.sol:73-80 | Everything but cleanup reverts exactly for callers other than the two middlewares, and everything but that and registering for signers that are no members |
| `CallOutcomes.RegisterReasons` | contracts/src/contracts/OperatorsRegistryV1.sol:104-116 | Which error a registration reverts with, in the order of the checks, and that it is accepted otherwise |
| `CallOutcomes.PauseReasons` | contracts/src/contracts/OperatorsRegistryV1.sol:122-131 | A member's pause reverts exactly at second 0 or if it is paused already |
| `CallOutcomes.UnpauseReasons` | contracts/src/contracts/OperatorsRegistryV1.sol:137-144 | Which error an unpause reverts with, and that it is accepted exactly once the period of the pause has ended |
| `CallOutcomes.DeregisterReasons` | contracts/src/contracts/OperatorsRegistryV1.sol:161-171 | The same for deregistering, at the second before the epoch start |
| `CallOutcomes.CleanupReasons` | contracts/src/contracts/OperatorsRegistryV1.sol:231-241 | Cleaning up an empty set always succeeds; otherwise cleanup fails if there is no epoch |
| `PauseableSet.InverseSwapRemove` | contracts/src/contracts/OperatorsRegistryV1.sol:167 | Swap with the last, pop and position fix-up keep the position table the exact inverse of the array |
| `PauseableSet.InverseIsDistinct` | contracts/src/contracts/OperatorsRegistryV1.sol:25 | An exact inverse implies that the array has no duplicates and that a table lookup is a search from the front |
| `PauseableSet.RegisterMeaning` | contracts/src/contracts/OperatorsRegistryV1.sol:112 | Registering succeeds exactly for a non-member and adds one fresh entry |
| `PauseableSet.PauseMeaning` | contracts/src/contracts/OperatorsRegistryV1.sol:129 | Pausing succeeds exactly for a member that is not paused and only sets its disabling time |
| `PauseableSet.UnpauseMeaning` | contracts/src/contracts/OperatorsRegistryV1.sol:142 | Unpausing succeeds exactly for a paused member whose period has passed and renews its entry |
| `PauseableSet.UnregisterMeaning` | contracts/src/contracts/OperatorsRegistryV1.sol:167 | Unregistering succeeds under the same guard and removes that member only |
| `PauseableSet.OthersKeepEntry` | contracts/src/contracts/OperatorsRegistryV1.sol:112-167 | No operation touches the entry of another address |
| `PauseableSet.Gate` | contracts/src/contracts/OperatorsRegistryV1.sol:231-241 | The guard passes exactly when the entry is paused and its period has passed; an overflowing period end panics |
| `PauseableSet.AddressSet.Register` | contracts/src/contracts/OperatorsRegistryV1.sol:112 | The stored array and table are updated in place to the specified sequence, or unchanged on a revert |
| `PauseableSet.AddressSet.Pause` | contracts/src/contracts/OperatorsRegistryV1.sol:129 | The stored array is updated in place to the specified sequence, or unchanged on a revert |
| `PauseableSet.AddressSet.Unpause` | contracts/src/contracts/OperatorsRegistryV1.sol:142 | The stored array is updated in place to the specified sequence, or unchanged on a revert |
| `PauseableSet.AddressSet.Unregister` | contracts/src/contracts/OperatorsRegistryV1.sol:167 | The stored array and table are updated in place to the specified sequence, or unchanged on a revert |
| `PauseableSet.AddressSet.RemoveAt` | contracts/src/contracts/OperatorsRegistryV1.sol:167 | Swap, pop and position fix-up in place give the specified sequence |
| `PauseableSet.AddressSet.CheckUnregister` | contracts/src/contracts/OperatorsRegistryV1.sol:234 | Answers whether unregistering would succeed; unknown and unpaused addresses answer no |
| `PauseableSet.AddressSet.Contains` | contracts/src/contracts/OperatorsRegistryV1.sol:125 | Membership through the table is membership in the array |
| `PauseableSet.AddressSet.WasActiveAt` | contracts/src/contracts/OperatorsRegistryV1.sol:227 | True exactly for a member whose enabling time is nonzero and not after the time, and which has no disabling time or one not before the time |
| `PauseableSet.AddressSet.GetActive` | contracts/src/contracts/OperatorsRegistryV1.sol:189 | The active members in array order |
| `EigenLayerMiddleware.StakeAgrees` | contracts/src/contracts/EigenLayerMiddlewareV3.sol:163-212 | Summing along the whitelist equals adding up the amounts of that token in the collateral columns |
| `EigenLayerMiddleware.Middleware.GetOperatorStake` | contracts/src/contracts/EigenLayerMiddlewareV3.sol:188-212 | Returns the sum of the amounts with that token in getOperatorCollaterals, and reverts exactly when that sum leaves 256 bits or there is a strategy but no epoch |
| `EigenLayerMiddleware.Middleware.GetOperatorCollaterals` | contracts/src/contracts/EigenLayerMiddlewareV3.sol:163-182 | Returns token and amount of every active strategy, in whitelist order, the amount being the underlying value of the operator's shares in it |
| `EigenLayerMiddleware.StakesConserveTotal` | contracts/src/contracts/EigenLayerMiddlewareV3.sol:163-212 | Adding the stakes over any set of tokens that covers the active strategies gives the whole amounts column |
| `Stakes.TokensConserveTotal` | contracts/src/contracts/EigenLayerMiddlewareV3.sol:163-212 | Splitting an amounts column by token loses nothing and counts nothing twice |
| `EigenLayerMiddleware.Middleware.GetActiveStrategiesAt` | contracts/src/contracts/EigenLayerMiddlewareV3.sol:512-532 | The two passes return exactly the strategies whose timestamps cover the time, in whitelist order |
| `EigenLayerMiddleware.Middleware.GetOperatorRestakedStrategies` | contracts/src/contracts/EigenLayerMiddlewareV3.sol:297-323 | Returns, in order, the active strategies whose amount in getOperatorCollaterals is positive |
| `EigenLayerMiddleware.Middleware.SelectRestaked` | contracts/src/contracts/EigenLayerMiddlewareV3.sol:303-320 | Keeps, in the order given, exactly those strategies whose amount is positive |
| `EigenLayerMiddleware.PositiveConcat` | contracts/src/contracts/EigenLayerMiddlewareV3.sol:309-315 | The selection looks at each strategy by its own amount and keeps the order |
| `EigenLayerMiddleware.PositiveOne` | contracts/src/contracts/EigenLayerMiddlewareV3.sol:311 | A strategy is selected exactly if its amount is not zero |
| `EigenLayerMiddleware.Middleware.IsStrategyActive` | contracts/src/contracts/EigenLayerMiddlewareV3.sol:242-246 | Answers the lookup that the filters agree with |
| `EigenLayerMiddleware.Middleware.GetWhitelistedStrategies` | contracts/src/contracts/EigenLayerMiddlewareV3.sol:216-224 | Returns the address of every whitelisted strategy, in order |
| `EigenLayerMiddleware.Middleware.WhitelistStrategy` | contracts/src/contracts/EigenLayerMiddlewareV3.sol:380-389 | Adds an eligible new strategy in place or reverts with the source's errors in their order |
| `EigenLayerMiddleware.WhitelistReasons` | contracts/src/contracts/EigenLayerMiddlewareV3.sol:380-389 | Which error whitelisting a strategy reverts with, in the order of the checks, and that it appends the strategy otherwise |
| `EigenLayerMiddleware.MemberReasons` | contracts/src/contracts/EigenLayerMiddlewareV3.sol:393-426 | The owner's other calls revert for strangers and otherwise go the way of the set |
| `EigenLayerMiddleware.Middleware.PauseStrategy` | contracts/src/contracts/EigenLayerMiddlewareV3.sol:393-402 | Pauses a whitelisted strategy in place or reverts |
| `EigenLayerMiddleware.Middleware.UnpauseStrategy` | contracts/src/contracts/EigenLayerMiddlewareV3.sol:406-413 | Unpauses in place after the period or reverts |
| `EigenLayerMiddleware.Middleware.RemoveStrategy` | contracts/src/contracts/EigenLayerMiddlewareV3.sol:418-426 | Removes in place after the period or reverts |
| `EigenLayerMiddleware.StrategyGates` | contracts/src/contracts/EigenLayerMiddlewareV3.sol:393-426 | After any history whose last accepted call about a strategy paused it, unpausing and removing it open together at the first second of the next epoch (unpausing at once, if epochs last one second), and never if the pause lost its mark |
| `EigenLayerMiddleware.StrategyActiveIff` | contracts/src/contracts/EigenLayerMiddlewareV3.sol:242-246 | After any history and for any time, a strategy is active exactly when its accepted calls put it in force then; for the current epoch, with a start of at least 2, exactly when the last of them whitelisted or unpaused it |
| `Whitelists.ReplayEntries` | contracts/src/contracts/EigenLayerMiddlewareV3.sol:380-426 | In every reachable whitelist each entry is enabled at the start of the epoch that last put its member in force and, if the member's last change is a pause, disabled one second before the start of that epoch |
| `Whitelists.ActiveIffInForce` | contracts/src/contracts/SymbioticMiddlewareV1.sol:396-398 | Over every history and for every time, past or future: a member is active exactly from the start of the epoch that last added or unpaused it and, if it was paused since, before the start of the epoch of the pause, with the two early times that are lost spelled out |
| `Whitelists.RunIsReplay` | contracts/src/contracts/EigenLayerMiddlewareV3.sol:380-426 | Running any history of calls, reverted ones included, is replaying the accepted changes |
| `Stakes.ActiveIsFilter` | contracts/src/contracts/EigenLayerMiddlewareV3.sol:228-246 | Selecting entries by their own timestamps equals filtering the whole whitelist by the active lookup, in order |
| `Stakes.ActiveAddrsMembers` | contracts/src/contracts/EigenLayerMiddlewareV3.sol:512-532 | An address is on the active list exactly if some entry of it is enabled, not after the time, and not disabled before it |
| `Stakes.ActiveAddrsConcat` | contracts/src/contracts/EigenLayerMiddlewareV3.sol:512-532 | Each entry counts by itself and the order stays |
| `Stakes.ActiveAddrsDistinct` | contracts/src/contracts/EigenLayerMiddlewareV3.sol:512-532 | No active member is listed twice |
| `Stakes.PauseDeactivates` | contracts/src/contracts/EigenLayerMiddlewareV3.sol:398-400 | Pausing deactivates the member, and nobody else, in the same epoch, exactly unless the epoch starts at second 1 |
| `Stakes.Resize` | contracts/src/contracts/EigenLayerMiddlewareV3.sol:526-531 | The copying pass returns exactly the filled part |
| `SymbioticMiddleware.StakeIsFirstRow` | contracts/src/contracts/SymbioticMiddlewareV1.sol:187-243 | The stake is the amount in the row of the first active vault with the token exactly if that vault's stake is the same with and without the timestamp, and 0 if there is no such vault; then it is at most the sum of the token's rows and equals it exactly when all the other rows of the token are empty |
| `SymbioticMiddleware.ReachableStake` | contracts/src/contracts/SymbioticMiddlewareV1.sol:187-259 | The same for the whitelist after any history of calls, together with the agreement for a single matching vault |
| `SymbioticMiddleware.ReachableStakeAt` | contracts/src/contracts/SymbioticMiddlewareV1.sol:187-214 | After any history and for any timestamp, also a past one: the stake is that of the first listed vault with the token that was in force then, and 0 if there was none |
| `SymbioticMiddleware.SoleVaultStake` | contracts/src/contracts/SymbioticMiddlewareV1.sol:187-243 | With at most one active vault for the token the stake equals the per-token sum |
| `SymbioticMiddleware.Middleware.GetOperatorStakeAt` | contracts/src/contracts/SymbioticMiddlewareV1.sol:187-214 | Returns the timestamped stake of the first active vault with the collateral; none, or the zero address, gives 0 |
| `SymbioticMiddleware.Middleware.GetOperatorStake` | contracts/src/contracts/SymbioticMiddlewareV1.sol:177-180 | Returns the stake at the current epoch start |
| `SymbioticMiddleware.Middleware.GetOperatorCollaterals` | contracts/src/contracts/SymbioticMiddlewareV1.sol:220-243 | One row per whitelisted vault, active or not, with amount 0 for an inactive one |
| `SymbioticMiddleware.Middleware.GetActiveWhitelistedVaults` | contracts/src/contracts/SymbioticMiddlewareV1.sol:305-325 | The two passes return exactly the vaults active in this epoch, in whitelist order |
| `SymbioticMiddleware.Middleware.IsVaultActive` | contracts/src/contracts/SymbioticMiddlewareV1.sol:336-340 | Answers the lookup that the filter agrees with |
| `SymbioticMiddleware.Middleware.GetWhitelistedVaults` | contracts/src/contracts/SymbioticMiddlewareV1.sol:293-301 | Returns the address of every whitelisted vault, in order |
| `SymbioticMiddleware.Middleware.WhitelistVault` | contracts/src/contracts/SymbioticMiddlewareV1.sol:249-259 | Adds a registered, initialised, new vault in place or reverts with the source's errors in their order |
| `SymbioticMiddleware.WhitelistReasons` | contracts/src/contracts/SymbioticMiddlewareV1.sol:249-259 | Which error whitelisting a vault reverts with, in the order of the checks, and that it appends the vault otherwise |
| `SymbioticMiddleware.Middleware.PauseVault` | contracts/src/contracts/SymbioticMiddlewareV1.sol:273-280 | Pauses in place or reverts |
| `SymbioticMiddleware.Middleware.UnpauseVault` | contracts/src/contracts/SymbioticMiddlewareV1.sol:284-289 | Unpauses in place after the period or reverts |
| `SymbioticMiddleware.Middleware.RemoveVault` | contracts/src/contracts/SymbioticMiddlewareV1.sol:263-269 | Removes in place after the period or reverts |
| `SymbioticMiddleware.VaultGates` | contracts/src/contracts/SymbioticMiddlewareV1.sol:263-289 | After any history whose last accepted call about a vault paused it, unpausing and removing it open together at the first second of the next epoch (unpausing at once, if epochs last one second), and never if the pause lost its mark |
| `SymbioticMiddleware.VaultActiveIff` | contracts/src/contracts/SymbioticMiddlewareV1.sol:336-340 | After any history and for any time, a vault is active exactly when its accepted calls put it in force then; for the current epoch, with a start of at least 2, exactly when the last of them whitelisted or unpaused it |
| `SymbioticMiddleware.VaultsWellFormed` | contracts/src/contracts/SymbioticMiddlewareV1.sol:249-289 | After any history the whitelist names no vault twice and never the zero address, as long as that is no registered vault |
| `Batches.AdmittedIff` | registry/src/registry.rs:114-134 | The count comparison admits a batch exactly when its keys are pairwise distinct and all of them are active |
| `Batches.AdmittedItems` | registry/src/primitives/registry.rs:48-63 | An admitted batch loses nothing in the index lookup: it yields in order one registration for each of the first min(#keys, #signatures) keys, with that key's reported index |
| `Batches.DeregistrationItems` | registry/src/primitives/registry.rs:100-110 | One deregistration for each of the first min(#keys, #signatures) keys, in order |
| `Batches.IndexMap` | registry/src/registry.rs:119-127 | The collected map has exactly the reported keys, each with an index reported for it |
| `Batches.LastSummaryWins` | registry/src/registry.rs:119-127 | Of several reported summaries of a key the last one gives the index |
| `RegistryActor.Registry.RegisterValidators` | registry/src/registry.rs:107-144 | Rejects without touching the database, or writes exactly the batch's items to map and index |
| `RegistryActor.Registry.DeregisterValidators` | registry/src/registry.rs:147-159 | Afterwards a key is registered exactly if it was before and is none of the first min(#keys, #signatures) keys of the batch |
| `RegistryActor.Registry.GetLookahead` | registry/src/registry.rs:217-244 | With one duty per slot, a slot is in the lookahead exactly when its validator is registered with a known operator, and the entry has that registration's key, operator and gas limit and that operator's endpoint; of several duties in a slot the last with an entry wins |
| `RegistryActor.EntryAtDuty` | registry/src/registry.rs:229-244 | With one duty per slot, a slot has an entry exactly when its validator is registered with a known operator, and it is that validator's own entry |
| `RegistryActor.EntryAtIff` | registry/src/registry.rs:229-244 | With several duties in a slot, the last one whose validator is registered with a known operator counts |
| `RegistryActor.FoundIsLookup` | registry/src/registry.rs:225-238 | Searching the fetched list, repetitions included, finds what the database has for the key |
| `ValidatorIndex.ValidatorsByIndexIff` | registry/src/db/memory.rs:162-182 | The list returned for some indices holds exactly the entries of validators with one of these indices that are registered now with a known operator and were once registered through the database itself; each is registered under its index |
| `ValidatorIndex.ByIndexIsScanWithoutSync` | registry/src/db/memory.rs:118-182 | Without sync writes that list is the listing of all validators filtered by index |
| `ValidatorIndex.IndexIsLastWrite` | registry/src/db/memory.rs:78-90 | With no assumption on indices, looking up an index looks up the key last registered under it through the database itself |
| `ValidatorIndex.LookupIndexIff` | registry/src/db/memory.rs:162-182 | The same for a single index: an entry is found exactly when such a validator exists, and its registration carries that index |
| `ValidatorIndex.IndexAgreesIff` | registry/src/db/memory.rs:139-182 | Lookup by index and by key agree exactly when the key is not listed or was once registered through the database: sync-only validators are not found by index |
| `ValidatorIndex.SyncOnlyIsNotFound` | registry/src/db/memory.rs:32-46 | A history of one sync after which a validator is found by key but not by index |
| `ValidatorIndex.IndexIsScanWithoutSync` | registry/src/db/memory.rs:118-182 | Without sync writes a lookup by index finds exactly the listed entries with that index |
| `ValidatorIndex.RunInvariant` | registry/src/db/memory.rs:32-101 | Over every history the index inverts the index assignment on exactly the keys ever registered through the database |
| `ValidatorIndex.RegisteredIffLastWrite` | registry/src/db/memory.rs:32-101 | Over every history a key is registered, and as a given registration, exactly when that is its last registration, by the API or a sync, and no later write names the key |
| `ValidatorIndex.OperatorIffLastWrite` | registry/src/db/memory.rs:41-76 | Over every history the operator known under an address is the last one stored there, by the API or a sync |
| `MemoryDb.WriteRegistrationsAt` | registry/src/db/memory.rs:84-87 | A batch write leaves for each key the last registration that mentions it, and other keys alone |
| `MemoryDb.LastWriteWins` | registry/src/db/memory.rs:84-87 | Of several registrations of a key, or under an index, in one batch the last one counts |
| `MemoryDb.InMemoryDb.RegisterValidators` | registry/src/db/memory.rs:78-90 | Writes the batch to map and index in order |
| `MemoryDb.InMemoryDb.RegisterOperator` | registry/src/db/memory.rs:68-76 | Stores the operator under its signer and nothing else |
| `MemoryDb.InMemoryDb.DeregisterValidators` | registry/src/db/memory.rs:92-101 | Afterwards a key is registered exactly if it was before and no element of the batch names it, with the same registration; the index stays as it was |
| `MemoryDb.InMemoryDb.ListValidators` | registry/src/db/memory.rs:118-137 | Lists, in some order and once each, exactly the registrations with a known operator, each with the registration's key, operator and gas limit and the operator's endpoint |
| `MemoryDb.FilterMapInOrder` | registry/src/db/memory.rs:139-182 | A filtering lookup returns one answer for each place asked for that has one, in the order of the places |
| `MemoryDb.LookupPubkeyIff` | registry/src/db/memory.rs:139-160 | A key has an entry exactly when it is registered and that registration's operator is known; key, operator and gas limit are the registration's, the endpoint is the operator's |
| `MemoryDb.ValidatorsByPubkeyIff` | registry/src/db/memory.rs:139-160 | The list returned for some keys holds exactly the entries of those keys |
| `MemoryDb.InMemorySyncTransaction.RegisterValidators` | registry/src/db/memory.rs:32-39 | Writes the batch to the shared map but not to the index |
| `MemoryDb.InMemorySyncTransaction.RegisterOperator` | registry/src/db/memory.rs:41-46 | Stores the operator under its signer in the shared map |
| `MemoryDb.InMemorySyncTransaction.Commit` | registry/src/db/memory.rs:48-53 | Stores the new sync state and nothing else |
| `EpochStream.EpochTransitionStream.PollNext` | registry/src/sync/chain.rs:56-85 | Whatever the events and their order, the transitions emitted so far are those at the strict new maxima of the reached epoch among the events consumed so far |
| `EpochStream.EpochTransitionStream.Accept` | registry/src/sync/chain.rs:62-79 | The two fields stay the highest slot seen and its epoch, and a transition comes out exactly for a new maximum |
| `EpochStream.EpochTransitionStream.Next` | registry/src/sync/mod.rs:126 | Polls until a transition comes or the stream ends, losing no event |
| `EpochStream.RecordIffAboveHighest` | registry/src/sync/chain.rs:62-71 | An event starts a new epoch exactly when it exceeds the highest epoch so far, and never if its slot is not new: de-duplication does not change the output |
| `EpochStream.RecordsIff` | registry/src/sync/chain.rs:56-85 | The emitted transitions are exactly those of the events whose slot, the one before the proposal slot, lies in an epoch of 32 slots above 0 and above the epochs of all earlier events, with that slot and the parent's block number |
| `EpochStream.EventsConcat` | registry/src/sync/chain.rs:59-60 | The events of the underlying stream are taken all and in order; only pauses are left out |
| `EpochStream.RecordsIncrease` | registry/src/sync/chain.rs:69-78 | Emitted epochs and slots strictly increase, each slot lies in its epoch, and the last epoch is the highest any event reached |
| `SyncSpec.CatchingUpIsStepping` | registry/src/sync/mod.rs:166-183 | However many transitions were handled on the way, registrations, operators and sync state end up as after one transition from the initial epoch to the last |
| `SyncSpec.RangesJoin` | registry/src/sync/mod.rs:166-176 | Stopping after an epoch and starting again with it, which replays its two-epoch window, changes nothing |
| `SyncSpec.NoEpochSkipped` | registry/src/sync/mod.rs:166-183 | Transitions that go forward from the initial epoch sync exactly the lookaheads of the epochs from it to the last, and none is skipped |
| `SyncSpec.LookaheadsAt` | registry/src/client/beacon.rs:189-196 | Each lookahead synced is an epoch's duties followed by those of the next epoch |
| `Syncer.ForwardSkipsNone` | registry/src/sync/mod.rs:112-183 | If the stored epoch is not ahead, the lookaheads synced hold every duty of the epochs from it to one past the last, and no other |
| `SyncSpec.LastWindowWins` | registry/src/sync/mod.rs:166-176 | After a range of overlapping windows a key has the registration of the last window naming it, or its old one |
| `SyncSpec.WindowIntegrity` | registry/src/sync/mod.rs:258-315 | After a window every retained entry's validator is registered under a known operator, and the entry's operator carries the endpoint of the last retained entry for that signer |
| `SyncSpec.WindowRegistersIff` | registry/src/sync/mod.rs:218-316 | From what the source and the beacon chain answered for a lookahead to the database: a key is registered exactly as the last answer about it says, with the index of its first summary, gas limit 10000, no expiry and no signature, if the chain reports it; otherwise as before |
| `SyncSpec.WindowAppointsIff` | registry/src/sync/mod.rs:273-315 | An operator is known exactly with the endpoint of the last reported answer for it and no collateral; otherwise as before |
| `SyncSpec.SyncOnlyListsAll` | registry/src/sync/mod.rs:258-315 | Over sync-only histories the listing of validators drops no registration |
| `SyncSpec.RetainMembers` | registry/src/sync/mod.rs:259-271 | Retained are exactly the entries whose validator has a summary |
| `SyncSpec.RetainConcat` | registry/src/sync/mod.rs:259-271 | Retaining looks at each entry by itself and keeps the order |
| `SyncSpec.FirstIndexIff` | registry/src/sync/mod.rs:278-282 | The index found is that of the first summary about the key |
| `SyncSpec.RegistrationsAligned` | registry/src/sync/mod.rs:275-303 | Every retained entry yields one registration, with the index of its first summary, gas limit 10000, no expiry and no signature |
| `SyncSpec.OperatorsAt` | registry/src/sync/mod.rs:273-292 | The operator map holds exactly the signers of the retained entries, each with its last endpoint and no collateral |
| `SyncSpec.NothingDropped` | registry/src/db/memory.rs:122-134 | The listing is complete exactly when every registration's operator is known |
| `Syncer.Syncer.Spawn` | registry/src/sync/mod.rs:112-132 | From any stored state and any event stream, the database ends up as after handling the specified transitions in order; if the stored epoch is not ahead, the lookaheads newly passed on hold every duty of the epochs from it to one past the last, and no other; and the stored sync state is the syncer's own |
| `Syncer.Syncer.OnTransition` | registry/src/sync/mod.rs:135-186 | Passes on, in order, the duties of each epoch from the last one through the new one together with those of the epoch after it, with their effect on the database, stores block number, epoch and slot of the transition and reports synced; a transition behind the last epoch passes on none |
| `Syncer.Syncer.SyncEpochs` | registry/src/sync/mod.rs:166-176 | Goes through the states that syncing the duties of an epoch and the next leads through, up to and including the new epoch, or through none if that is behind |
| `Syncer.Syncer.SyncLookahead` | registry/src/sync/mod.rs:218-316 | Writes exactly the window's registrations and operators, and records the lookahead it was given |
| `Syncer.Syncer.RegisterOperators` | registry/src/sync/mod.rs:311-315 | Writing the operators in any order leaves the same map |
| `Syncer.Syncer.FinalizeSync` | registry/src/sync/mod.rs:190-203 | Fields and stored sync state agree when the channel turns synced |
| `Syncer.Convert` | registry/src/sync/mod.rs:273-303 | Looking up the index of a retained entry cannot fail |
| `Syncer.RetainActive` | registry/src/sync/mod.rs:259-271 | Keeps, in order, the entries that have a summary |
| `Syncer.PipelineIsOneCatchUp` | registry/src/sync/mod.rs:112-186 | From a stored epoch not ahead of the first transition, a whole noisy stream leaves the database as one catch-up to the highest epoch any event reached |
| `SyncProtocol.ReachableInvariant` | registry/src/sync/mod.rs:82-203 | From a new syncer on, with API actions at every point where the channel says synced and whatever transitions arrive, every reachable state satisfies the protocol's invariant |
| `SyncProtocol.ApiSeesSyncedStateIff` | registry/src/sync/mod.rs:44-118 | Whenever an API action can run, no transition is half done, and the stored sync state equals the syncer's exactly when it has been loaded or was zero to begin with |
| `SyncProtocol.ApiMayRunBeforeLoading` | registry/src/sync/mod.rs:86-118 | A restart on a database synced up to epoch 5, where an API action runs before the syncer knows |
| `SyncProtocol.ApiSeesNoEpochSkipped` | registry/src/sync/mod.rs:135-203 | Whenever an API action can run, with epochs in order from the loaded one, exactly the epochs from that to one past the last have had their duties synced |
| `SyncProtocol.EpochDistanceIsNaturalIff` | registry/src/sync/mod.rs:138 | With increasing epochs the distance to a new epoch underflows exactly for the first transition, and there exactly when the loaded epoch is ahead of it |
| `SyncProtocol.FinishIsAtomic` | registry/src/sync/mod.rs:153-203 | Handling a transition is atomic towards the API: it finishes in the state of one uninterrupted transition from where it began |

## Left out

- The HTTP API, its action channel, command line and main program: I/O around the modelled operations.
- The beacon node and keys API clients: their answers are arbitrary total functions; retrying is not modelled.
- The SQL database: its conflict rules live in Postgres and differ from the in-memory store.
- EigenLayerMiddlewareV1 and V2: near-copies of V3.
- Ownership, proxies, initialisers beyond the start time, address setters, events, AVS metadata and operator sets: one-line wrappers over contracts that are not part of this model.
- The middlewares' registration entry points: they check eligibility elsewhere and forward to the registry, where the sender check is modelled.
- Shares, delegators and vaults of EigenLayer and Symbiotic: arbitrary functions of operator, strategy or vault, and time; `getOperatorShares` is taken to answer strategy by strategy, and a call into them never reverts.
- Registry views `getOperator` and `isOperator`, and the whitelists' length and membership checks: lookups that add nothing to those modelled.
- Gas: a set may be too large for one cleanup transaction.
- Hashing, BLS keys and signatures: opaque values with equality; decoding a key never fails.
- The gap between `wait_for_sync` and the database call that follows: the code does not make the two atomic, and the model does.
- Plain listings of the in-memory database (registrations, operators) and its direct sync state update: no join and nothing to add to what is modelled.
- SymbioticMiddleware.StakeIsFirstRow: whether a delegator's current stake equals its stake at the epoch start is left open as a condition, because both are answers of contracts outside the repository.
- Lifecycle.StepRefinesIff: a cleanup may panic when the period of a pause in this epoch ends beyond 48 bits and somebody was paused in it; whether it does depends on the array's order, which the lifecycle does not have.
- ValidatorIndex.ValidatorsByIndexIff: takes a fixed assignment of distinct indices to validators, as the beacon chain gives it; IndexIsLastWrite takes none.
- ValidatorIndex.LookupIndexIff: takes the same fixed assignment.

# Blitzpool payout and mining core: Dafny verification

A Dafny 4.11 model of the parts of the pool that decide who is paid what and whether the bytes that
say so are the ones miners hashed. Loops, in-place record updates and caches of the source are
methods and classes; each is proved equal to a specification function or to a stated new state, and
the promises are proved about those, over every input and over whole runs.

## What is covered

- **Coinbase split and signed ledger.** `CoinbaseSplit` specifies `buildCoinbaseDistribution`
  phase by phase; `CoinbaseDistribution` has the loops over shared miner records and refines it.
  `CoinbaseShares` says who gets what, from the block's input alone; `CoinbaseTrim`, `Apportionment`
  and `CoinbaseGuarantees` prove what the split guarantees, `CoinbaseFallbacks` when it falls back,
  `CoinbaseDust` when an output is dust, `CoinbaseWeight` what the coinbase weighs, and
  `CoinbaseWitnesses` gives inputs that reach branches the source calls unreachable. `Ledger`,
  `PairSweep`, `DustSweep` and `LedgerRuns` add the pair sweep with failing transactions and state
  conservation over any interleaving of blocks and sweeps.
- **From payouts to outputs.** `CoinbaseOutputs` turns percentages back into sats; `BlockpartyPayout`
  is the other distribution builder.
- **Coinbase bytes.** `CoinbaseLayout`, `MerkleFold` and `MiningJob` model the coinbase script with
  its extranonce slot, the search in its hex string, and the job that reuses its own coinbase as
  scratch. `CoinbaseParsing` reads serialized transactions back, and `PaidJobs` follows both
  distributions into the bytes. `ExtendedCoinbase` is the SV2 extended path.
- **Blockparty.** `BlockpartyTables`, `BlockpartyEdits`, `BlockpartyService` and `BlockpartyRuns`: the
  lifecycle over group and member tables with its routing caches. `BlockpartyRules` says when each
  operation is accepted, and `BlockpartyBlocks` follows the percentages into the blocks.
- **Jobs and difficulty.** `SessionDifficulty` (SV1 retarget clamp), `ExtendedJobs`, `ExtendedChannel`
  and `ExtendedChannelRuns` (SV2 job tables shared by the pool's and clients' own jobs), `Vardiff`,
  `JobDeclaration`, `RoundReset`.
- **Snapshot.** `Decimals` and `CoinbaseSnapshot`.

`Sums`, `StableSorting`, `ByteStrings` and `Options` are shared helpers.

## Where the code and its comments differ

The model follows the code.

- `src/services/coinbase-distribution.ts:713-718` calls the clamp residual unreachable: credits 10,
  10, 10 with an overshoot of 29 reach it.
- `src/services/coinbase-distribution.ts:734-736` calls too little credit impossible: a trimmed
  active miner in credit reaches it, because its whole target is handed on while only kept miners
  are claimers.
- `src/services/coinbase-distribution.ts:806-809` calls a negative residuum impossible: in suppress
  mode the trimmed targets promised to the fee reach it.
- `src/services/coinbase-distribution.ts:428-431` says no output below the minimum payout is made:
  a solvency cut can leave one, under exactly the condition of `CoinbaseDust.NoDustIff`.
- `README.md:61` says the sum of all balances drifts by no more than the number of miners a block:
  true exactly for the blocks `LedgerRuns.DriftWithinMiners` describes; with nobody kept it grows by
  nearly the whole reward.
- `src/services/coinbase-distribution.ts:857-865` leaves out outputs that are not positive: with a fee
  above the reward some on-chain amount is negative, booked all the same, and no output carries it
  (`LedgerRuns.BlockAccountsIff`).
- `src/models/StratumV2Client.ts:205` numbers clients' own jobs from 1, as the pool's are, and one
  table holds both: a rejected pool job is active again once a client draws its id, and a client's job
  can be checked at a pool job's difficulty (`ExtendedChannelRuns.RejectedJobIsActiveAgain` and
  `CustomJobAtPoolDifficulty`).
- `src/models/JobDeclarationClient.ts:394-416` completes the pending declaration with whatever reply
  comes next; its log line that all raw transactions are stored counts them, no more
  (`JobDeclaration.LateReply`).
- `src/services/blockparty-distribution.ts:52-55` says the service layer enforces splits of 10000:
  only `transitionToConfirming` looks at the sum, and a party gets ready without it.
- `src/models/StratumV1ClientStatistics.ts:38-44` promises that no suggestion is below the floor:
  true exactly for the floors `Vardiff.NeverBelowFloorIff` describes.
- `src/services/blockparty.service.ts:644-652`: the comment above `onShareAccepted` lets a
  confirming party turn active; the code activates only ready ones.

## Model

| member | source | states |
|---|---|---|
| `CoinbaseDistribution.BuildCoinbaseDistribution` | src/services/coinbase-distribution.ts:409-882 | the six phases, updating `onChain` and `balanceNew` of shared records in place, return exactly `Distribution` of the input and the memoised weights; what that pays whom, from the input, is `CoinbaseShares.WhoGetsWhat`, and everything below is about it |
| `CoinbaseDistribution.OutputWeightCache.OutputWeightForAddress` | src/services/coinbase-distribution.ts:249-265 | the memo never changes an answer: the weight is 0 for no address, the type's weight, or the worst case when the address does not parse |
| `CoinbaseShares.WhoGetsWhat` | src/services/coinbase-distribution.ts:480-515 | from the input of any settled block: everyone who worked or has a balance has one row, with the floor of its part of what fee and bonus leave and its old balance; every on-chain amount item by item; every new balance, and which are written |
| `CoinbaseShares.SettleRowsItems` | src/services/coinbase-distribution.ts:613-805 | the items: kept miners' targets; the claims of trimmed workers and the rest of the reward, each divided among kept workers by their shares; what exceeds the reward, cut from kept credits by their size; nothing else, and in suppress mode nothing handed on or left |
| `CoinbaseShares.DividedWithinASat` | src/services/coinbase-distribution.ts:627-634 | whoever divides: each gets at least the floor of the amount times its weight over all weights, only one of the greatest weight more, by less than the number of those with a weight |
| `CoinbaseShares.PaidWhatIsDue` | src/services/coinbase-distribution.ts:823-882 | on every input and path every address is paid exactly fee and bonus where it is due them, and its own row's amount |
| `CoinbaseShares.ConsideredIff` | src/services/coinbase-distribution.ts:867-875 | an address is reported as considered exactly if it has shares or a balance entry |
| `CoinbaseFallbacks.NeverOverEmitsIff` | src/services/coinbase-distribution.ts:440-882 | on every input and every path, both modes and all fallbacks, the outputs exceed the block reward exactly when the fee alone does and, by the input, no fallback is taken: there is work, the credit suffices, the last claimer can bear its part, and nothing too large was promised to the fee |
| `CoinbaseFallbacks.SettledIff` | src/services/coinbase-distribution.ts:654-821 | miner outputs are built on exactly those inputs |
| `CoinbaseGuarantees.NeverOverEmits` | src/services/coinbase-distribution.ts:440-882 | with a fee of at most 100 % the coinbase never claims more than the block reward |
| `CoinbaseWitnesses.FeeAboveRewardOverEmits` | src/services/coinbase-distribution.ts:462-478 | a fee of 200 % beside a miner whose credit absorbs the shortfall over-emits, so the condition above is needed |
| `CoinbaseGuarantees.NoNegativeOutput` | src/services/coinbase-distribution.ts:834-865 | no output is negative, on any path |
| `CoinbaseGuarantees.DroppingLosesNothing` | src/services/coinbase-distribution.ts:857-865 | in a block with miner outputs no on-chain amount is negative, and leaving out the outputs that are not positive loses no sat, each exactly when the fee does not exceed the reward |
| `CoinbaseGuarantees.ExactEmission` | src/services/coinbase-distribution.ts:751-805 | with matching debits and a kept miner who worked, or in suppress mode with an emitted fee, a block with miner outputs adds up to exactly the reward exactly when the fee does not exceed it |
| `CoinbaseGuarantees.FinderBonusIsCapped` | src/services/coinbase-distribution.ts:467-478 | to the sat and from the input: the bonus is the configured amount or the most that leaves the others 5 % of what the fee leaves, and nothing exactly when that is less than 546 or the configured minimum |
| `CoinbaseGuarantees.MinersLargestFirst` | src/services/coinbase-distribution.ts:855-865 | behind fee and bonus the outputs come largest first |
| `CoinbaseDust.NoDustIff` | src/services/coinbase-distribution.ts:428-435 | every output is at least the minimum payout exactly unless a solvency cut leaves some claimer more than nothing but less than that, or nobody is paid and the whole reward, itself less, goes to the fee address: on every input and path |
| `CoinbaseDust.NoDust` | src/services/coinbase-distribution.ts:570-574 | so none is below it as long as the kept claims, with what trimmed miners hand on, fit the reward |
| `CoinbaseDust.MinersPaidIff` | src/services/coinbase-distribution.ts:834-881 | with neither fee nor bonus some miner has an output exactly when the reward is positive and someone was kept |
| `CoinbaseWitnesses.DustAfterCut` | src/services/coinbase-distribution.ts:428-435 | a solvency cut that leaves an output of 100 sats in the payouts, below the minimum of 546, contrary to the comment there |
| `CoinbaseGuarantees.WrittenIsConsidered` | src/services/coinbase-distribution.ts:867-875 | every balance that is written belongs to one of the addresses the distribution reports as considered |
| `CoinbaseGuarantees.FeeIsExact` | src/services/coinbase-distribution.ts:823-840 | with matching debits the first output is the fee address with the configured percentage of the reward, floored and never padded |
| `CoinbaseGuarantees.FeeTaken` | src/services/coinbase-distribution.ts:462-466 | the fee is the whole sats of the percentage, and nothing exactly without a fee address or when they are less than 546 or the configured minimum |
| `CoinbaseGuarantees.WorkIsNeverCut` | src/services/coinbase-distribution.ts:667-712 | a kept miner is paid at least its fair share less only a debt of its own |
| `CoinbaseGuarantees.CapFacts` | src/services/coinbase-distribution.ts:684-712 | the solvency cap takes from every kept miner between nothing and its own credit, from no one else anything, and from all together no more than the overshoot |
| `CoinbaseGuarantees.SolvencyCapFacts` | src/services/coinbase-distribution.ts:671-749 | a cap that succeeds leaves payments of exactly the reward, or untouched ones below it: never a partial cap |
| `Apportionment.CutsWithinCredit` | src/services/coinbase-distribution.ts:692-712 | each cut lies between 0 and the claimer's credit |
| `Apportionment.CapClosesGapIff` | src/services/coinbase-distribution.ts:692-719 | the cuts reach the overshoot exactly when the last claimer's credit bears what the other floors leave |
| `Apportionment.CapClosesGapWhen` | src/services/coinbase-distribution.ts:692-719 | they do with at most two claimers, a full claim, or a large enough largest credit: conditions to read off without computing the cuts |
| `CoinbaseFallbacks.ClampResidualIff` | src/services/coinbase-distribution.ts:713-732 | the clamp-residual fallback is taken exactly when the last claimer cannot bear its remainder |
| `CoinbaseWitnesses.ClampResidualReached` | src/services/coinbase-distribution.ts:713-732 | credits 10, 10, 10 and an overshoot of 29 reach it, contrary to the comment there |
| `CoinbaseFallbacks.ClampResidualDeadWhen` | src/services/coinbase-distribution.ts:713-732 | it is dead under the readable conditions, whatever was trimmed |
| `CoinbaseFallbacks.LastClaimerIsLargest` | src/services/coinbase-distribution.ts:676-686 | the last claimer, who absorbs the rounding, has the largest credit |
| `CoinbaseFallbacks.CreditBeyondOvershoot` | src/services/coinbase-distribution.ts:596-597 | what the claimers' credit exceeds the overshoot by: unspent fair shares plus kept debts, less the net credit of the trimmed workers that was handed on |
| `CoinbaseFallbacks.InsufficientCreditIff` | src/services/coinbase-distribution.ts:691-748 | the insufficient-credit fallback is taken exactly when that difference is negative: the net credit handed on exceeds unspent fair shares and kept debts |
| `CoinbaseFallbacks.CapIsFeasible` | src/services/coinbase-distribution.ts:733-748 | unless the fee alone exceeds the reward it is dead in suppress mode, and with matching debits as long as no trimmed miner with shares has a positive old balance |
| `CoinbaseWitnesses.InsufficientCreditReached` | src/services/coinbase-distribution.ts:733-748 | a trimmed active miner in credit reaches it, contrary to the comment there |
| `CoinbaseFallbacks.NegativeResiduumIff` | src/services/coinbase-distribution.ts:769-821 | the last fallback is dead with matching debits, and in suppress mode taken exactly when the cap can close and the trimmed targets promised to the fee do not fit beside the kept miners' payments |
| `CoinbaseWitnesses.NegativeResiduumReached` | src/services/coinbase-distribution.ts:806-821 | an input that reaches it, contrary to the comment there |
| `CoinbaseGuarantees.GroupBalancesStayNonNegative` | src/services/coinbase-distribution.ts:604-612 | with a fee that does not exceed the reward, in suppress mode non-negative balances stay non-negative on every path |
| `CoinbaseGuarantees.SuppressedBalances` | src/services/coinbase-distribution.ts:604-612 | with any fee: suppress mode writes no negative balance exactly unless it builds miner outputs and the fair share and old balance of some row add up to less than zero |
| `CoinbaseTrim.TrimRespectsBudget` | src/services/coinbase-distribution.ts:535-561 | if the fixed weight fits, kept outputs and fixed weight stay 200 below the budget, which is 50000 when unset; if not, nobody is kept; no trimmed miner would still fit |
| `CoinbaseTrim.KeptIff` | src/services/coinbase-distribution.ts:535-561 | exactly who is kept: from the largest target down, whoever is due the minimum payout and fits 200 below the budget beside the fixed part and everyone kept before; whoever is due it and does not fit is trimmed |
| `CoinbaseWeight.KindWeightIsBytes` | src/services/coinbase-distribution.ts:209-231 | the weight table is four times the bytes of an output of each kind of script |
| `CoinbaseWeight.ClassifiedIsBudgeted` | src/services/coinbase-distribution.ts:249-265 | so no output weighs more than the memoised weight of its address, when that is of the kind its script says |
| `CoinbaseWeight.CoinbaseWithinBudget` | src/services/coinbase-distribution.ts:426-427 | the coinbase that is serialized from a distribution weighs no more than the configured budget, as long as its fee and bonus fit, no script is longer than its address was budgeted for, and job script and output count take at most 73 bytes; beyond that four more for every byte |
| `CoinbaseTrim.HeavierWhenPassedOver` | src/services/coinbase-distribution.ts:546-561 | a trimmed miner with a larger target than a kept one has a heavier output |
| `Apportionment.ShareOutIsExact` | src/services/coinbase-distribution.ts:617-634 | proportional floors plus the tail add up to exactly the amount handed out, and none is negative |
| `Apportionment.ShareOutTail` | src/services/coinbase-distribution.ts:627-634 | everyone gets the floor of the proportional share; only a largest recipient gets more, by less than the number of recipients |
| `StableSorting.SortIsStableSort` | src/services/coinbase-distribution.ts:546-548 | the order used for every sort is a permutation of the positions, ascending by key, equal keys in their old order |
| `LedgerRuns.BlockIdentity` | src/services/coinbase-distribution.ts:480-515 | for every address fair share plus old balance equals proportional on-chain sats plus new balance, plus the on-chain amount where that is negative and no output carries it; fallbacks and blocks without shares change nothing |
| `LedgerRuns.BlockAccountsIff` | src/services/coinbase-distribution.ts:857-875 | so earned is paid plus owed for all addresses exactly when the fee does not exceed the reward or no miner output is built |
| `LedgerRuns.StaleBlockIdentity` | src/services/pplns.service.ts:706-733 | a block built on one ledger and booked on a later one, where it drops no negative amount, keeps the identity of an address exactly when it does not write it or its balance is what it was; otherwise it is off by what happened to the balance in between |
| `LedgerRuns.StaleLedgerIdentity` | src/services/pplns.service.ts:863-880 | over any interleaving of blocks and pair sweeps, whatever the fees and with blocks booked whenever after they were built, for every address: initial balance plus all earned equals all paid, plus the current balance, plus what was pair-cancelled, plus what stale bookings overwrote, plus the negative amounts no output carried |
| `LedgerRuns.LedgerIdentity` | src/services/coinbase-distribution.ts:857-875 | for an address that every booking that writes it finds at the balance its block was built on: earned is paid plus owed over the run exactly when no block computes a negative amount for it |
| `LedgerRuns.FeesWithinRewards` | src/services/coinbase-distribution.ts:462-466 | which none does as long as no fee exceeds its block's reward |
| `LedgerRuns.DriftWithinMiners` | README.md:61-61 | on every block and path: the sum of all balances moves by at most the number of active miners, up or down, exactly when a fallback is taken, or a kept miner who worked takes the residuum, or the kept targets fall short of the fair shares by at most that number |
| `LedgerRuns.RunDrift` | README.md:61-61 | over any run of sweeps and of such blocks, booked on the ledger they were built on, the sum drifts by at most one sat for every active miner of every block |
| `LedgerRuns.BlockDrift` | src/services/coinbase-distribution.ts:766-805 | by how much a settled block moves the sum of all balances, in both modes: by more than minus the number of active miners, and never upwards exactly if a kept miner who worked takes the residuum or the kept targets come to all the fair shares |
| `LedgerRuns.NobodyKeptGrows` | README.md:61-61 | with matching debits and nobody kept the sum grows by all the fair shares as long as the fee does not exceed the reward, and a larger fee falls back: the bound of the documentation needs its condition |
| `LedgerRuns.BoundedDrift` | README.md:61-61 | over any run of sweeps and of blocks that do not move it upwards, the sum of all balances never grows and falls by no more than the accumulated rounding |
| `LedgerRuns.SweepEffect` | src/services/dust-sweep.service.ts:252-341 | with any pattern of failing transactions a sweep preserves the sum of balances, never flips a sign or grows a balance, and an address's audit rows add up to what its balance shrank by |
| `Ledger.CancelAllEffect` | src/services/dust-sweep.service.ts:296-305 | the same for any list of pairs that cancel real credit against real debit |
| `PairSweep.SweepOnlyCancels` | src/services/dust-sweep.service.ts:252-341 | whatever fails, every committed pair cancels an open credit against an open debit, neither beyond zero |
| `PairSweep.SweepExhaustsOneSide` | src/services/dust-sweep.service.ts:252-341 | without failures the paired sats are the smaller of what the two given sides hold |
| `PairSweep.TriesInOrder` | src/services/dust-sweep.service.ts:252-341 | the pairs tried go through both sides from the front: after a failure one further on both, otherwise one further on at least one |
| `PairSweep.EachPairClosesOne` | src/services/dust-sweep.service.ts:256-271 | every committed pair cancels all that the smaller of its two rows has left |
| `PairSweep.CommittedUnlessFailed` | src/services/dust-sweep.service.ts:274-327 | a pair is committed exactly when its transaction does not fail |
| `DustSweep.CreditSideHolds` | src/services/dust-sweep.service.ts:233-235 | the credit side holds exactly the dormant addresses with a positive balance, largest first |
| `DustSweep.DebitSideHolds` | src/services/dust-sweep.service.ts:236-238 | the debit side exactly those with a negative one, most negative first |
| `DustSweep.SweepClosesASide` | src/services/dust-sweep.service.ts:252-341 | whatever fails, on one of the two sides every address is closed afterwards or was in a pair that failed |
| `PairSweep.HeightsDecrease` | src/services/dust-sweep.service.ts:187-198 | audit heights strictly decrease, whatever the clock does |
| `DustSweep.DustSweepService.SweepBlockHeight` | src/services/dust-sweep.service.ts:187-198 | the height drawn and kept: the negative of the clock's whole seconds, or one below the last height when the clock has not passed it |
| `DustSweep.DustSweepService.PairTransaction` | src/services/dust-sweep.service.ts:274-327 | all four writes of a pair or none |
| `DustSweep.DustSweepService.PairStep` | src/services/dust-sweep.service.ts:252-341 | one round of the two-pointer loop keeps the in-memory rows, the table, the audit rows and the remaining attempts in step |
| `DustSweep.DustSweepService.SweepPplnsPairs` | src/services/dust-sweep.service.ts:223-353 | the in-place loop makes exactly the specified attempts and leaves the ledger with the committed pairs cancelled; on the old table itself: without failures the paired sats are the smaller of all positive and all negative balances of dormant addresses, and one side is closed but for failed pairs; the total stays; the new audit rows are two for every pair, at one height, and show for every address what its balance shrank by; no two rows ever share height and address |
| `DustSweep.AuditRowsUnique` | src/services/dust-sweep.service.ts:267-294 | the two rows of a pair differ in address, rows of different pairs in height |
| `CoinbaseOutputs.CreateOutputs` | src/models/MiningJob.ts:270-298 | one output per recipient at the floored percentage; the first takes what is left; without recipients the method throws |
| `CoinbaseOutputs.OutputAt` | src/models/MiningJob.ts:279-291 | every output but the first has the whole sats of its recipient's percentage, all have their recipient's script |
| `CoinbaseOutputs.OutputsTotalTheReward` | src/models/MiningJob.ts:279-291 | the outputs add up to exactly the reward, whatever the percentages |
| `CoinbaseOutputs.PayoutsBecomeOutputs` | src/models/MiningJob.ts:282-291 | output i > 0 is the i-th payout to the sat; only output 0 absorbs a difference |
| `CoinbaseOutputs.DistributionBecomesCoinbase` | src/services/coinbase-distribution.ts:834-865 | a distribution turned into percentages and back into a coinbase pays every payout its sats; with a fee of at most 100 % the first output is never below its payout |
| `BlockpartyPayout.BuildBlockpartyDistribution` | src/services/blockparty-distribution.ts:59-110 | the split, in place of the loop that builds the payouts, equals the specified distribution; what that pays every address, from the members, is `PartyPaysWhatIsDue` |
| `BlockpartyPayout.PartyPaysWhatIsDue` | src/services/blockparty-distribution.ts:76-109 | every address is paid the floor of the miner cut times its own percentage, or nothing where that is below the dust threshold, and the fee address besides what the members leave of the reward |
| `BlockpartyPayout.DueToOne` | src/services/blockparty-distribution.ts:80-86 | where addresses are distinct that is each member's own part alone |
| `BlockpartyPayout.PoolGetsTheRest` | src/services/blockparty-distribution.ts:76-92 | the base fee is the floored percentage, and the pool fee what the members do not get of the reward |
| `BlockpartyPayout.PartyEmitsExactlyIff` | src/services/blockparty-distribution.ts:91-109 | the outputs exceed the reward exactly when the floored shares of the untrimmed members do, and are exactly the reward unless they do or what they leave has no fee address to go to |
| `BlockpartyPayout.PercentagesDecideEmission` | src/services/blockparty-distribution.ts:76-92 | by percentages: never above the reward while the untrimmed ones claim no more of the miner cut than the reward, always above it when they claim a sat per member more |
| `BlockpartyPayout.OverfullParty` | src/services/blockparty-distribution.ts:91-109 | a party owed more than the reward pays no pool fee, and the first output of its coinbase is short by the whole excess |
| `BlockpartyPayout.OverfullPartyBuildable` | src/models/MiningJob.ts:282-291 | all outputs of such a coinbase are at least zero, as building a job requires, exactly when the first payout can bear the excess |
| `BlockpartyPayout.SmallAdminUnbuildable` | src/models/MiningJob.ts:282-291 | it cannot with splits of 1 %, 100 % and 100 % in this order: the first output is negative |
| `BlockpartyPayout.PoolFeeNeverBelowBase` | src/services/blockparty-distribution.ts:76-92 | with splits of at most 100 % and a fee between 0 and 100 % the pool fee is at least the base fee, and with a fee address the outputs are exactly the reward |
| `BlockpartyPayout.PoolKeepsOnlyDustAndRounding` | src/services/blockparty-distribution.ts:80-92 | with splits of 100 % the pool gets the base fee, the trimmed shares, and less than one sat per member |
| `BlockpartyPayout.PartyBecomesCoinbase` | src/models/MiningJob.ts:282-291 | a validated party's coinbase pays every payout to the sat, the first one included, and every member with something due has an output of its own with exactly that |
| `CoinbaseLayout.ScriptNumberRoundTrip` | src/models/MiningJob.ts:61-66 | the height encoding loses nothing |
| `CoinbaseLayout.JobScriptShape` | src/models/MiningJob.ts:68-92 | the script with or without the identifier, between 16 and 100 bytes |
| `CoinbaseLayout.JobScriptReadsAs` | src/models/MiningJob.ts:61-92 | the script is read back: the height as one minimal positive number, then the identifier exactly if script and block stay within 100 bytes and 4000000 weight units, then zeros up to 16 bytes more than the identifier |
| `CoinbaseParsing.SerializedReadsBack` | src/models/MiningJob.ts:94-101 | a parser of the transaction format reads the serialized coinbase back as its script and its outputs, each value and script in order, and nothing left over |
| `CoinbaseLayout.NoEarlierMatch` | src/models/MiningJob.ts:94-101 | no hex digit position in front of the script reads like the script |
| `CoinbaseLayout.ScriptIsFoundWhereItIs` | src/models/MiningJob.ts:94-101 | so `indexOf` on the hex strings finds the script at byte 42 |
| `CoinbaseLayout.SlotIsPaddingIff` | src/models/MiningJob.ts:68-77 | the last 12 bytes are all padding exactly up to height 0x7fffff, or when the byte in front of the padding happens to be 0 |
| `MiningJob.Job.constructor` | src/models/MiningJob.ts:36-108 | the two halves are the serialized coinbase around its last 12 script bytes; the script says height and identifier; the bytes read back as the built outputs with the commitment behind them, which add up to the reward |
| `MiningJob.Job.CoinbaseReadsBack` | src/models/MiningJob.ts:110-127 | and so they do for the life of the job, whatever was written over the slot |
| `PaidJobs.JobOfDistribution` | src/models/MiningJob.ts:270-298 | from a distribution to bytes: the job's serialized coinbase reads back as every payout to its own script, what the payouts leave of the reward on the first, the commitment, and nothing else |
| `PaidJobs.JobOfParty` | src/models/MiningJob.ts:270-298 | the same for a validated party, every payout to the sat |
| `MiningJob.HeaderReadsBack` | src/models/MiningJob.ts:186-204 | all six fields of the 80 bytes are read back from their places |
| `MiningJob.RolledBits` | src/models/MiningJob.ts:182-185 | rolling flips exactly the bits of the mask |
| `MiningJob.Job.ApplyExtranonceAndGetCoinbaseHash` | src/models/MiningJob.ts:137-147 | for extranonces of any length on any scratch, the coinbase is the miner's part 1 + extranonces + part 2 exactly when they fill 12 bytes and the script in front of the old slot is the one the miners were given; a clean scratch stays clean exactly when they fill them |
| `MiningJob.Job.ComputeShareHeader` | src/models/MiningJob.ts:171-204 | the 80 header bytes of the coinbase just written, with that condition for its being the miner's |
| `MiningJob.Job.ComputeShareMerkleRoot` | src/models/MiningJob.ts:212-219 | the same for the merkle root |
| `MiningJob.Job.CopyAndUpdateBlock` | src/models/MiningJob.ts:221-251 | the same for the block: its header and merkle root are those of the coinbase it holds, which is the job's own object |
| `MiningJob.Job.ValidateThenBuild` | src/models/MiningJob.ts:149-170 | header checked and header of the block built from the same submission are the same 80 bytes when it fills the slot, whatever the scratch held; on a clean scratch the block carries the checked coinbase, and the checked one is the miner's, exactly when it does |
| `MiningJob.Job.ShareAfterBlock` | src/models/MiningJob.ts:221-251 | a later share leaves a found block's header but rewrites its coinbase, unless the extranonces are the same |
| `MiningJob.BuildAll` | src/models/MiningJob.ts:137-251 | over any sequence of header, merkle-root and block builds with extranonces of any length, from any scratch: what each is built on, exactly |
| `MiningJob.AllHonestIffAllFill` | src/models/MiningJob.ts:137-251 | from a clean start all are built on their miners' bytes exactly when every one fills 12 bytes: the scratch never drifts, and none is disturbed before the first that does not |
| `MiningJob.DisturbedAfterWrong` | src/models/MiningJob.ts:137-251 | after one wrong length, which the submit check lets through, no share of the right length is built on its miner's bytes |
| `MerkleFold.CalculateMerkleRootHash` | src/models/MiningJob.ts:254-267 | the loop over the reused 64-byte buffer is the fold of the branch |
| `MerkleFold.FoldSnoc` | src/models/MiningJob.ts:254-267 | no branch leaves the leaf; each sibling is hashed behind what those before it led to |
| `MerkleFold.ParentAt` | src/services/stratum-v1-jobs.service.ts:154-162 | node m of the next level is the hash of nodes 2 m and 2 m + 1, or of a last one twice |
| `MerkleFold.FoldIsMerkleRoot` | src/services/stratum-v1-jobs.service.ts:154-162 | the branch computed once beside a placeholder coinbase leads any coinbase hash to the merkle root of the block that has it |
| `ExtendedCoinbase.PatchCoinbasePrefixVarint` | src/utils/coinbase-prefix.utils.ts:13-21 | only byte 41 differs, by the extranonce bytes over or under 12, where one byte can say it; the caller's buffer is never written |
| `ExtendedCoinbase.AgreesIff` | src/utils/coinbase-prefix.utils.ts:13-21 | patched prefix, extranonce and suffix are the serialized coinbase, and byte 41 is its script length, exactly when one byte can say the length |
| `ExtendedCoinbase.ShareHeader` | src/models/StratumV2Client.ts:1534-1557 | root and 80 header bytes of an extended share |
| `ExtendedCoinbase.RebuiltCoinbase` | src/models/StratumV2Client.ts:1634-1644 | on any scratch of the job the cloned coinbase with the share's extranonce is the hashed one exactly when the clone's front is the head that was sent and one byte can say the script's length |
| `ExtendedCoinbase.ReconstructExtendedBlock` | src/models/StratumV2Client.ts:1623-1656 | the rebuilt block on a clone of the job's coinbase, of a script of any length |
| `ExtendedCoinbase.ClonedFrontLength` | src/models/StratumV2Client.ts:1638-1644 | what the clone keeps of a script: all but its last 12 bytes; of 6 to 11 bytes, twice their number less 12, as a negative end counts from the back |
| `ExtendedCoinbase.ShareToBlock` | src/models/StratumV2Client.ts:1525-1584 | for a job whose coinbase was cut at the slot, whatever its scratch holds now: the rebuilt block's coinbase is the hashed one, so that its merkle root is right, exactly when the scratch still has the head and one byte can say the length, which it can up to 12 extranonce bytes; the header is the checked one exactly when the job kept the template's previous hash and bits |
| `ExtendedCoinbase.BuildsThenBlock` | src/models/StratumV1Client.ts:1037-1055 | with any submissions of other sessions built on the same job before: the block has the hashed coinbase after ones that all fill the slot, and has not after one of another length, unless that left the script shorter than 12 bytes |
| `BlockpartyService.BlockpartyService.GetRoutableGroupIdForAdmin` | src/services/blockparty.service.ts:180-193 | answered from the cache, the routable party is the one the group table has ready or active for that admin, and none otherwise |
| `BlockpartyService.BlockpartyService.GetPendingPartyFeeRoute` | src/services/blockparty.service.ts:234-242 | the fee route applies exactly when the group table has a draft or confirming party for that admin |
| `BlockpartyService.BlockpartyService.GetGroupIdForAddress` | src/services/blockparty.service.ts:162-164 | exactly the members of live parties are found |
| `BlockpartyService.BlockpartyService.RebuildCache` | src/services/blockparty.service.ts:106-124 | both caches agree with the tables |
| `BlockpartyService.BlockpartyService.RecomputeStatus` | src/services/blockparty.service.ts:842-861 | confirming or ready by the members' confirmations, cache written only on a change |
| `BlockpartyService.BlockpartyService.CreateGroup` | src/services/blockparty.service.ts:253-311 | new draft with its admin, or the first refusal that applies and no change; the invariant is kept |
| `BlockpartyService.BlockpartyService.AddMember` | src/services/blockparty.service.ts:313-384 | an unconfirmed member and a confirming party, whatever editable status it had; refusals; the invariant is kept |
| `BlockpartyService.BlockpartyService.RemoveMember` | src/services/blockparty.service.ts:386-405 | the member goes and the status is recomputed; refusals; the invariant is kept |
| `BlockpartyService.BlockpartyService.UpdateSplits` | src/services/blockparty.service.ts:415-468 | on the updates themselves: done exactly for an editable party, well-formed updates and members only, and refused as not-member exactly when an otherwise good update names someone else; the last update of an address decides its percentage, unnamed members keep theirs, the admin is re-confirmed and everyone else reset; the invariant is kept |
| `BlockpartyService.EditsAreLast` | src/services/blockparty.service.ts:441-452 | the edits are those of exactly the named addresses, each by the last update that names it |
| `BlockpartyRules.AdminTokenNeeded` | src/services/blockparty.service.ts:146-160 | the admin's operations pass exactly with a token whose hash is the party's, and edits exactly while it is neither active nor dissolved |
| `BlockpartyRules.StatusKinds` | src/services/blockparty.service.ts:180-193 | which statuses can be edited, are routed, and still pay the pool |
| `BlockpartyRules.SplitsAreShares` | src/services/blockparty.service.ts:690-702 | a party's splits are the percentages of exactly its members |
| `BlockpartyRules.CreatedWhen` | src/services/blockparty.service.ts:253-290 | when a party is created, from the arguments and the tables alone |
| `BlockpartyRules.NameRule` | src/services/blockparty.service.ts:259-265 | a trimmed name has 3 to 64 characters, none of them a control character |
| `BlockpartyRules.AddedWhen` | src/services/blockparty.service.ts:313-366 | when a member is added |
| `BlockpartyRules.AddRefusedWhy` | src/services/blockparty.service.ts:318-366 | and why not: the admin's own address, a percentage out of range, an address placed already, and an unverified mail, each exactly when nothing before it applies |
| `BlockpartyRules.RemovedWhen` | src/services/blockparty.service.ts:386-398 | when one is removed |
| `BlockpartyRules.ConfirmedWhen` | src/services/blockparty.service.ts:535-541 | when a member's token confirms |
| `BlockpartyRules.TransitionedWhen` | src/services/blockparty.service.ts:595-609 | when the transition passes |
| `BlockpartyRules.DissolvedWhen` | src/services/blockparty.service.ts:618-634 | when a party is dissolved: an active one not within 604800000 ms of its last share |
| `BlockpartyRules.RecomputedStatus` | src/services/blockparty.service.ts:842-861 | recomputing turns a confirming or ready party ready exactly if every member has confirmed, and changes nothing else |
| `BlockpartyRules.ActivatedByShare` | src/services/blockparty.service.ts:653-681 | a share dates the party and makes a ready one active, with its splits and consents on record |
| `BlockpartyService.BlockpartyService.ResetMemberOnboarding` | src/services/blockparty.service.ts:489-502 | confirmation and token forgotten in any status; the invariant is kept |
| `BlockpartyService.BlockpartyService.MarkMemberConfirmed` | src/services/blockparty.service.ts:504-527 | confirms at the current percentage and mints a token when there is none |
| `BlockpartyService.BlockpartyService.ConfirmAsMember` | src/services/blockparty.service.ts:535-547 | confirms at the current percentage with the member token; a second time nothing |
| `BlockpartyService.BlockpartyService.TransitionToConfirming` | src/services/blockparty.service.ts:595-616 | only with splits of exactly 10000; a draft goes to ready if every member has confirmed, otherwise to confirming |
| `BlockpartyService.BlockpartyService.DissolveGroup` | src/services/blockparty.service.ts:618-642 | refused exactly while an active party's last share is less than seven days old |
| `BlockpartyService.BlockpartyService.OnShareAccepted` | src/services/blockparty.service.ts:653-681 | the live party of that admin gets the share's time, and from ready turns active, its splits frozen |
| `BlockpartyRuns.PartyInvariant` | src/services/blockparty.service.ts:836-861 | in every reachable state: confirming has someone unconfirmed, ready everyone confirmed at the percentage that stands, active its frozen splits |
| `BlockpartyRuns.Run` | src/services/blockparty.service.ts:653-681 | over any run, under any clock: the invariant, so routing agrees with the tables; no party's membership or percentages change once active; everyone else in it had agreed to exactly them; dissolved from active means seven days of silence |
| `BlockpartyRuns.Apply` | src/services/blockparty.service.ts:313-468 | any operation is refused, or moves the sum of every party's percentages by exactly what it adds, removes or edits; confirmations, transitions, shares and restarts move none |
| `BlockpartyRuns.LastConfirmation` | src/services/blockparty.service.ts:504-527 | a confirmation makes a confirming party ready exactly when everyone else has confirmed, at whatever sum it has |
| `BlockpartyRuns.ReadyWithoutFullSum` | src/services/blockparty.service.ts:368-383 | for any two accepted percentages a party with exactly them gets ready: a sum of 10000 is no invariant of ready |
| `BlockpartyRuns.OverfullPartyIsRouted` | src/services/blockparty-distribution.ts:52-55 | a party of 50 % and 90 % is routed, and its block over-emits: no pool fee output, the coinbase's first output short by the excess |
| `BlockpartyBlocks.ResplitTotal` | src/services/blockparty.service.ts:415-468 | new splits change the party's sum by what the edits add and leave other parties alone |
| `BlockpartyBlocks.AddedTotal` | src/services/blockparty.service.ts:368-383 | a new member adds its percentage to its party's sum alone |
| `BlockpartyBlocks.RemovedTotal` | src/services/blockparty.service.ts:386-405 | a removed one takes it away |
| `BlockpartyBlocks.ValidatedPartyBlock` | src/services/blockparty.service.ts:690-702 | with a sum of at most 10000 a party's block pays every payout and exactly the reward, and every member its own part of the miner cut in an output of its own, in whatever order its rows are listed |
| `BlockpartyBlocks.OverfullPartyBlock` | src/services/blockparty.service.ts:690-702 | with nobody trimmed and a sum that claims a sat per member more than the reward it over-emits |
| `BlockpartyRuns.ActiveWithUnconfirmed` | src/services/blockparty.service.ts:489-502 | a reset leaves an active party with an unconfirmed member and the same splits |
| `SessionDifficulty.Session.ChangeDifficulty` | src/models/StratumV1Client.ts:1501-1512 | the boundary moves to the next job id exactly when the difficulty changes |
| `SessionDifficulty.Session.SuggestDifficulty` | src/models/StratumV1Client.ts:616-642 | honoured once, never below the port's floor |
| `SessionDifficulty.Session.CheckDifficulty` | src/models/StratumV1Client.ts:1494-1549 | a retarget and the job sent after it |
| `SessionDifficulty.Session.HandleSubmission` | src/models/StratumV1Client.ts:1184-1201 | a share is checked and credited at one difficulty; on a job of this session exactly the issue difficulty when nothing changed since, and never more than it exactly if at most one change came since or one of the last two difficulties is no more than it; below the boundary never above the difficulty before the change, elsewhere at the session's |
| `SessionDifficulty.Session.CheckedAtMostIssueDifficulty` | src/models/StratumV1Client.ts:67-80 | every issued job: exactly at its issue difficulty when nothing changed since, at the lower of it and the current one after one change, and at no more than it under exactly that condition |
| `SessionDifficulty.Run` | src/models/StratumV1Client.ts:1184-1189 | over any run of jobs, suggestions and retargets, with other sessions drawing ids: every job issued before or during it stays on record exactly as issued, nothing else does, and each is checked as above |
| `SessionDifficulty.TwoChangesLater` | src/models/StratumV1Client.ts:67-80 | two changes later the condition can fail: issued at 1000, checked at 4000 |
| `ExtendedChannel.Channel.CheckedAtSendDifficulty` | src/models/StratumV2Client.ts:1485-1485 | an id under which the pool sent a job since the last block change is checked at that job's send-time difficulty, whatever retargets came between and whosever job it names by now; any other, a client's own job among them, at the current one |
| `ExtendedChannel.Channel.SendNewExtendedJob` | src/models/StratumV2Client.ts:1427-1447 | records difficulty and job at send time, in place of whatever the table holds under that id |
| `ExtendedChannel.Channel.HandleSetCustomMiningJob` | src/models/StratumV2Client.ts:2020-2033 | a client's own job goes into the same table, in place of whatever is there, with no difficulty recorded |
| `ExtendedChannel.Channel.ClearJobs` | src/models/StratumV2Client.ts:2662-2690 | stamps every known job not yet retired with the time, and no other, and forgets the difficulties |
| `ExtendedChannel.Channel.CleanupRetiredExtendedJobs` | src/models/StratumV2Client.ts:2715-2738 | the deleting loop leaves exactly the jobs the aging rule keeps |
| `ExtendedJobs.OnlyExpiredAreDeleted` | src/models/StratumV2Client.ts:2727-2736 | no job is deleted that is not past the retention |
| `ExtendedJobs.NewestAreKept` | src/models/StratumV2Client.ts:2720-2725 | the three newest are never deleted |
| `ExtendedJobs.OlderGoFirst` | src/models/StratumV2Client.ts:2722-2736 | a deleted job is past the retention and no newer than the three that stay |
| `ExtendedJobs.DeletedIff` | src/models/StratumV2Client.ts:2715-2738 | a job is deleted exactly when at least three are newer, or as new and further in front, and it is past the retention since it retired or past twice that since its creation |
| `ExtendedChannel.Channel.NeverUnknownWithinGrace` | src/models/StratumV2Client.ts:2740-2757 | younger than twice the retention and within the grace window a job is never unknown |
| `ExtendedChannel.Channel.CreditableExactlyWithinGrace` | src/models/StratumV2Client.ts:2754-2757 | a known job is active exactly until it is retired, and creditable exactly from then to the end of the grace window |
| `ExtendedChannelRuns.Apply` | src/models/StratumV2Client.ts:1939-2034 | one send, custom job, retarget, block change or cleanup: an id's job is at an earlier stage of its life afterwards exactly when the id was drawn while a job known under it was no longer active |
| `ExtendedChannelRuns.Run` | src/models/StratumV2Client.ts:2662-2757 | over any run with a clock that does not go back, clients' jobs included: every step sends ids back exactly so, ids never revived go active, creditable, rejected, unknown and never back, no send-time difficulty is rewritten, and below the wrap of their counter each of the two counters draws an id once |
| `ExtendedChannelRuns.AfterDrawsWraps` | src/models/StratumV2Client.ts:2021-2022 | the clients' counter runs from 1 to 0xFFFFFFFF and around |
| `ExtendedChannelRuns.RevivedByTheOther` | src/models/StratumV2Client.ts:205-205 | so an id goes back only when it is drawn by one counter while the other's job under it is no longer active, until the clients' counter wraps |
| `ExtendedChannelRuns.AgedUnlessRevived` | src/models/StratumV2Client.ts:2740-2757 | at every point of such a run |
| `ExtendedChannelRuns.RejectedJobIsActiveAgain` | src/models/StratumV2Client.ts:1939-2034 | pool job 1, rejected after a block change, is active again after the client's first custom job |
| `ExtendedChannelRuns.CustomJobAtPoolDifficulty` | src/models/StratumV2Client.ts:1485-1485 | a custom job under the id of a pool job of the same block is checked at that job's 1000, not at the session's 8000 |
| `Vardiff.Statistics.UpdateSubmissionCache` | src/models/StratumV1ClientStatistics.ts:103-122 | the shifting loops leave the specified window |
| `Vardiff.PushedIsSuffix` | src/models/StratumV1ClientStatistics.ts:103-122 | the window is what is left once all leading entries of over 300 s ago are gone, and one more if 30 are left, with the new one behind |
| `Vardiff.PushedIsWindowed` | src/models/StratumV1ClientStatistics.ts:103-122 | at most 30 entries, none more than 300 s before the newest, with a clock that does not go back |
| `Vardiff.RecentIsKept` | src/models/StratumV1ClientStatistics.ts:103-122 | a submission of the last 300 s is dropped only from a full window, and then only the oldest |
| `Vardiff.FloorLog2Brackets` | src/models/StratumV1ClientStatistics.ts:167-168 | the exponent is that of the largest power of two not above the value |
| `Vardiff.StepWithinAQuarter` | src/models/StratumV1ClientStatistics.ts:159-181 | at or above the floor the step is within a quarter of the target |
| `Vardiff.NoStepIsNearer` | src/models/StratumV1ClientStatistics.ts:172-181 | no power of two, or one and a half times one, is nearer; of two equally near it is the lower |
| `Vardiff.FloorBelow` | src/models/StratumV1ClientStatistics.ts:163-165 | a target below the floor gives the floor, and only no target no step |
| `Vardiff.Statistics.TargetMatchesWork` | src/models/StratumV1ClientStatistics.ts:138-146 | the measured target: as many shares of it as are wanted over the window make up the work done in it; none before five submissions or without time between them |
| `Vardiff.Statistics.SuggestedWhen` | src/models/StratumV1ClientStatistics.ts:128-155 | a suggestion is made after a minute of few submissions, by the client's difficulty over the wanted rate, and otherwise exactly when it is off from the target by more than a factor of 2 |
| `Vardiff.NeverBelowFloorIff` | src/models/StratumV1ClientStatistics.ts:163-165 | no suggestion falls below the floor exactly for floors L, in (1.25 L, 1.5 L], or above 1.75 L, where L is the power of two below: the promise of the comment at lines 38-44, with its condition |
| `Vardiff.StepsAreSafeFloors` | src/models/StratumV1ClientStatistics.ts:163-165 | powers of two and one and a half times those are such floors |
| `Vardiff.Statistics.SuggestionIsStable` | src/models/StratumV1ClientStatistics.ts:128-155 | once a measured suggestion is applied the same measurement suggests no other |
| `Vardiff.Statistics.SuggestionFollowsTarget` | src/models/StratumV1ClientStatistics.ts:138-152 | a measured suggestion is within a quarter of the measured target, or the floor above it |
| `Decimals.ParseShown` | src/services/coinbase-snapshot.ts:130-133 | every integer survives being written and read |
| `Decimals.ParseIgnoresRest` | src/services/coinbase-snapshot.ts:130-133 | as `parseInt` does, reading ignores whatever stands behind the digits |
| `Decimals.ParseSigned` | src/services/coinbase-snapshot.ts:130-133 | one sign may stand in front |
| `Decimals.ParsesIff` | src/services/coinbase-snapshot.ts:130-133 | there is a number exactly with a digit in front or right behind one sign |
| `CoinbaseSnapshot.NamesInjective` | src/services/coinbase-snapshot.ts:59-75 | no two fields share a name, whatever kind and index |
| `CoinbaseSnapshot.StoredNames` | src/services/coinbase-snapshot.ts:59-75 | the names of the fields as the store knows them |
| `CoinbaseSnapshot.SnapshotFields` | src/services/coinbase-snapshot.ts:59-75 | the loops write every field its value under its name |
| `CoinbaseSnapshot.ParseHashSnapshot` | src/services/coinbase-snapshot.ts:130-154 | the reading loops compute the parsed snapshot |
| `CoinbaseSnapshot.ParsedWhen` | src/services/coinbase-snapshot.ts:130-136 | nothing is read exactly when the number of payouts is missing, not a number, or negative |
| `CoinbaseSnapshot.MapOfLast` | src/services/coinbase-snapshot.ts:144-147 | of repeated addresses the last balance counts |
| `CoinbaseSnapshot.AddressesRoundTripIff` | src/services/coinbase-snapshot.ts:149-151 | the considered addresses survive exactly when none is empty or contains the separator |
| `CoinbaseSnapshot.SnapshotRoundTrip` | src/services/coinbase-snapshot.ts:130-154 | a written snapshot is read back whole: addresses and sats of all payouts in order, the reward, the balances; the percentages exactly when their texts read back as them, the considered addresses exactly when none is empty or has the separator |
| `CoinbaseSnapshot.WriteStoredSnapshot` | src/services/coinbase-snapshot.ts:53-82 | whatever the key held, text of an older release included, it then holds this snapshot; other keys are untouched |
| `CoinbaseSnapshot.WriteThenRead` | src/services/coinbase-snapshot.ts:102-117 | write, then read, through the store |
| `JobDeclaration.PoolScriptIsFirst` | src/models/JobDeclarationClient.ts:627-652 | the coinbase check reads the first output's script back from the serialized outputs |
| `JobDeclaration.Client.AcceptedPaysToken` | src/models/JobDeclarationClient.ts:418-441 | a declared coinbase is accepted exactly if it is not empty and the script of the first output the token was given with stands in what follows the extranonce |
| `JobDeclaration.MergeCoversIff` | src/models/JobDeclarationClient.ts:408-411 | the merged transactions cover exactly positions 0 to n-1 exactly when every requested transaction came and no more; they cover them exactly when at least all came |
| `JobDeclaration.MergedValues` | src/models/JobDeclarationClient.ts:408-411 | the k-th transaction of the reply is stored at the k-th requested position |
| `JobDeclaration.SplitIsComplementary` | src/models/JobDeclarationClient.ts:358-370 | a position is known exactly if the template has its transaction, and then as that; known and requested positions are complementary, in ascending order |
| `JobDeclaration.Client.AllocateToken` | src/models/JobDeclarationClient.ts:275-287 | a token under a new number with an hour to live |
| `JobDeclaration.Client.DeclareRefusedWhen` | src/models/JobDeclarationClient.ts:299-345 | which declarations are refused before their transactions are looked at, and with which code |
| `JobDeclaration.Client.HandleDeclareMiningJob` | src/models/JobDeclarationClient.ts:299-392 | refused without mode or with an unknown or expired token, which is deleted; otherwise asks for exactly what is missing, or decides at once |
| `JobDeclaration.Client.HandleProvideMissingTransactionsSuccess` | src/models/JobDeclarationClient.ts:394-416 | completes whatever declaration is pending, accepted exactly unless its coinbase is refused, with the reply's transactions at the positions that one asked for; when their number covers the job |
| `JobDeclaration.CompletedAsDeclaredIff` | src/models/JobDeclarationClient.ts:394-416 | a completed declaration holds the declared transactions exactly when every transaction of the reply is the one declared at its position, which nothing compares: coverage counts only |
| `JobDeclaration.LateReply` | src/models/JobDeclarationClient.ts:394-416 | a job replaced before its reply comes: the late reply completes the other job, and that one's found block carries the first one's transaction |
| `JobDeclaration.Client.AcceptDeclaration` | src/models/JobDeclarationClient.ts:418-473 | refused exactly when the pool's payout script is missing; otherwise stored under a new token, and only the newest three are kept |
| `JobDeclaration.NewestAreLast` | src/models/JobDeclarationClient.ts:455-464 | the newest three are the last three accepted, in order |
| `JobDeclaration.MatchSolution` | src/models/JobDeclarationClient.ts:493-517 | the latest job declared on the solution's block, or else the latest of all |
| `JobDeclaration.Client.HandlePushSolution` | src/models/JobDeclarationClient.ts:475-551 | the body is complete and in order exactly when the matched job's transactions cover it |
| `RoundReset.Scheduler.ApplyConfig` | src/services/group-round-reset.service.ts:78-95 | armed with the preset's expression exactly for a complete schedule, otherwise disarmed |
| `RoundReset.ScheduledWhen` | src/services/group-round-reset.service.ts:78-95 | a schedule is complete with a preset, a time zone and, for custom ones, an interval of at least a day |
| `RoundReset.PresetFires` | src/services/group-round-reset.service.ts:20-35 | the expressions fire at midnight: every day for daily and custom presets, on Mondays for weekly, on the first for monthly |
| `RoundReset.DueWhen` | src/services/group-round-reset.service.ts:152-188 | a tick resets always for calendar presets, and for custom ones from half a day before the interval of 24-hour days is over |
| `RoundReset.Scheduler.FireIfDue` | src/services/group-round-reset.service.ts:152-188 | resets exactly when due, and disarms when the schedule is gone |
| `RoundReset.ComputeNextResetAt` | src/services/group-round-reset.service.ts:232-263 | the next tick of a calendar preset; of a custom one the first due tick of the look-ahead, or its last |
| `RoundReset.AnnouncedIsFirstDueIff` | src/services/group-round-reset.service.ts:248-262 | on any ticks, the announced tick of a custom schedule is the first that fires exactly when the look-ahead reaches the due time |
| `RoundReset.AnnouncedIsFirstDue` | src/services/group-round-reset.service.ts:216-223 | so for every interval, when ticks are midnights: a day apart, up to half a day of clock changes in all |
| `RoundReset.ShortGapsSufficeIff` | src/services/group-round-reset.service.ts:248-262 | when only gaps of 23 hours are known, that is enough exactly for intervals of at most 35 days |

## Left out

- Floating point: percentages, share ratios and difficulties are exact reals or integers; IEEE rounding is not modelled, nor are the NaN and infinity checks that guard it.
- Shares are natural numbers; the proportional split depends on their ratios only.
- Sockets, Noise, frame parsing, RPC, push and mail, metrics and controllers: input and output.
- Databases and Redis are maps, a transaction commits or changes nothing; `updatedAt` and `createdAt` columns and query planning are not modelled. The audit rows are those this process wrote.
- Interleaving at `await` points: every operation of a service is one step.
- Address parsing, normalisation and script building: an address is a string with a weight and a script as parameters; "" stands for an invalid one.
- SHA-256 is a function parameter with 32-byte results; nothing else of it is used. Merkle trees pair an odd last node with itself.
- `Array.prototype.sort` is taken as a stable sort, which ECMAScript guarantees since 2019.
- CoinbaseDistribution.BuildCoinbaseDistribution: does not model log messages, and treats an unset minimum payout or finder bonus as 0, which the code does too.
- CoinbaseWeight.CoinbaseWithinBudget: takes a commitment script of 38 bytes, and address scripts no longer than their budget says; which script an address gets is a parameter.
- RoundReset.PresetFires: reads cron expressions only as far as the four of this file need it: numbers below 10 and `*`.
- CoinbaseLayout.JobScriptShape: does not model height 0 or heights above 0x7fffffff, which no template has.
- MiningJob.Job.constructor: requires a recipient and outputs that are not negative, where the source throws or the transaction library refuses; extranonces and branches are bytes, so malformed hex from a miner is not modelled.
- MiningJob.Job.CopyAndUpdateBlock: does not copy the other transactions, which the header does not depend on beyond the merkle branch; time and nonce are 32-bit, so the source's `>>> 0` has nothing to cut.
- ExtendedCoinbase.ReconstructExtendedBlock: takes cloning by serializing and parsing as a copy.
- SessionDifficulty.Session.StartCpuminer: happens before the first job, as in the source.
- Vardiff.Statistics.UpdateHashRate: does not model the displayed hashrate.
- CoinbaseSnapshot.SnapshotRoundTrip: takes `String` and `parseFloat` on percentages as parameters, and omits leading white space in `parseInt`; the JSON format of older releases is not modelled.
- BlockpartyService.BlockpartyService.CreateGroup: takes the shape of the mail address, group membership elsewhere and the generated id and token as parameters; invitations, block history and the rental hint are not modelled.
- JobDeclaration.Client.AllocateToken: does not model the rate limit of one second and the look-up of the miner's address.
- RoundReset.ComputeNextResetAt: takes the ticks of the cron library as a parameter; what a reset does to a round is not modelled.
- Group-Solo's own dust deletion, share recording and round bookkeeping: plain additions.
- ExtendedChannelRuns.Run: has no operation for `sendSetCustomMiningJob` (`src/models/StratumV2Client.ts:2958-3003`), which nothing calls and which would write as a sent pool job does.
- BlockpartyPayout.OverfullParty: does not build a job from a coinbase with a negative output; what the transaction library does with one is not modelled.
- Standard SV2 channels and the port-wide job table age jobs by the same rule as the extended ones.

# Klaytn block reward distribution, modelled in Dafny

This project models the block reward distributor of the Klaytn node
(`reward/reward_distributor.go`). At the end of every block, each node computes
the same division of the block's reward: the newly minted amount plus the
collected transaction fee, minus what is burnt. The reward is divided among the
block proposer, the staking consensus nodes, and two treasuries, KGF (the `PoC`
address) and KIR. The result is a `RewardSpec`: the pool totals, plus a map
from recipient address to the amount credited.

The model follows the source function by function:

- **Ratio parsing** (`RatioParser`): `parseRewardRatio` and `parseRewardKip82Ratio`.
  - Go's `strings.Split` on `/` is modelled, and so is `strconv.Atoi` (an optional sign, then one or more decimal digits).
  - Both error kinds are modelled: `InvalidFormat` and `ParsingRatio`.
- **Fees** (`FeeAccounting`): `getTotalFee`, `getBurnAmountMagma`, `getBurnAmountKore` and `calcDeferredFee`.
  - These are pure functions over the header and the chain configuration.
  - The Magma and Kore forks are boolean flags.
- **Splits** (`SplitEngine`): `splitByRatio`, `splitByKip82Ratio` and `calcSplit`.
  - Division is `big.Int.Div`, which is Euclidean like Dafny's `/`.
- **Staking shares** (`StakeShares`): `calcShares` is the imperative method `CalcShares`.
  - It keeps the source's two loops.
  - It is proved equal to the function `Shares`, which the lemmas are about.
- **Aggregation** (`RewardAggregator`): `CalcDeferredReward` builds a `RewardSpec` object.
  - The remainders are folded and the treasury fallbacks applied.
  - The reward map is filled by `increment` calls, one per recipient.
  - It is proved equal to the function `DeferredReward`.
- **Entry points** (`RewardFacade`):
  - `CalcDeferredRewardSimple`.
  - `GetBlockReward`, which dispatches on the proposer policy and compensates the fee in place when fee deferral is off.
  - `DistributeBlockReward` over a ledger whose `AddBalance` credits one account.
- **Worked examples** (`Scenarios`): parsing, splitting and share allocation, proved on concrete values.

`Maps` holds the reward-map algebra: `Increment`, `MergeAdd` and the total of a map's values.
`Arithmetic` holds facts about floor division.

The staking snapshot, which the source looks up with `GetStakingInfo`, is a parameter.
It is `None` when no snapshot exists.

### What the reward record conserves

One might expect every `RewardSpec` to keep `Proposer + Stakers + Kgf + Kir == Minted + Fee - Burnt` and `sum(Rewards) == Proposer + Stakers + Kgf + Kir`. The code keeps neither.

- The share remainder is added to `Proposer` (line 189), but `Stakers` still reports the whole staking pool (line 209).
- So the four pools add up to `Minted + Fee - Burnt` **plus** the share remainder (`DeferredRewardPools`).
- With no snapshot, the share remainder is the whole staking pool.

What the code does conserve is the reward map: `sum(Rewards) == Minted + Fee - Burnt` (`DeferredRewardConserves`).

## Model

| member | source | states |
|---|---|---|
| RatioParser.ParseRewardRatio | reward/reward_distributor.go:416-429 | `InvalidFormat` exactly when splitting on `/` does not give three parts; on success the total is the sum of the three parts |
| RatioParser.ParseRewardKip82Ratio | reward/reward_distributor.go:432-444 | `InvalidFormat` exactly when splitting on `/` does not give two parts; on success the total is the sum of the two parts |
| RatioParser.RewardRatioFormat | reward/reward_distributor.go:417-420 | the CN/KGF/KIR ratio has the wrong arity exactly when it does not hold two `/` |
| RatioParser.Kip82RatioFormat | reward/reward_distributor.go:433-436 | the KIP-82 ratio has the wrong arity exactly when it does not hold one `/` |
| RatioParser.RewardRatioBadPart | reward/reward_distributor.go:421-426 | with three parts, any part that is not an integer (an empty one included) gives `ParsingRatio` |
| RatioParser.Kip82RatioBadPart | reward/reward_distributor.go:437-442 | with two parts, any part that is not an integer (an empty one included) gives `ParsingRatio` |
| RatioParser.RewardRatioParsingError | reward/reward_distributor.go:416-429 | `ParsingRatio` exactly when there are three parts and one of them is not an integer |
| RatioParser.Kip82RatioParsingError | reward/reward_distributor.go:432-444 | `ParsingRatio` exactly when there are two parts and one of them is not an integer |
| RatioParser.RewardRatioRoundTrip | reward/reward_distributor.go:416-429 | parsing the decimal form `cn/kgf/kir` of any three integers gives back those integers and their sum |
| RatioParser.Kip82RatioRoundTrip | reward/reward_distributor.go:432-444 | parsing the decimal form `proposer/stakers` of any two integers gives back those integers and their sum |
| RatioParser.SplitCount | reward/reward_distributor.go:417 | `strings.Split` returns one part more than the string has separators |
| RatioParser.SplitNoSep | reward/reward_distributor.go:417 | no part returned by `strings.Split` contains the separator |
| RatioParser.JoinSplit | reward/reward_distributor.go:417 | joining the parts with `/` gives back the original string |
| RatioParser.SplitJoin | reward/reward_distributor.go:417 | separator-free parts joined with `/` split back into the same parts |
| RatioParser.Split | reward/reward_distributor.go:417 | `strings.Split` on `/`: always at least one part; its arity and round trips are `SplitCount`, `SplitNoSep`, `JoinSplit` and `SplitJoin` |
| RatioParser.AtoiItoa | reward/reward_distributor.go:421-423 | `Atoi` reads back the decimal form of every integer, and that form holds no `/` |
| RatioParser.Atoi | reward/reward_distributor.go:421-423 | `strconv.Atoi` in base 10: an optional sign, then one or more decimal digits, anything else fails; `AtoiItoa` is its round trip |
| SplitEngine.SplitByRatioBounds | reward/reward_distributor.go:345-358 | with a well-formed ratio, each part is `floor(source*r_i/total)`, is non-negative, and the three parts fall short of the source by at most 2 |
| SplitEngine.SplitByRatio | reward/reward_distributor.go:345-358 | each of the CN, KGF and KIR parts is `source*weight/total`, truncated on its own; `SplitByRatioBounds` states what that means |
| SplitEngine.SplitByKip82RatioBounds | reward/reward_distributor.go:361-371 | with a well-formed KIP-82 ratio, each part is `floor(source*r_i/total)` and the two parts fall short of the source by at most 1 |
| SplitEngine.SplitByKip82Ratio | reward/reward_distributor.go:361-371 | the proposer and stakers parts are `source*weight/total`, truncated on their own; `SplitByKip82RatioBounds` states what that means |
| SplitEngine.CalcSplit | reward/reward_distributor.go:300-342 | in both branches, proposer + stakers + kgf + kir + remaining == minted + fee; before Kore, stakers == 0 |
| SplitEngine.CalcSplitBounds | reward/reward_distributor.go:300-342 | with well-formed ratios, every pool is non-negative and 0 <= remaining <= 2 (3 after Kore); after Kore the proposer holds the whole fee and at most the CN part on top |
| SplitEngine.CalcSplitFeeToProposer | reward/reward_distributor.go:304-310 | after Kore, changing the fee moves only the proposer's pool, by the same amount |
| FeeAccounting.GetTotalFee | reward/reward_distributor.go:269-276 | the fee is gas used times the base fee (Magma) or the unit price, and is zero exactly when one of the two is zero |
| FeeAccounting.BurnAmountMagma | reward/reward_distributor.go:278-280 | the Magma burn is at most the half of the fee that remains, and at most one unit less than it |
| FeeAccounting.BurnAmountKore | reward/reward_distributor.go:282-296 | the Kore burn is the smaller of the fee and the proposer's KIP-82 part of the CN part of the minting amount |
| FeeAccounting.KoreBurnCapBounds | reward/reward_distributor.go:283-284 | with well-formed ratios, the Kore burn cap lies between 0 and the minting amount |
| FeeAccounting.KoreBurnCap | reward/reward_distributor.go:283-284 | the Kore burn cap is the proposer's KIP-82 part of the CN part of the minting amount; `KoreBurnCapBounds` bounds it |
| FeeAccounting.CalcDeferredFee | reward/reward_distributor.go:233-267 | total == reward + burnt; with deferral off, all three are 0; otherwise the total is the block's fee |
| FeeAccounting.CalcDeferredFeeClosedForm | reward/reward_distributor.go:243-259 | the Magma half-burn comes first; the Kore burn is then `min(left, cap)` of what is left, and the reward is the remainder; with both forks the burn is `min(total, total/2 + cap)` |
| FeeAccounting.CalcDeferredFeeBounds | reward/reward_distributor.go:233-267 | with well-formed ratios, 0 <= reward <= total and 0 <= burnt <= total |
| StakeShares.CalcShares | reward/reward_distributor.go:374-413 | the two loops compute exactly the shares map and the remainder of `Shares` |
| StakeShares.Shares | reward/reward_distributor.go:374-413 | `calcShares` as a function: the shares map and the remainder; `SharesBounds`, `SharesContents`, `SharesPositive` and `SharesConserve` state its properties |
| StakeShares.SharesBounds | reward/reward_distributor.go:374-413 | for a non-negative pool, 0 <= remaining <= pool, and remaining < the number of qualifying nodes; the whole pool and no shares when there is no snapshot or no qualifying node |
| StakeShares.SharesContents | reward/reward_distributor.go:395-406 | a node has an entry exactly when its stake is strictly above the minimum and `floor(R*(stake-min)/Σexcess)` is positive; the entry is that share, and no other address has one |
| StakeShares.SharesPositive | reward/reward_distributor.go:402-404 | every stored share is positive |
| StakeShares.SharesConserve | reward/reward_distributor.go:391-412 | the stored shares plus the remainder are exactly the pool |
| Maps.Increment | reward/reward_distributor.go:446-453 | `increment` adds the amount to the keyed address (from zero if missing) and changes no other entry |
| Maps.MergeAddStep | reward/reward_distributor.go:224-226 | crediting every entry of a map gives the same result whichever entry is credited last, so map order does not matter |
| Maps.MergeAddSum | reward/reward_distributor.go:87-91 | crediting a map raises the total by the map's total |
| RewardAggregator.RewardSpec.Increment | reward/reward_distributor.go:446-453 | `increment` on the spec's map, in place |
| RewardAggregator.RewardSpec.CreditAll | reward/reward_distributor.go:224-226 | crediting every share in map order gives the merge of the shares into the map |
| RewardAggregator.FoldRemainders | reward/reward_distributor.go:187-202 | the folds and fallbacks neither create nor lose value; KGF holds its part plus the split remainder unless unset, and KIR its part unless unset; unset pools are zero |
| RewardAggregator.PoolRewards | reward/reward_distributor.go:214-222 | the rewardbase is credited the proposer's pool, then each set treasury its pool; `DeferredRewardCredits` states the resulting entries |
| RewardAggregator.CalcDeferredReward | reward/reward_distributor.go:172-230 | the spec built in place equals `DeferredReward`, about which the lemmas below are proved |
| RewardAggregator.DeferredReward | reward/reward_distributor.go:172-230 | `CalcDeferredReward` as a function: fee, split, shares, folds, then the credits; `DeferredRewardFolds`, `DeferredRewardCredits`, `DeferredRewardConserves`, `DeferredRewardPools` and `DeferredRewardNonNegative` state its properties |
| RewardAggregator.DeferredRewardFolds | reward/reward_distributor.go:187-202 | the split remainder goes to KGF, the share remainder to the proposer, and an unset KGF or KIR hands its whole pool to the proposer and is zero |
| RewardAggregator.DeferredRewardCredits | reward/reward_distributor.go:214-226 | each address receives the sum of its rewardbase, set-treasury and share credits; the map has an entry exactly for those addresses, and none for an unset treasury |
| RewardAggregator.DeferredRewardConserves | reward/reward_distributor.go:172-230 | sum of the reward map == Minted + Fee - Burnt |
| RewardAggregator.DeferredRewardPools | reward/reward_distributor.go:187-212 | Proposer + Stakers + Kgf + Kir == Minted + Fee - Burnt + share remainder, which is the whole staking pool without a snapshot |
| RewardAggregator.DeferredRewardNonNegative | reward/reward_distributor.go:172-230 | with well-formed ratios, every pool, the burn and every reward are non-negative, and the burn does not exceed the fee |
| RewardFacade.CalcDeferredRewardSimple | reward/reward_distributor.go:140-168 | the spec built equals `SimpleReward` |
| RewardFacade.SimpleReward | reward/reward_distributor.go:140-168 | `CalcDeferredRewardSimple` as a function; `SimpleRewardProperties` and `SimpleRewardIgnoresDeferral` state its properties |
| RewardFacade.SimpleRewardProperties | reward/reward_distributor.go:140-168 | the rewards map is exactly {rewardbase ↦ minted + rewardFee}; under Magma reward == burnt == floor(fee/2), so Minted + Fee - Burnt - Proposer == fee mod 2; without Magma nothing is burnt |
| RewardFacade.SimpleRewardIgnoresDeferral | reward/reward_distributor.go:140-160 | the simple path depends only on the minting amount, the gas price and the Magma flag |
| RewardFacade.GetBlockReward | reward/reward_distributor.go:95-136 | no spec and the error without an Istanbul configuration; otherwise the spec of `BlockReward`, compensated in place |
| RewardFacade.BlockReward | reward/reward_distributor.go:95-136 | `GetBlockReward` as a function; `BlockRewardDispatch`, `BlockRewardCompensation` and `BlockRewardConserves` state its properties |
| RewardFacade.Compensate | reward/reward_distributor.go:129-132 | the block fee added to `Proposer` and to the rewardbase's entry; `BlockRewardCompensation` states that nothing else changes |
| RewardFacade.AddBlockFee | reward/reward_distributor.go:129-132 | the block fee is added to `Proposer` and to the rewardbase's entry |
| RewardFacade.BlockRewardDispatch | reward/reward_distributor.go:98-112 | an error exactly when the Istanbul configuration is missing; round-robin and sticky take the simple path; other policies with deferral on return the deferred reward |
| RewardFacade.BlockRewardCompensation | reward/reward_distributor.go:117-132 | with deferral off, gasUsed × price is added to `Proposer` and to the rewardbase's entry (always present); every other entry and field is unchanged |
| RewardFacade.BlockRewardConserves | reward/reward_distributor.go:95-136 | the rewards paid are minted + the block's fee - burnt, less fee mod 2 on the simple path under Magma |
| RewardFacade.Ledger.AddBalance | reward/reward_distributor.go:37-39 | credits one account and no other |
| RewardFacade.DistributeBlockReward | reward/reward_distributor.go:87-91 | the ledger ends with every reward added to its address's balance and no other change |
| RewardFacade.BlockRewardPaysOut | reward/reward_distributor.go:87-91 | paying a block's rewards raises the ledger's total by minted + fee - burnt (less the simple path's odd unit), and each account by exactly its entry |
| Scenarios.RatioParsesWeights | reward/reward_distributor.go:416-429 | "30/40/30" parses to 30, 40, 30 with total 100 |
| Scenarios.RatioWrongArity | reward/reward_distributor.go:417-420 | "30/40" fails `InvalidFormat` as a three-part ratio |
| Scenarios.RatioNotNumeric | reward/reward_distributor.go:421-426 | "a/b/c" fails `ParsingRatio` |
| Scenarios.LegacySplitExample | reward/reward_distributor.go:331-341 | before Kore, 1000 minted with 50/25/25 gives 500/250/250 and no remainder |
| Scenarios.KoreSplitExample | reward/reward_distributor.go:304-330 | after Kore, 1000 minted and fee 100 with 50/25/25 and 80/20 give proposer 500, stakers 100, KGF 250, KIR 250, remainder 0 |
| Scenarios.SharesExample | reward/reward_distributor.go:374-413 | excess stakes 100 and 300 sharing 40 get 10 and 30, with nothing left over |

## Left out

- The instrumentation is not modelled: `CalcDeferredRewardTimer`, its deferred closure, and every `logger.Debug` call. They do not affect the results.
- `GetStakingInfo` and `GetConsolidatedStakingInfo` are not modelled. Neither are the reward config cache, `NewRewardDistributor` or `governanceHelper`. The consolidated snapshot is a parameter (`None` when absent).
- The bodies of `IsMagmaForkEnabled` and `IsKoreForkEnabled` are not modelled; the fork flags are booleans. The `params` slice counts are the constants 3 and 2.
- `getTotalTxFee` and `txFeeBurning` are left out. Nothing in the file calls them.
- RatioParser.Atoi: range errors of `strconv.Atoi` are not modelled, nor are overflow of `int` in the ratio sum and the `int64` conversion in the splits. Parts are unbounded integers.
- StakeShares.CalcShares: the `uint64` wrap-around of `totalStakesInt` is not modelled; the total excess is an unbounded natural.
- A missing base fee under Magma would panic in the source. It is a precondition instead (`HasBaseFee`, part of `FeeUsable` and `BlockUsable`).
- A ratio that does not parse, or whose total is zero, would make the division panic. The split functions require a usable ratio (`UsableRatio`, `UsableKip82Ratio`).
- The bounds and conservation lemmas additionally assume non-negative parts and a positive total (`WellFormedRatio`).
- RewardAggregator.DeferredRewardConserves: the conservation lemmas assume the consolidated snapshot holds each reward address once (`DistinctRewardAddrs`). `calcShares` stores shares by assignment, so a repeated address would keep only its last share. Consolidation groups nodes by reward address.
- RewardFacade.SimpleReward: the source leaves `Stakers`, `Kgf` and `Kir` nil on the simple path; they are 0 here.
- `RewardSpec` fields are values, so the aliasing of `big.Int` pointers is not modelled. In the simple path `Proposer` and the rewardbase entry share one `big.Int`, but nothing modifies it afterwards. `increment` always stores a fresh value.
- The order of Go map iteration is not modelled: every map is credited in an arbitrary order chosen by `:|`. `Maps.MergeAddStep` shows that the order does not matter.

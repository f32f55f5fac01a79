/** CalcDeferredReward: fee, split and shares are combined, the remainders are
    folded (split remainder to KGF, share remainder to the proposer), unset
    treasuries fall back to the proposer, and the per-address reward map is
    built by crediting each recipient. */
module RewardAggregator {
  import opened Common
  import opened Maps
  import opened RatioParser
  import opened SplitEngine
  import opened FeeAccounting
  import opened StakeShares

  /** The content of a RewardSpec: the pool totals and the per-address rewards. */
  datatype RewardValue = RewardValue(
    minted: int, fee: int, burnt: int,
    proposer: int, stakers: int, kgf: int, kir: int,
    rewards: map<Address, int>)

  datatype Pools = Pools(proposer: int, kgf: int, kir: int)

  /** The KGF portion goes to the proposer without a snapshot or without a KGF address. */
  predicate KgfUnset(info: Option<StakingInfo>) {
    info.None? || IsEmptyAddress(info.value.pocAddr)
  }

  predicate KirUnset(info: Option<StakingInfo>) {
    info.None? || IsEmptyAddress(info.value.kirAddr)
  }

  /** The remainder folds and treasury fallbacks, in the order the source applies them:
      the split remainder joins KGF, the share remainder joins the proposer, then an
      unset KGF and an unset KIR each hand their whole pool to the proposer. */
  function FoldRemainders(split: SplitResult, shareRem: int, info: Option<StakingInfo>): (p: Pools)
    ensures p.proposer + p.kgf + p.kir == split.proposer + shareRem + split.kgf + split.remaining + split.kir
    ensures p.kgf == (if KgfUnset(info) then 0 else split.kgf + split.remaining)
    ensures p.kir == (if KirUnset(info) then 0 else split.kir)
  {
    var kgf := split.kgf + split.remaining;
    var proposer := split.proposer + shareRem;
    var afterKgf := if KgfUnset(info) then Pools(proposer + kgf, 0, split.kir) else Pools(proposer, kgf, split.kir);
    if KirUnset(info) then Pools(afterKgf.proposer + afterKgf.kir, afterKgf.kgf, 0) else afterKgf
  }

  /** The reward map before the staking shares: the proposer's pool to the block's
      rewardbase, and each treasury pool to its address when that address is set. */
  function PoolRewards(rewardbase: Address, pools: Pools, info: Option<StakingInfo>): map<Address, int> {
    var m0 := Increment(map[], rewardbase, pools.proposer);
    var m1 := if KgfUnset(info) then m0 else Increment(m0, info.value.pocAddr, pools.kgf);
    if KirUnset(info) then m1 else Increment(m1, info.value.kirAddr, pools.kir)
  }

  predicate DeferredUsable(header: Header, config: ChainConfig) {
    FeeUsable(header, config) && SplitUsable(config)
  }

  /** What the conservation properties need: well-formed ratios wherever they are
      used, and distinct reward addresses in the snapshot. */
  predicate DeferredWellFormed(header: Header, config: ChainConfig, info: Option<StakingInfo>) {
    && DeferredUsable(header, config)
    && SplitWellFormed(config)
    && (config.reward.deferredTxFee && config.forks.kore ==>
          WellFormedRatio(config.reward.ratio) && WellFormedKip82Ratio(config.reward.kip82Ratio))
    && (info.Some? ==> DistinctRewardAddrs(info.value.nodes))
  }

  /** CalcDeferredReward as a function of the header, the configuration and the snapshot. */
  function DeferredReward(header: Header, config: ChainConfig, info: Option<StakingInfo>): RewardValue
    requires DeferredUsable(header, config)
  {
    var minted := config.reward.mintingAmount;
    var fee := CalcDeferredFee(header, config);
    var split := CalcSplit(config, minted, fee.reward);
    var shares := Shares(config.reward.minimumStake, info, split.stakers);
    var pools := FoldRemainders(split, shares.remaining, info);
    RewardValue(minted, fee.total, fee.burnt, pools.proposer, split.stakers, pools.kgf, pools.kir,
                MergeAdd(PoolRewards(header.rewardbase, pools, info), shares.shares))
  }

  // ---------------------------------------------------------------- the imperative form

  /** The reward record the source returns, whose reward map is filled in place. */
  class RewardSpec {
    var minted: int
    var fee: int
    var burnt: int
    var proposer: int
    var stakers: int
    var kgf: int
    var kir: int
    var rewards: map<Address, int>

    function Value(): RewardValue
      reads this
    {
      RewardValue(minted, fee, burnt, proposer, stakers, kgf, kir, rewards)
    }

    constructor (minted: int, fee: int, burnt: int, proposer: int, stakers: int, kgf: int, kir: int)
      ensures Value() == RewardValue(minted, fee, burnt, proposer, stakers, kgf, kir, map[])
    {
      this.minted, this.fee, this.burnt := minted, fee, burnt;
      this.proposer, this.stakers, this.kgf, this.kir := proposer, stakers, kgf, kir;
      this.rewards := map[];
    }

    /** increment: credits `amount` to `addr`, creating its entry at zero, and touches
        no other entry. */
    method Increment(addr: Address, amount: int)
      modifies this`rewards
      ensures rewards == Maps.Increment(old(rewards), addr, amount)
    {
      if addr !in rewards {
        rewards := rewards[addr := 0];
      }
      rewards := rewards[addr := rewards[addr] + amount];
    }

    /** Credits every entry of `amounts`, one increment per key in map order; the
        result does not depend on that order. */
    method CreditAll(amounts: map<Address, int>)
      modifies this`rewards
      ensures rewards == MergeAdd(old(rewards), amounts)
    {
      ghost var base := rewards;
      var todo := amounts.Keys;
      assert amounts - todo == map[];
      while todo != {}
        invariant todo <= amounts.Keys
        invariant rewards == MergeAdd(base, amounts - todo)
        decreases todo
      {
        var addr :| addr in todo;
        assert (amounts - (todo - {addr})) - {addr} == amounts - todo;
        MergeAddStep(base, amounts - (todo - {addr}), addr);
        Increment(addr, amounts[addr]);
        todo := todo - {addr};
      }
      assert amounts - todo == amounts;
    }
  }

  /** CalcDeferredReward: builds the spec field by field, then the reward map by
      crediting the proposer, the set treasuries and every share (in map order). */
  method CalcDeferredReward(header: Header, config: ChainConfig, info: Option<StakingInfo>)
    returns (spec: RewardSpec)
    requires DeferredUsable(header, config)
    ensures fresh(spec)
    ensures spec.Value() == DeferredReward(header, config, info)
  {
    var minted := config.reward.mintingAmount;
    var fee := CalcDeferredFee(header, config);
    var split := CalcSplit(config, minted, fee.reward);
    var shares, shareRem := CalcShares(config.reward.minimumStake, info, split.stakers);

    var kgf := split.kgf + split.remaining;
    var proposer := split.proposer + shareRem;
    var kir := split.kir;
    if KgfUnset(info) {
      proposer := proposer + kgf;
      kgf := 0;
    }
    if KirUnset(info) {
      proposer := proposer + kir;
      kir := 0;
    }
    assert Pools(proposer, kgf, kir) == FoldRemainders(split, shareRem, info);

    spec := new RewardSpec(minted, fee.total, fee.burnt, proposer, split.stakers, kgf, kir);
    spec.Increment(header.rewardbase, proposer);
    if !KgfUnset(info) {
      spec.Increment(info.value.pocAddr, kgf);
    }
    if !KirUnset(info) {
      spec.Increment(info.value.kirAddr, kir);
    }

    assert spec.rewards == PoolRewards(header.rewardbase, Pools(proposer, kgf, kir), info);
    spec.CreditAll(shares);
  }

  // ---------------------------------------------------------------- properties

  /** Before the shares, an address holds what it receives as rewardbase and as a set
      treasury address, and only those addresses have an entry. */
  lemma PoolRewardsAt(rewardbase: Address, pools: Pools, info: Option<StakingInfo>, a: Address)
    ensures var base := PoolRewards(rewardbase, pools, info);
      && (a in base <==>
            a == rewardbase
            || (!KgfUnset(info) && a == info.value.pocAddr)
            || (!KirUnset(info) && a == info.value.kirAddr))
      && Get(base, a) ==
            (if a == rewardbase then pools.proposer else 0)
            + (if !KgfUnset(info) && a == info.value.pocAddr then pools.kgf else 0)
            + (if !KirUnset(info) && a == info.value.kirAddr then pools.kir else 0)
  {
  }

  /** Every address is credited the sum of what it receives as rewardbase, as a set
      treasury address and as a staker; the map holds exactly those addresses. Credits
      to one address accumulate, and an unset treasury gets no entry of its own. */
  lemma DeferredRewardCredits(header: Header, config: ChainConfig, info: Option<StakingInfo>, a: Address)
    requires DeferredUsable(header, config)
    ensures var v := DeferredReward(header, config, info);
      var shares := Shares(config.reward.minimumStake, info, v.stakers).shares;
      && (a in v.rewards <==>
            a == header.rewardbase
            || (!KgfUnset(info) && a == info.value.pocAddr)
            || (!KirUnset(info) && a == info.value.kirAddr)
            || a in shares)
      && Get(v.rewards, a) ==
            (if a == header.rewardbase then v.proposer else 0)
            + (if !KgfUnset(info) && a == info.value.pocAddr then v.kgf else 0)
            + (if !KirUnset(info) && a == info.value.kirAddr then v.kir else 0)
            + Get(shares, a)
  {
    var fee := CalcDeferredFee(header, config);
    var split := CalcSplit(config, config.reward.mintingAmount, fee.reward);
    var shares := Shares(config.reward.minimumStake, info, split.stakers);
    var pools := FoldRemainders(split, shares.remaining, info);
    var base := PoolRewards(header.rewardbase, pools, info);
    assert DeferredReward(header, config, info).rewards == MergeAdd(base, shares.shares);
    PoolRewardsAt(header.rewardbase, pools, info, a);
  }

  /** The remainders are never lost: the split remainder ends with KGF (or, with KGF
      unset, with the proposer), the share remainder with the proposer, and an unset
      treasury's pool with the proposer, which leaves that treasury at zero. */
  lemma DeferredRewardFolds(header: Header, config: ChainConfig, info: Option<StakingInfo>)
    requires DeferredUsable(header, config)
    ensures var v := DeferredReward(header, config, info);
      var split := CalcSplit(config, v.minted, v.fee - v.burnt);
      var shareRem := Shares(config.reward.minimumStake, info, split.stakers).remaining;
      && v.stakers == split.stakers
      && v.kgf == (if KgfUnset(info) then 0 else split.kgf + split.remaining)
      && v.kir == (if KirUnset(info) then 0 else split.kir)
      && v.proposer == split.proposer + shareRem
                       + (if KgfUnset(info) then split.kgf + split.remaining else 0)
                       + (if KirUnset(info) then split.kir else 0)
  {
    var fee := CalcDeferredFee(header, config);
    var split := CalcSplit(config, config.reward.mintingAmount, fee.reward);
    var shares := Shares(config.reward.minimumStake, info, split.stakers);
    var v := DeferredReward(header, config, info);
    assert v.fee - v.burnt == fee.reward;
    assert Pools(v.proposer, v.kgf, v.kir) == FoldRemainders(split, shares.remaining, info);
  }

  /** The reward map hands out exactly the minted amount plus the fee minus what was
      burnt: the truncation remainders are folded, not dropped. */
  lemma {:induction false} DeferredRewardConserves(header: Header, config: ChainConfig, info: Option<StakingInfo>)
    requires DeferredWellFormed(header, config, info)
    ensures var v := DeferredReward(header, config, info);
      SumValues(v.rewards) == v.minted + v.fee - v.burnt
  {
    var v := DeferredReward(header, config, info);
    var minted := config.reward.mintingAmount;
    var fee := CalcDeferredFee(header, config);
    var split := CalcSplit(config, minted, fee.reward);
    var shares := Shares(config.reward.minimumStake, info, split.stakers);
    var pools := FoldRemainders(split, shares.remaining, info);
    CalcDeferredFeeBounds(header, config);
    CalcSplitBounds(config, minted, fee.reward);
    SharesConserve(config.reward.minimumStake, info, split.stakers);
    var m0 := Increment(map[], header.rewardbase, pools.proposer);
    var empty: map<Address, int> := map[];
    assert SumValues(empty) == 0;
    IncrementSum(empty, header.rewardbase, pools.proposer);
    var m1 := if KgfUnset(info) then m0 else Increment(m0, info.value.pocAddr, pools.kgf);
    if !KgfUnset(info) {
      IncrementSum(m0, info.value.pocAddr, pools.kgf);
    }
    var m2 := if KirUnset(info) then m1 else Increment(m1, info.value.kirAddr, pools.kir);
    if !KirUnset(info) {
      IncrementSum(m1, info.value.kirAddr, pools.kir);
    }
    assert SumValues(m2) == pools.proposer + pools.kgf + pools.kir;
    MergeAddSum(m2, shares.shares);
  }

  /** The pool totals add up to the minted amount plus the fee minus what was burnt,
      plus the share remainder: that remainder was added to the proposer while the
      stakers' pool still holds it (and without a snapshot it is the whole pool). */
  lemma DeferredRewardPools(header: Header, config: ChainConfig, info: Option<StakingInfo>)
    requires DeferredUsable(header, config)
    ensures var v := DeferredReward(header, config, info);
      var shareRem := Shares(config.reward.minimumStake, info, v.stakers).remaining;
      && v.proposer + v.stakers + v.kgf + v.kir == v.minted + v.fee - v.burnt + shareRem
      && (info.None? ==> shareRem == v.stakers)
  {
  }

  /** With well-formed ratios every pool and every reward is non-negative. */
  lemma {:induction false} DeferredRewardNonNegative(header: Header, config: ChainConfig, info: Option<StakingInfo>)
    requires DeferredWellFormed(header, config, info)
    ensures var v := DeferredReward(header, config, info);
      && v.proposer >= 0 && v.stakers >= 0 && v.kgf >= 0 && v.kir >= 0
      && v.burnt >= 0 && v.fee >= v.burnt
      && forall a :: a in v.rewards ==> v.rewards[a] >= 0
  {
    var v := DeferredReward(header, config, info);
    var minted := config.reward.mintingAmount;
    var fee := CalcDeferredFee(header, config);
    var split := CalcSplit(config, minted, fee.reward);
    var shares := Shares(config.reward.minimumStake, info, split.stakers);
    CalcDeferredFeeBounds(header, config);
    CalcSplitBounds(config, minted, fee.reward);
    SharesBounds(config.reward.minimumStake, info, split.stakers);
    forall a | a in v.rewards
      ensures v.rewards[a] >= 0
    {
      DeferredRewardCredits(header, config, info, a);
      if a in shares.shares {
        SharesPositive(config.reward.minimumStake, info, split.stakers, a);
      }
    }
  }
}

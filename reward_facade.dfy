/** The entry points: GetBlockReward chooses between the simple algorithm (round-robin
    and sticky proposer policies) and the deferred one, compensating for the fee paid
    during transaction execution when fee deferral is off; DistributeBlockReward
    credits a reward map to the ledger. */
module RewardFacade {
  import opened Common
  import opened Maps
  import opened SplitEngine
  import opened FeeAccounting
  import opened RewardAggregator

  datatype RewardError = NoIstanbulConfig

  datatype Outcome<T> = Success(value: T) | Failure(error: RewardError)

  predicate SimplePolicy(policy: nat) {
    policy == RoundRobin || policy == Sticky
  }

  /** CalcDeferredRewardSimple as a function: after Magma the fee is halved (rounded
      down) into a burnt half and a rewarded half, before it the whole fee is rewarded;
      the proposer receives minted plus the rewarded fee, and nobody else anything. The
      fee deferral flag and the Kore rules play no part. */
  function SimpleReward(header: Header, config: ChainConfig): RewardValue
    requires HasBaseFee(header, config)
  {
    var minted := config.reward.mintingAmount;
    var totalFee := header.gasUsed * (if config.forks.magma then header.baseFee.value else config.unitPrice);
    var rewardFee := if config.forks.magma then totalFee / 2 else totalFee;
    var burntFee := if config.forks.magma then totalFee / 2 else 0;
    var proposer := minted + rewardFee;
    RewardValue(minted, totalFee, burntFee, proposer, 0, 0, 0, map[header.rewardbase := proposer])
  }

  /** What GetBlockReward needs to run without a panic: a base fee to read under Magma,
      and for the deferred algorithm ratios it can divide by. */
  predicate BlockUsable(header: Header, config: ChainConfig) {
    config.istanbul.Some? ==>
      && HasBaseFee(header, config)
      && (!SimplePolicy(config.istanbul.value.proposerPolicy) ==> DeferredUsable(header, config))
  }

  /** The compensation for a block whose fee was already paid to the proposer during
      transaction execution: the fee is added to the proposer's pool and its entry. */
  function Compensate(v: RewardValue, rewardbase: Address, blockFee: int): RewardValue {
    v.(proposer := v.proposer + blockFee, rewards := Increment(v.rewards, rewardbase, blockFee))
  }

  /** GetBlockReward as a function. */
  function BlockReward(header: Header, config: ChainConfig, info: Option<StakingInfo>): Outcome<RewardValue>
    requires BlockUsable(header, config)
  {
    if config.istanbul.None? then Failure(NoIstanbulConfig)
    else if SimplePolicy(config.istanbul.value.proposerPolicy) then Success(SimpleReward(header, config))
    else
      var v := DeferredReward(header, config, info);
      if config.reward.deferredTxFee then Success(v)
      else Success(Compensate(v, header.rewardbase, GetTotalFee(header, config)))
  }

  // ---------------------------------------------------------------- the imperative form

  /** CalcDeferredRewardSimple. */
  method CalcDeferredRewardSimple(header: Header, config: ChainConfig) returns (spec: RewardSpec)
    requires HasBaseFee(header, config)
    ensures fresh(spec)
    ensures spec.Value() == SimpleReward(header, config)
  {
    var minted := config.reward.mintingAmount;
    var totalFee, rewardFee, burntFee;
    if config.forks.magma {
      totalFee := header.gasUsed * header.baseFee.value;
      rewardFee := totalFee / 2;
      burntFee := totalFee / 2;
    } else {
      totalFee := header.gasUsed * config.unitPrice;
      rewardFee := totalFee;
      burntFee := 0;
    }
    var proposer := minted + rewardFee;
    spec := new RewardSpec(minted, totalFee, burntFee, proposer, 0, 0, 0);
    spec.rewards := map[header.rewardbase := proposer];
  }

  /** GetBlockReward: no spec and an error without an Istanbul configuration, otherwise
      the spec of the chosen algorithm, compensated in place when fee deferral is off. */
  method GetBlockReward(header: Header, config: ChainConfig, info: Option<StakingInfo>)
    returns (spec: RewardSpec?, err: Option<RewardError>)
    requires BlockUsable(header, config)
    ensures var r := BlockReward(header, config, info);
      && (r.Failure? ==> spec == null && err == Some(r.error))
      && (r.Success? ==> err.None? && spec != null && fresh(spec) && spec.Value() == r.value)
  {
    if config.istanbul.None? {
      return null, Some(NoIstanbulConfig);
    }
    err := None;
    var policy := config.istanbul.value.proposerPolicy;
    if policy == RoundRobin || policy == Sticky {
      spec := CalcDeferredRewardSimple(header, config);
    } else {
      var deferred := CalcDeferredReward(header, config, info);
      if !config.reward.deferredTxFee {
        var blockFee;
        if config.forks.magma {
          blockFee := header.gasUsed * header.baseFee.value;
        } else {
          blockFee := header.gasUsed * config.unitPrice;
        }
        DeferredRewardCredits(header, config, info, header.rewardbase);
        AddBlockFee(deferred, header.rewardbase, blockFee);
      }
      spec := deferred;
    }
  }

  /** The compensation applied in place: the fee is added to the proposer's pool and to
      the rewardbase's entry, which the deferred algorithm always creates. */
  method AddBlockFee(spec: RewardSpec, rewardbase: Address, blockFee: int)
    requires rewardbase in spec.rewards
    modifies spec
    ensures spec.Value() == Compensate(old(spec.Value()), rewardbase, blockFee)
  {
    spec.proposer := spec.proposer + blockFee;
    spec.rewards := spec.rewards[rewardbase := spec.rewards[rewardbase] + blockFee];
  }

  /** The ledger the rewards are paid into; only crediting is needed. */
  class Ledger {
    var balances: map<Address, int>

    constructor (balances: map<Address, int>)
      ensures this.balances == balances
    {
      this.balances := balances;
    }

    /** AddBalance: credits `amount` to `addr` alone; a missing account starts at zero. */
    method AddBalance(addr: Address, amount: int)
      modifies this`balances
      ensures balances == Increment(old(balances), addr, amount)
    {
      balances := Increment(balances, addr, amount);
    }
  }

  /** DistributeBlockReward: every reward is credited to its address, in map order. */
  method DistributeBlockReward(ledger: Ledger, rewards: map<Address, int>)
    modifies ledger
    ensures ledger.balances == MergeAdd(old(ledger.balances), rewards)
  {
    ghost var before := ledger.balances;
    var todo := rewards.Keys;
    assert rewards - todo == map[];
    while todo != {}
      invariant todo <= rewards.Keys
      invariant ledger.balances == MergeAdd(before, rewards - todo)
      decreases todo
    {
      var addr :| addr in todo;
      assert (rewards - (todo - {addr})) - {addr} == rewards - todo;
      MergeAddStep(before, rewards - (todo - {addr}), addr);
      ledger.AddBalance(addr, rewards[addr]);
      todo := todo - {addr};
    }
    assert rewards - todo == rewards;
  }

  // ---------------------------------------------------------------- properties

  /** The simple path rewards the proposer alone: the map is exactly the rewardbase's
      entry. After Magma the rewarded and the burnt halves are both rounded down, so an
      odd fee leaves one unit neither burnt nor rewarded; before Magma nothing is burnt
      and the whole fee is rewarded. */
  lemma SimpleRewardProperties(header: Header, config: ChainConfig)
    requires HasBaseFee(header, config)
    ensures var v := SimpleReward(header, config);
      && v.fee == GetTotalFee(header, config)
      && v.rewards == map[header.rewardbase := v.proposer]
      && v.stakers == 0 && v.kgf == 0 && v.kir == 0
      && (config.forks.magma ==>
            v.burnt == v.fee / 2 && v.proposer - v.minted == v.burnt
            && v.minted + v.fee - v.burnt - v.proposer == v.fee % 2)
      && (!config.forks.magma ==> v.burnt == 0 && v.proposer == v.minted + v.fee)
  {
  }

  /** The simple path depends only on the minting amount, the gas price and the Magma
      flag: fee deferral, Kore, the ratios and the minimum stake do not change it. */
  lemma SimpleRewardIgnoresDeferral(header: Header, c1: ChainConfig, c2: ChainConfig)
    requires HasBaseFee(header, c1)
    requires c1.reward.mintingAmount == c2.reward.mintingAmount
    requires c1.unitPrice == c2.unitPrice && c1.forks.magma == c2.forks.magma
    ensures HasBaseFee(header, c2)
    ensures SimpleReward(header, c1) == SimpleReward(header, c2)
  {
  }

  /** GetBlockReward fails exactly without an Istanbul configuration; round-robin and
      sticky take the simple path; any other policy with fee deferral on returns the
      deferred reward unchanged. */
  lemma BlockRewardDispatch(header: Header, config: ChainConfig, info: Option<StakingInfo>)
    requires BlockUsable(header, config)
    ensures var r := BlockReward(header, config, info);
      && (r.Failure? <==> config.istanbul.None?)
      && (r.Failure? ==> r.error == NoIstanbulConfig)
      && (config.istanbul.Some? && SimplePolicy(config.istanbul.value.proposerPolicy) ==>
            r == Success(SimpleReward(header, config)))
      && (config.istanbul.Some? && !SimplePolicy(config.istanbul.value.proposerPolicy) && config.reward.deferredTxFee ==>
            r == Success(DeferredReward(header, config, info)))
  {
  }

  /** With fee deferral off, the deferred path adds the block's fee to the proposer's
      pool and to the rewardbase entry, which is always there, and changes nothing else. */
  lemma BlockRewardCompensation(header: Header, config: ChainConfig, info: Option<StakingInfo>)
    requires BlockUsable(header, config) && config.istanbul.Some?
    requires !SimplePolicy(config.istanbul.value.proposerPolicy) && !config.reward.deferredTxFee
    ensures var d, r := DeferredReward(header, config, info), BlockReward(header, config, info);
      var blockFee := GetTotalFee(header, config);
      && r.Success?
      && r.value.proposer == d.proposer + blockFee
      && header.rewardbase in d.rewards
      && r.value.rewards.Keys == d.rewards.Keys
      && r.value.rewards[header.rewardbase] == d.rewards[header.rewardbase] + blockFee
      && (forall a :: a in d.rewards && a != header.rewardbase ==> r.value.rewards[a] == d.rewards[a])
      && r.value.(proposer := d.proposer, rewards := d.rewards) == d
  {
    DeferredRewardCredits(header, config, info, header.rewardbase);
  }

  /** What a successful GetBlockReward pays out is the minted amount plus the block's
      fee minus the burnt amount, except for the unit the simple path loses on an odd
      fee after Magma; with deferral off the fee counted is the one already paid. */
  lemma {:induction false} BlockRewardConserves(header: Header, config: ChainConfig, info: Option<StakingInfo>)
    requires BlockUsable(header, config) && config.istanbul.Some?
    requires !SimplePolicy(config.istanbul.value.proposerPolicy) ==> DeferredWellFormed(header, config, info)
    ensures var r := BlockReward(header, config, info);
      var lost := if SimplePolicy(config.istanbul.value.proposerPolicy) && config.forks.magma
                  then GetTotalFee(header, config) % 2 else 0;
      r.Success? && SumValues(r.value.rewards) + lost == r.value.minted + GetTotalFee(header, config) - r.value.burnt
  {
    var r := BlockReward(header, config, info);
    if SimplePolicy(config.istanbul.value.proposerPolicy) {
      var v := SimpleReward(header, config);
      var empty: map<Address, int> := map[];
      assert SumValues(empty) == 0;
      assert v.rewards == Increment(empty, header.rewardbase, v.proposer);
      IncrementSum(empty, header.rewardbase, v.proposer);
    } else {
      var d := DeferredReward(header, config, info);
      DeferredRewardConserves(header, config, info);
      if !config.reward.deferredTxFee {
        IncrementSum(d.rewards, header.rewardbase, GetTotalFee(header, config));
      }
    }
  }

  /** Paying a block's rewards into a ledger raises its total balance by the minted
      amount plus the block's fee minus the burnt amount (less the simple path's odd
      unit), and each account by exactly its entry. */
  lemma {:induction false} BlockRewardPaysOut(header: Header, config: ChainConfig, info: Option<StakingInfo>,
                                               balances: map<Address, int>, a: Address)
    requires BlockUsable(header, config) && config.istanbul.Some?
    requires !SimplePolicy(config.istanbul.value.proposerPolicy) ==> DeferredWellFormed(header, config, info)
    ensures var v := BlockReward(header, config, info).value;
      var after := MergeAdd(balances, v.rewards);
      var lost := if SimplePolicy(config.istanbul.value.proposerPolicy) && config.forks.magma
                  then GetTotalFee(header, config) % 2 else 0;
      && SumValues(after) + lost == SumValues(balances) + v.minted + GetTotalFee(header, config) - v.burnt
      && Get(after, a) == Get(balances, a) + Get(v.rewards, a)
  {
    BlockRewardConserves(header, config, info);
    MergeAddSum(balances, BlockReward(header, config, info).value.rewards);
  }
}

/** Types shared by the reward distributor: addresses, the block header fields
    it reads, the chain configuration (governance reward parameters and the
    fork flags at the block's number) and the consolidated staking snapshot. */
module Common {

  datatype Option<T> = None | Some(value: T)

  /** A 20-byte account address, as in the chain's `common.Address`. */
  type Address = a: seq<bv8> | |a| == 20 witness [0, 0, 0, 0, 0, 0, 0, 0, 0, 0, 0, 0, 0, 0, 0, 0, 0, 0, 0, 0]

  /** The all-zero address, which marks an unset treasury address. */
  const EmptyAddress: Address := [0, 0, 0, 0, 0, 0, 0, 0, 0, 0, 0, 0, 0, 0, 0, 0, 0, 0, 0, 0]

  predicate IsEmptyAddress(a: Address) {
    a == EmptyAddress
  }

  /** The header fields read here. `baseFee` is absent before the Magma fork. */
  datatype Header = Header(gasUsed: nat, baseFee: Option<nat>, rewardbase: Address)

  /** Which protocol upgrades are active at the header's block number. */
  datatype Forks = Forks(magma: bool, kore: bool)

  /** The governance reward parameters of the block. `ratio` is the CN/KGF/KIR
      split ("34/54/12"), `kip82Ratio` the proposer/stakers sub-split ("20/80"). */
  datatype RewardConfig = RewardConfig(
    mintingAmount: nat,
    ratio: string,
    kip82Ratio: string,
    deferredTxFee: bool,
    minimumStake: nat)

  datatype IstanbulConfig = IstanbulConfig(proposerPolicy: nat)

  /** Proposer-selection policies, numbered as in the consensus engine. */
  const RoundRobin: nat := 0
  const Sticky: nat := 1

  datatype ChainConfig = ChainConfig(
    istanbul: Option<IstanbulConfig>,
    reward: RewardConfig,
    unitPrice: nat,
    forks: Forks)

  /** One consolidated consensus node: its stake (in KLAY) and where its reward goes. */
  datatype Node = Node(stakingAmount: nat, rewardAddr: Address)

  /** The staking snapshot of the block: the consolidated nodes and the two
      treasury addresses (KGF is `pocAddr`, KIR is `kirAddr`). */
  datatype StakingInfo = StakingInfo(nodes: seq<Node>, pocAddr: Address, kirAddr: Address)

  /** The consolidated list holds each reward address at most once. */
  predicate DistinctRewardAddrs(nodes: seq<Node>) {
    forall i, j :: 0 <= i < j < |nodes| ==> nodes[i].rewardAddr != nodes[j].rewardAddr
  }
}

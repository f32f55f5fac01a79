/** Worked examples of the reward rules on concrete inputs. */
module Scenarios {
  import opened Common
  import opened Maps
  import opened RatioParser
  import opened SplitEngine
  import opened StakeShares

  /** "30/40/30" parses to its three weights with total 100. */
  lemma RatioParsesWeights()
    ensures ParseRewardRatio("30/40/30") == Ok(RewardRatio(30, 40, 30, 100))
  {
    assert NatDigits(30) == NatDigits(3) + ['0'] == "30";
    assert NatDigits(40) == NatDigits(4) + ['0'] == "40";
    assert Itoa(30) + "/" + Itoa(40) + "/" + Itoa(30) == "30/40/30";
    RewardRatioRoundTrip(30, 40, 30);
  }

  /** A two-part string has the wrong arity for the CN/KGF/KIR ratio. */
  lemma RatioWrongArity()
    ensures ParseRewardRatio("30/40") == Err(InvalidFormat)
  {
    RewardRatioFormat("30/40");
  }

  /** Non-numeric parts fail to parse. */
  lemma RatioNotNumeric()
    ensures ParseRewardRatio("a/b/c") == Err(ParsingRatio)
  {
    var parts := ["a", "b", "c"];
    assert Join(parts) == "a/b/c" by { assert parts[1..][1..] == ["c"]; }
    SplitJoin(parts);
  }

  lemma ParseFiftyQuarterQuarter()
    ensures ParseRewardRatio("50/25/25") == Ok(RewardRatio(50, 25, 25, 100))
  {
    assert NatDigits(50) == NatDigits(5) + ['0'] == "50";
    assert NatDigits(25) == NatDigits(2) + ['5'] == "25";
    assert Itoa(50) + "/" + Itoa(25) + "/" + Itoa(25) == "50/25/25";
    RewardRatioRoundTrip(50, 25, 25);
  }

  lemma ParseEightyTwenty()
    ensures ParseRewardKip82Ratio("80/20") == Ok(Kip82Ratio(80, 20, 100))
  {
    assert NatDigits(80) == NatDigits(8) + ['0'] == "80";
    assert NatDigits(20) == NatDigits(2) + ['0'] == "20";
    assert Itoa(80) + "/" + Itoa(20) == "80/20";
    Kip82RatioRoundTrip(80, 20);
  }

  /** Before Kore, with a CN/KGF/KIR ratio that reads 50/25/25 (such as "50/25/25"),
      1000 minted and no fee give CN 500, KGF 250, KIR 250 and nothing left over. */
  lemma LegacySplitExample(config: ChainConfig)
    requires ParseRewardRatio(config.reward.ratio) == Ok(RewardRatio(50, 25, 25, 100))
    requires !config.forks.kore
    ensures SplitUsable(config)
    ensures CalcSplit(config, 1000, 0) == SplitResult(500, 0, 250, 250, 0)
  {
  }

  /** After Kore, with ratios reading 50/25/25 and 80/20 (such as "50/25/25" and
      "80/20"), 1000 minted and a fee of 100: the CN part 500 gives the proposer 400
      plus the whole fee and the stakers 100; the treasuries get 250 each and the 1100
      are accounted for exactly. */
  lemma KoreSplitExample(config: ChainConfig)
    requires ParseRewardRatio(config.reward.ratio) == Ok(RewardRatio(50, 25, 25, 100))
    requires ParseRewardKip82Ratio(config.reward.kip82Ratio) == Ok(Kip82Ratio(80, 20, 100))
    requires config.forks.kore
    ensures SplitUsable(config)
    ensures CalcSplit(config, 1000, 100) == SplitResult(500, 100, 250, 250, 0)
  {
  }

  /** Two validators with excess stakes 100 and 300 sharing a pool of 40 get 10 and 30,
      and nothing is left for the proposer. */
  lemma SharesExample(a1: Address, a2: Address, poc: Address, kir: Address)
    requires a1 != a2
    ensures var info := StakingInfo([Node(600, a1), Node(800, a2)], poc, kir);
      Shares(500, Some(info), 40) == ShareResult(map[a1 := 10, a2 := 30], 0)
  {
    var nodes := [Node(600, a1), Node(800, a2)];
    var first := nodes[..1];
    assert first == [Node(600, a1)] && first[..0] == [];
    assert TotalExcess(first, 500) == 100;
    assert TotalExcess(nodes, 500) == 400;
    assert ShareOf(40, nodes[0], 500, 400) == 10;
    assert ShareOf(40, nodes[1], 500, 400) == 30;
    assert Distributed(first, 500, 40, 400) == 10;
    assert SharesMap(first, 500, 40, 400) == map[a1 := 10];
  }
}

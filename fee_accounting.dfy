/** The block's transaction fee and how much of it is burnt (getTotalFee,
    getBurnAmountMagma, getBurnAmountKore, calcDeferredFee). */
module FeeAccounting {
  import opened Common
  import opened RatioParser
  import opened SplitEngine

  datatype FeeSplit = FeeSplit(total: int, reward: int, burnt: int)

  /** Under Magma the header must carry a base fee (reading a missing one panics). */
  predicate HasBaseFee(header: Header, config: ChainConfig) {
    config.forks.magma ==> header.baseFee.Some?
  }

  /** The gas price a fee is charged at: the base fee after Magma, the unit price before. */
  function GasPrice(header: Header, config: ChainConfig): nat
    requires HasBaseFee(header, config)
  {
    if config.forks.magma then header.baseFee.value else config.unitPrice
  }

  /** getTotalFee: gas used times the gas price. */
  function GetTotalFee(header: Header, config: ChainConfig): (fee: nat)
    requires HasBaseFee(header, config)
    ensures fee == 0 <==> header.gasUsed == 0 || GasPrice(header, config) == 0
  {
    header.gasUsed * GasPrice(header, config)
  }

  /** getBurnAmountMagma: half of the fee, rounded down. */
  function BurnAmountMagma(fee: int): (burn: int)
    ensures fee >= 0 ==> 0 <= burn <= fee - burn <= burn + 1
  {
    fee / 2
  }

  /** The proposer's KIP-82 part of the CN part of the minting amount alone. */
  function KoreBurnCap(config: ChainConfig): int
    requires UsableRatio(config.reward.ratio) && UsableKip82Ratio(config.reward.kip82Ratio)
  {
    var cn := SplitByRatio(config.reward.ratio, config.reward.mintingAmount).cn;
    SplitByKip82Ratio(config.reward.kip82Ratio, cn).proposer
  }

  /** getBurnAmountKore: the fee is burnt up to the proposer's minted reward. */
  function BurnAmountKore(config: ChainConfig, fee: int): (burn: int)
    requires UsableRatio(config.reward.ratio) && UsableKip82Ratio(config.reward.kip82Ratio)
    ensures burn <= fee && burn <= KoreBurnCap(config)
    ensures burn == fee || burn == KoreBurnCap(config)
  {
    var cap := KoreBurnCap(config);
    if fee >= cap then cap else fee
  }

  /** What calcDeferredFee needs: with fee deferral on, a base fee under Magma and,
      under Kore, ratios the burn cap can be computed with. */
  predicate FeeUsable(header: Header, config: ChainConfig) {
    config.reward.deferredTxFee ==>
      && HasBaseFee(header, config)
      && (config.forks.kore ==>
            UsableRatio(config.reward.ratio) && UsableKip82Ratio(config.reward.kip82Ratio))
  }

  /** calcDeferredFee: (total, reward, burnt). Nothing is deferred when fee deferral
      is off. Otherwise the Magma burn of half the fee comes first, then the Kore
      burn, capped by what is left. */
  function CalcDeferredFee(header: Header, config: ChainConfig): (r: FeeSplit)
    requires FeeUsable(header, config)
    ensures r.total == r.reward + r.burnt
    ensures !config.reward.deferredTxFee ==> r == FeeSplit(0, 0, 0)
    ensures config.reward.deferredTxFee ==> r.total == GetTotalFee(header, config)
  {
    if !config.reward.deferredTxFee then FeeSplit(0, 0, 0)
    else
      var total := GetTotalFee(header, config);
      var magmaBurn := if config.forks.magma then BurnAmountMagma(total) else 0;
      var afterMagma := total - magmaBurn;
      var koreBurn := if config.forks.kore then BurnAmountKore(config, afterMagma) else 0;
      FeeSplit(total, afterMagma - koreBurn, magmaBurn + koreBurn)
  }

  /** With well-formed ratios the Kore cap is a part of the minting amount. */
  lemma KoreBurnCapBounds(config: ChainConfig)
    requires WellFormedRatio(config.reward.ratio) && WellFormedKip82Ratio(config.reward.kip82Ratio)
    ensures 0 <= KoreBurnCap(config) <= config.reward.mintingAmount
  {
    var cn := SplitByRatio(config.reward.ratio, config.reward.mintingAmount).cn;
    SplitByRatioBounds(config.reward.ratio, config.reward.mintingAmount);
    SplitByKip82RatioBounds(config.reward.kip82Ratio, cn);
  }

  /** With deferral on, the rewarded fee is what is left of the total after rounding half
      of it down into the burn (Magma) and then burning up to the cap from what remains
      (Kore), never below zero; so the cap is weighed against the fee after the half burn. */
  lemma CalcDeferredFeeClosedForm(header: Header, config: ChainConfig)
    requires FeeUsable(header, config) && config.reward.deferredTxFee
    ensures var r := CalcDeferredFee(header, config);
      var half := if config.forks.magma then r.total / 2 else 0;
      var left := r.total - half;
      && (!config.forks.kore ==> r.reward == left && r.burnt == half)
      && (config.forks.kore ==>
            var cap := KoreBurnCap(config);
            r.reward == (if left >= cap then left - cap else 0)
            && r.burnt == half + (if left >= cap then cap else left))
    // With both forks the cap is measured against what the half burn leaves, not
    // against the whole fee: the burn is min(total, total/2 + cap).
    ensures var r := CalcDeferredFee(header, config);
      config.forks.magma && config.forks.kore ==>
        var bound := r.total / 2 + KoreBurnCap(config);
        r.burnt == (if r.total <= bound then r.total else bound)
  {
  }

  /** With deferral on and well-formed ratios nothing is minted out of the fee: the burnt
      and rewarded amounts are non-negative parts of the total. */
  lemma {:induction false} CalcDeferredFeeBounds(header: Header, config: ChainConfig)
    requires FeeUsable(header, config)
    requires config.reward.deferredTxFee && config.forks.kore ==>
      WellFormedRatio(config.reward.ratio) && WellFormedKip82Ratio(config.reward.kip82Ratio)
    ensures var r := CalcDeferredFee(header, config);
      0 <= r.reward <= r.total && 0 <= r.burnt <= r.total
  {
    if config.reward.deferredTxFee && config.forks.kore {
      KoreBurnCapBounds(config);
    }
  }
}

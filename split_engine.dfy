/** Truncating proportional splits (splitByRatio, splitByKip82Ratio) and the
    split of minted amount plus fee into proposer, stakers, KGF and KIR
    (calcSplit), with the remainder the truncations leave. Division is that of
    Go's big.Int Div, which is Euclidean like Dafny's `/`. */
module SplitEngine {
  import opened Common
  import opened RatioParser
  import opened Arithmetic

  datatype Split3 = Split3(cn: int, kgf: int, kir: int)

  datatype Split2 = Split2(proposer: int, stakers: int)

  datatype SplitResult = SplitResult(proposer: int, stakers: int, kgf: int, kir: int, remaining: int)

  /** splitByRatio: each part of `source` by the CN/KGF/KIR ratio, truncated on its own. */
  function SplitByRatio(ratio: string, source: int): Split3
    requires UsableRatio(ratio)
  {
    var p := ParseRewardRatio(ratio).value;
    Split3(source * p.cn / p.total, source * p.kgf / p.total, source * p.kir / p.total)
  }

  /** splitByKip82Ratio: each part of `source` by the proposer/stakers ratio, truncated on its own. */
  function SplitByKip82Ratio(ratio: string, source: int): Split2
    requires UsableKip82Ratio(ratio)
  {
    var p := ParseRewardKip82Ratio(ratio).value;
    Split2(source * p.proposer / p.total, source * p.stakers / p.total)
  }

  /** What calcSplit needs of the configuration: a CN/KGF/KIR ratio it can divide
      by, and after Kore a KIP-82 ratio too. */
  predicate SplitUsable(config: ChainConfig) {
    && UsableRatio(config.reward.ratio)
    && (config.forks.kore ==> UsableKip82Ratio(config.reward.kip82Ratio))
  }

  predicate SplitWellFormed(config: ChainConfig) {
    && WellFormedRatio(config.reward.ratio)
    && (config.forks.kore ==> WellFormedKip82Ratio(config.reward.kip82Ratio))
  }

  /** calcSplit: before Kore, minted + fee is split three ways and the CN part is the
      proposer's; after Kore only the minted amount is split, the CN part is split
      again between proposer and stakers, and the whole fee goes to the proposer.
      The remainder is what the truncations left, so that the five outputs always
      add up to minted + fee. */
  function CalcSplit(config: ChainConfig, minted: int, fee: int): (r: SplitResult)
    requires SplitUsable(config)
    ensures r.proposer + r.stakers + r.kgf + r.kir + r.remaining == minted + fee
    ensures !config.forks.kore ==> r.stakers == 0
  {
    var total := minted + fee;
    if config.forks.kore then
      var s3 := SplitByRatio(config.reward.ratio, minted);
      var s2 := SplitByKip82Ratio(config.reward.kip82Ratio, s3.cn);
      var proposer := s2.proposer + fee;
      SplitResult(proposer, s2.stakers, s3.kgf, s3.kir, total - s3.kgf - s3.kir - proposer - s2.stakers)
    else
      var s3 := SplitByRatio(config.reward.ratio, total);
      SplitResult(s3.cn, 0, s3.kgf, s3.kir, total - s3.kgf - s3.kir - s3.cn)
  }

  // ---------------------------------------------------------------- properties

  /** Truncating each of three non-negative weights' shares loses at most two units in all. */
  lemma {:induction false} ThreeWayBounds(source: int, a: int, b: int, c: int)
    requires source >= 0 && a >= 0 && b >= 0 && c >= 0 && a + b + c > 0
    ensures var t := a + b + c;
      var sum := source * a / t + source * b / t + source * c / t;
      source - 2 <= sum <= source
  {
    var t := a + b + c;
    var x, y, z := source * a / t, source * b / t, source * c / t;
    PartBounds(source, a, t);
    PartBounds(source, b, t);
    PartBounds(source, c, t);
    var sum := x + y + z;
    assert source * a + source * b + source * c == t * source;
    assert t * x + t * y + t * z == t * sum;
    CancelPositive(t, sum, source);
    assert t * source < t * (sum + 3);
    CancelPositiveStrict(t, source, sum + 3);
  }

  /** Truncating each of two non-negative weights' shares loses at most one unit in all. */
  lemma {:induction false} TwoWayBounds(source: int, a: int, b: int)
    requires source >= 0 && a >= 0 && b >= 0 && a + b > 0
    ensures var t := a + b;
      var sum := source * a / t + source * b / t;
      source - 1 <= sum <= source
  {
    var t := a + b;
    var x, y := source * a / t, source * b / t;
    PartBounds(source, a, t);
    PartBounds(source, b, t);
    var sum := x + y;
    assert source * a + source * b == t * source;
    assert t * x + t * y == t * sum;
    CancelPositive(t, sum, source);
    assert t * source < t * (sum + 2);
    CancelPositiveStrict(t, source, sum + 2);
  }

  /** With a well-formed ratio, every part is floor(source * r_i / total), the parts
      never exceed the source, and together they fall short of it by at most two. */
  lemma {:induction false} SplitByRatioBounds(ratio: string, source: int)
    requires WellFormedRatio(ratio) && source >= 0
    ensures var p, r := ParseRewardRatio(ratio).value, SplitByRatio(ratio, source);
      && p.total * r.cn <= source * p.cn < p.total * r.cn + p.total
      && p.total * r.kgf <= source * p.kgf < p.total * r.kgf + p.total
      && p.total * r.kir <= source * p.kir < p.total * r.kir + p.total
      && r.cn >= 0 && r.kgf >= 0 && r.kir >= 0
      && source - 2 <= r.cn + r.kgf + r.kir <= source
  {
    var p := ParseRewardRatio(ratio).value;
    var t, r := p.total, SplitByRatio(ratio, source);
    assert r == Split3(source * p.cn / t, source * p.kgf / t, source * p.kir / t);
    assert t == p.cn + p.kgf + p.kir;
    PartBounds(source, p.cn, t);
    PartBounds(source, p.kgf, t);
    PartBounds(source, p.kir, t);
    ThreeWayBounds(source, p.cn, p.kgf, p.kir);
  }

  /** With a well-formed KIP-82 ratio, both parts are floors, never exceed the source,
      and fall short of it by at most one. */
  lemma {:induction false} SplitByKip82RatioBounds(ratio: string, source: int)
    requires WellFormedKip82Ratio(ratio) && source >= 0
    ensures var p, r := ParseRewardKip82Ratio(ratio).value, SplitByKip82Ratio(ratio, source);
      && p.total * r.proposer <= source * p.proposer < p.total * r.proposer + p.total
      && p.total * r.stakers <= source * p.stakers < p.total * r.stakers + p.total
      && r.proposer >= 0 && r.stakers >= 0
      && source - 1 <= r.proposer + r.stakers <= source
  {
    var p := ParseRewardKip82Ratio(ratio).value;
    var t, r := p.total, SplitByKip82Ratio(ratio, source);
    assert r == Split2(source * p.proposer / t, source * p.stakers / t);
    assert t == p.proposer + p.stakers;
    PartBounds(source, p.proposer, t);
    PartBounds(source, p.stakers, t);
    TwoWayBounds(source, p.proposer, p.stakers);
  }

  /** With well-formed ratios and non-negative inputs every pool is non-negative and
      the remainder is what truncation lost: at most two before Kore (one split of
      three parts) and at most three after (a further split of two parts). After
      Kore the proposer holds the whole fee on top of its share of the CN part. */
  lemma {:induction false} CalcSplitBounds(config: ChainConfig, minted: int, fee: int)
    requires SplitWellFormed(config) && minted >= 0 && fee >= 0
    ensures var r := CalcSplit(config, minted, fee);
      && r.proposer >= 0 && r.stakers >= 0 && r.kgf >= 0 && r.kir >= 0
      && 0 <= r.remaining <= (if config.forks.kore then 3 else 2)
      && (config.forks.kore ==>
            r.proposer >= fee && r.proposer - fee + r.stakers <= SplitByRatio(config.reward.ratio, minted).cn)
  {
    if config.forks.kore {
      var s3 := SplitByRatio(config.reward.ratio, minted);
      SplitByRatioBounds(config.reward.ratio, minted);
      SplitByKip82RatioBounds(config.reward.kip82Ratio, s3.cn);
    } else {
      SplitByRatioBounds(config.reward.ratio, minted + fee);
    }
  }

  /** After Kore the fee never reaches stakers or treasuries: changing the fee moves
      only the proposer's pool, by the same amount, and leaves the remainder alone. */
  lemma CalcSplitFeeToProposer(config: ChainConfig, minted: int, fee1: int, fee2: int)
    requires SplitUsable(config) && config.forks.kore
    ensures var r1, r2 := CalcSplit(config, minted, fee1), CalcSplit(config, minted, fee2);
      && r1.stakers == r2.stakers && r1.kgf == r2.kgf && r1.kir == r2.kir
      && r1.remaining == r2.remaining
      && r1.proposer - fee1 == r2.proposer - fee2
  {
  }
}

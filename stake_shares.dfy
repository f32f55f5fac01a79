/** Division of the stakers' pool among consensus nodes by stake in excess of
    the minimum (calcShares). */
module StakeShares {
  import opened Common
  import opened Maps
  import opened Arithmetic

  datatype ShareResult = ShareResult(shares: map<Address, int>, remaining: int)

  predicate Qualifies(node: Node, minStake: nat) {
    node.stakingAmount > minStake
  }

  /** The stake a node holds beyond the minimum; zero when it does not qualify. */
  function Excess(node: Node, minStake: nat): nat {
    if Qualifies(node, minStake) then node.stakingAmount - minStake else 0
  }

  /** The total excess stake of the nodes. */
  function TotalExcess(nodes: seq<Node>, minStake: nat): nat {
    if nodes == [] then 0
    else TotalExcess(nodes[..|nodes| - 1], minStake) + Excess(nodes[|nodes| - 1], minStake)
  }

  /** The number of nodes above the minimum. */
  function QualifiedCount(nodes: seq<Node>, minStake: nat): nat {
    if nodes == [] then 0
    else QualifiedCount(nodes[..|nodes| - 1], minStake) + (if Qualifies(nodes[|nodes| - 1], minStake) then 1 else 0)
  }

  /** A qualifying node's share: floor(reward * excess / total). */
  function ShareOf(reward: int, node: Node, minStake: nat, total: nat): int
    requires total > 0
  {
    reward * Excess(node, minStake) / total
  }

  /** The shares computed for the qualifying nodes, added up (what the loop takes
      out of `remaining`). */
  function Distributed(nodes: seq<Node>, minStake: nat, reward: int, total: nat): int
    requires TotalExcess(nodes, minStake) <= total
  {
    if nodes == [] then 0
    else
      var last := nodes[|nodes| - 1];
      Distributed(nodes[..|nodes| - 1], minStake, reward, total)
        + (if Qualifies(last, minStake) then ShareOf(reward, last, minStake, total) else 0)
  }

  /** The shares map the loop builds: node by node, a positive share is stored under
      the node's reward address (replacing what is there); a zero share is left out. */
  function SharesMap(nodes: seq<Node>, minStake: nat, reward: int, total: nat): map<Address, int>
    requires TotalExcess(nodes, minStake) <= total
  {
    if nodes == [] then map[]
    else
      var last := nodes[|nodes| - 1];
      var m := SharesMap(nodes[..|nodes| - 1], minStake, reward, total);
      if Qualifies(last, minStake) && ShareOf(reward, last, minStake, total) > 0 then
        m[last.rewardAddr := ShareOf(reward, last, minStake, total)]
      else m
  }

  /** calcShares as a function: no snapshot gives no shares and the whole pool back;
      otherwise the shares of all nodes and what the truncations left. */
  function Shares(minStake: nat, info: Option<StakingInfo>, stakeReward: int): ShareResult {
    if info.None? then ShareResult(map[], stakeReward)
    else
      var nodes := info.value.nodes;
      var total := TotalExcess(nodes, minStake);
      ShareResult(SharesMap(nodes, minStake, stakeReward, total),
                  stakeReward - Distributed(nodes, minStake, stakeReward, total))
  }

  lemma {:induction false} TotalExcessPrefix(nodes: seq<Node>, minStake: nat, i: nat)
    requires i <= |nodes|
    ensures TotalExcess(nodes[..i], minStake) <= TotalExcess(nodes, minStake)
    decreases |nodes|
  {
    if i < |nodes| {
      var init := nodes[..|nodes| - 1];
      assert nodes[..i] == init[..i];
      TotalExcessPrefix(init, minStake, i);
    } else {
      assert nodes[..i] == nodes;
    }
  }

  /** No node qualifies exactly when there is no excess stake; then nothing is handed out. */
  lemma {:induction false} NoQualifiedNodes(nodes: seq<Node>, minStake: nat, reward: int, total: nat)
    requires TotalExcess(nodes, minStake) <= total
    ensures QualifiedCount(nodes, minStake) <= TotalExcess(nodes, minStake)
    ensures QualifiedCount(nodes, minStake) == 0 ==>
      && TotalExcess(nodes, minStake) == 0
      && Distributed(nodes, minStake, reward, total) == 0
      && SharesMap(nodes, minStake, reward, total) == map[]
  {
    if nodes != [] {
      NoQualifiedNodes(nodes[..|nodes| - 1], minStake, reward, total);
    }
  }

  /** One more node keeps the two bounds of DistributedBounds (plain arithmetic). */
  lemma BoundsStep(reward: int, total: int, e0: int, d0: int, q0: int, x: int, s: int)
    requires total > 0
    requires total * d0 <= reward * e0 && reward * e0 - total * d0 <= (total - 1) * q0
    requires total * s <= reward * x < total * s + total
    ensures total * (d0 + s) <= reward * (e0 + x)
    ensures reward * (e0 + x) - total * (d0 + s) <= (total - 1) * (q0 + 1)
  {
    assert reward * (e0 + x) == reward * e0 + reward * x;
    assert total * (d0 + s) == total * d0 + total * s;
    assert (total - 1) * (q0 + 1) == (total - 1) * q0 + (total - 1);
  }

  /** For a non-negative pool, the truncated shares of a prefix never exceed the pool's
      proportional part of that prefix's excess, and fall short of it by less than one
      unit per qualifying node (counted in multiples of the total). */
  lemma {:induction false} DistributedBounds(nodes: seq<Node>, minStake: nat, reward: int, total: nat)
    requires reward >= 0 && total > 0 && TotalExcess(nodes, minStake) <= total
    ensures var d, e := Distributed(nodes, minStake, reward, total), TotalExcess(nodes, minStake);
      && 0 <= d
      && total * d <= reward * e
      && reward * e - total * d <= (total - 1) * QualifiedCount(nodes, minStake)
  {
    if nodes != [] {
      var init, last := nodes[..|nodes| - 1], nodes[|nodes| - 1];
      DistributedBounds(init, minStake, reward, total);
      var d0, e0, q0 := Distributed(init, minStake, reward, total), TotalExcess(init, minStake), QualifiedCount(init, minStake);
      if Qualifies(last, minStake) {
        var x := Excess(last, minStake);
        var s := ShareOf(reward, last, minStake, total);
        PartBounds(reward, x, total);
        BoundsStep(reward, total, e0, d0, q0, x, s);
        assert Distributed(nodes, minStake, reward, total) == d0 + s;
        assert TotalExcess(nodes, minStake) == e0 + x;
        assert QualifiedCount(nodes, minStake) == q0 + 1;
      } else {
        assert Distributed(nodes, minStake, reward, total) == d0;
        assert TotalExcess(nodes, minStake) == e0;
        assert QualifiedCount(nodes, minStake) == q0;
      }
    }
  }

  /** calcShares never hands out more than a non-negative pool: the remainder is between
      zero and the pool, below the number of qualifying nodes when there is one, and the
      whole pool (with no shares) when there is no snapshot or no node qualifies. */
  lemma {:induction false} SharesBounds(minStake: nat, info: Option<StakingInfo>, stakeReward: int)
    requires stakeReward >= 0
    ensures var r := Shares(minStake, info, stakeReward);
      && 0 <= r.remaining <= stakeReward
      && (info.Some? && QualifiedCount(info.value.nodes, minStake) > 0 ==>
            r.remaining < QualifiedCount(info.value.nodes, minStake))
      && (info.None? || QualifiedCount(info.value.nodes, minStake) == 0 ==>
            r.remaining == stakeReward && r.shares == map[])
  {
    if info.Some? {
      var nodes := info.value.nodes;
      var total := TotalExcess(nodes, minStake);
      var q := QualifiedCount(nodes, minStake);
      NoQualifiedNodes(nodes, minStake, stakeReward, total);
      if q > 0 {
        var d := Distributed(nodes, minStake, stakeReward, total);
        DistributedBounds(nodes, minStake, stakeReward, total);
        assert total * d <= total * stakeReward;
        CancelPositive(total, d, stakeReward);
        assert total * (stakeReward - d) == stakeReward * total - total * d;
        assert (total - 1) * q < total * q;
        CancelPositiveStrict(total, stakeReward - d, q);
      }
    }
  }

  lemma DistinctPrefix(nodes: seq<Node>, n: nat)
    requires n <= |nodes| && DistinctRewardAddrs(nodes)
    ensures DistinctRewardAddrs(nodes[..n])
  {
    var init := nodes[..n];
    forall i, j | 0 <= i < j < |init|
      ensures init[i].rewardAddr != init[j].rewardAddr
    {
      assert init[i] == nodes[i] && init[j] == nodes[j];
    }
  }

  /** Every entry of the shares map is the reward address of some node. */
  lemma {:induction false} SharesMapKeys(nodes: seq<Node>, minStake: nat, reward: int, total: nat, a: Address)
    requires TotalExcess(nodes, minStake) <= total
    requires a in SharesMap(nodes, minStake, reward, total)
    ensures exists i :: 0 <= i < |nodes| && nodes[i].rewardAddr == a
  {
    var n := |nodes| - 1;
    var init := nodes[..n];
    if a in SharesMap(init, minStake, reward, total) {
      SharesMapKeys(init, minStake, reward, total, a);
      var i :| 0 <= i < |init| && init[i].rewardAddr == a;
      assert nodes[i].rewardAddr == a;
    } else {
      assert nodes[n].rewardAddr == a;
    }
  }

  /** With distinct reward addresses, node `i` has an entry exactly when it qualifies
      and its share is positive, and the entry is that share. */
  lemma {:induction false} SharesMapAt(nodes: seq<Node>, minStake: nat, reward: int, total: nat, i: nat)
    requires total > 0 && TotalExcess(nodes, minStake) <= total && DistinctRewardAddrs(nodes)
    requires i < |nodes|
    ensures var m, a := SharesMap(nodes, minStake, reward, total), nodes[i].rewardAddr;
      && (a in m <==> Qualifies(nodes[i], minStake) && ShareOf(reward, nodes[i], minStake, total) > 0)
      && (a in m ==> m[a] == ShareOf(reward, nodes[i], minStake, total))
  {
    var n := |nodes| - 1;
    var init := nodes[..n];
    DistinctPrefix(nodes, n);
    if i < n {
      SharesMapAt(init, minStake, reward, total, i);
      assert init[i] == nodes[i];
      assert nodes[i].rewardAddr != nodes[n].rewardAddr;
    } else if nodes[n].rewardAddr in SharesMap(init, minStake, reward, total) {
      SharesMapKeys(init, minStake, reward, total, nodes[n].rewardAddr);
      assert false;
    }
  }

  /** calcShares with distinct reward addresses: a node has an entry exactly when its
      stake is above the minimum and its share floor(reward * excess / total) is positive,
      the entry is that share, and there is no other entry. */
  lemma SharesContents(minStake: nat, info: StakingInfo, stakeReward: int)
    requires DistinctRewardAddrs(info.nodes) && TotalExcess(info.nodes, minStake) > 0
    ensures var nodes, total := info.nodes, TotalExcess(info.nodes, minStake);
      var m := Shares(minStake, Some(info), stakeReward).shares;
      && (forall i :: 0 <= i < |nodes| ==>
            (nodes[i].rewardAddr in m <==> Qualifies(nodes[i], minStake) && ShareOf(stakeReward, nodes[i], minStake, total) > 0))
      && (forall i :: 0 <= i < |nodes| && nodes[i].rewardAddr in m ==>
            m[nodes[i].rewardAddr] == ShareOf(stakeReward, nodes[i], minStake, total))
      && (forall a :: a in m ==> exists i :: 0 <= i < |nodes| && nodes[i].rewardAddr == a)
  {
    var nodes, total := info.nodes, TotalExcess(info.nodes, minStake);
    forall i | 0 <= i < |nodes|
      ensures var m, a := SharesMap(nodes, minStake, stakeReward, total), nodes[i].rewardAddr;
        && (a in m <==> Qualifies(nodes[i], minStake) && ShareOf(stakeReward, nodes[i], minStake, total) > 0)
        && (a in m ==> m[a] == ShareOf(stakeReward, nodes[i], minStake, total))
    {
      SharesMapAt(nodes, minStake, stakeReward, total, i);
    }
    forall a | a in SharesMap(nodes, minStake, stakeReward, total)
      ensures exists i :: 0 <= i < |nodes| && nodes[i].rewardAddr == a
    {
      SharesMapKeys(nodes, minStake, stakeReward, total, a);
    }
  }

  /** With distinct reward addresses and a non-negative pool, the stored shares add up to
      exactly what was taken out of the pool. */
  lemma {:induction false} SharesMapSum(nodes: seq<Node>, minStake: nat, reward: int, total: nat)
    requires reward >= 0 && TotalExcess(nodes, minStake) <= total && DistinctRewardAddrs(nodes)
    ensures SumValues(SharesMap(nodes, minStake, reward, total)) == Distributed(nodes, minStake, reward, total)
  {
    if nodes != [] {
      var n := |nodes| - 1;
      var init, last := nodes[..n], nodes[n];
      DistinctPrefix(nodes, n);
      SharesMapSum(init, minStake, reward, total);
      var m0 := SharesMap(init, minStake, reward, total);
      if Qualifies(last, minStake) {
        var s := ShareOf(reward, last, minStake, total);
        PartBounds(reward, Excess(last, minStake), total);
        if s > 0 {
          if last.rewardAddr in m0 {
            SharesMapKeys(init, minStake, reward, total, last.rewardAddr);
            assert false;
          }
          assert Increment(m0, last.rewardAddr, s) == m0[last.rewardAddr := s];
          IncrementSum(m0, last.rewardAddr, s);
        }
      }
    }
  }

  /** calcShares conserves a non-negative pool: the shares in the map plus the remainder
      are exactly the pool (reward addresses of the snapshot being distinct). */
  lemma SharesConserve(minStake: nat, info: Option<StakingInfo>, stakeReward: int)
    requires stakeReward >= 0
    requires info.Some? ==> DistinctRewardAddrs(info.value.nodes)
    ensures var r := Shares(minStake, info, stakeReward);
      SumValues(r.shares) + r.remaining == stakeReward
  {
    if info.Some? {
      var nodes := info.value.nodes;
      SharesMapSum(nodes, minStake, stakeReward, TotalExcess(nodes, minStake));
    } else {
      var empty: map<Address, int> := map[];
      assert SumValues(empty) == 0;
    }
  }

  /** Only positive shares are stored. */
  lemma {:induction false} SharesMapPositive(nodes: seq<Node>, minStake: nat, reward: int, total: nat, a: Address)
    requires TotalExcess(nodes, minStake) <= total
    requires a in SharesMap(nodes, minStake, reward, total)
    ensures SharesMap(nodes, minStake, reward, total)[a] > 0
  {
    var init := nodes[..|nodes| - 1];
    var last := nodes[|nodes| - 1];
    TotalExcessPrefix(nodes, minStake, |nodes| - 1);
    if !(Qualifies(last, minStake) && ShareOf(reward, last, minStake, total) > 0 && a == last.rewardAddr) {
      SharesMapPositive(init, minStake, reward, total, a);
    }
  }

  /** Every share calcShares hands out is positive. */
  lemma SharesPositive(minStake: nat, info: Option<StakingInfo>, stakeReward: int, a: Address)
    requires a in Shares(minStake, info, stakeReward).shares
    ensures Shares(minStake, info, stakeReward).shares[a] > 0
  {
    var nodes := info.value.nodes;
    SharesMapPositive(nodes, minStake, stakeReward, TotalExcess(nodes, minStake), a);
  }

  /** One more node adds its excess to the total. */
  lemma TotalExcessStep(nodes: seq<Node>, minStake: nat, i: nat)
    requires i < |nodes|
    ensures TotalExcess(nodes[..i + 1], minStake) == TotalExcess(nodes[..i], minStake) + Excess(nodes[i], minStake)
  {
    assert nodes[..i + 1][..i] == nodes[..i];
  }

  /** One more node takes its share out of the pool and, when the share is positive,
      stores it under its reward address; a qualifying node means a positive total. */
  lemma SharesStep(nodes: seq<Node>, minStake: nat, reward: int, total: nat, i: nat)
    requires i < |nodes| && TotalExcess(nodes[..i + 1], minStake) <= total
    ensures TotalExcess(nodes[..i], minStake) <= total
    ensures Qualifies(nodes[i], minStake) ==> total > 0
    ensures var node, pre, post := nodes[i], nodes[..i], nodes[..i + 1];
      && Distributed(post, minStake, reward, total) == Distributed(pre, minStake, reward, total)
           + (if Qualifies(node, minStake) then reward * (node.stakingAmount - minStake) / total else 0)
      && SharesMap(post, minStake, reward, total) ==
           (if Qualifies(node, minStake) && reward * (node.stakingAmount - minStake) / total > 0
            then SharesMap(pre, minStake, reward, total)[node.rewardAddr := reward * (node.stakingAmount - minStake) / total]
            else SharesMap(pre, minStake, reward, total))
  {
    TotalExcessStep(nodes, minStake, i);
    assert nodes[..i + 1][..i] == nodes[..i];
  }

  /** calcShares: the first loop totals the excess stake, the second hands out
      the shares and takes them out of the pool. */
  method CalcShares(minStake: nat, info: Option<StakingInfo>, stakeReward: int)
    returns (shares: map<Address, int>, remaining: int)
    ensures ShareResult(shares, remaining) == Shares(minStake, info, stakeReward)
  {
    if info.None? {
      return map[], stakeReward;
    }
    var nodes := info.value.nodes;

    var totalStakes: nat := 0;
    for i := 0 to |nodes|
      invariant totalStakes == TotalExcess(nodes[..i], minStake)
    {
      TotalExcessStep(nodes, minStake, i);
      if nodes[i].stakingAmount > minStake {
        totalStakes := totalStakes + (nodes[i].stakingAmount - minStake);
      }
    }
    assert nodes[..|nodes|] == nodes;

    remaining := stakeReward;
    shares := map[];
    for i := 0 to |nodes|
      invariant TotalExcess(nodes[..i], minStake) <= totalStakes
      invariant shares == SharesMap(nodes[..i], minStake, stakeReward, totalStakes)
      invariant remaining == stakeReward - Distributed(nodes[..i], minStake, stakeReward, totalStakes)
    {
      TotalExcessPrefix(nodes, minStake, i + 1);
      SharesStep(nodes, minStake, stakeReward, totalStakes, i);
      if nodes[i].stakingAmount > minStake {
        var effectiveStake := nodes[i].stakingAmount - minStake;
        var rewardAmount := stakeReward * effectiveStake / totalStakes;
        remaining := remaining - rewardAmount;
        if rewardAmount > 0 {
          shares := shares[nodes[i].rewardAddr := rewardAmount];
        }
      }
    }
    assert nodes[..|nodes|] == nodes;
  }
}

/**
 * The epoch reward split of src/db/runFillDb.ts and src/contractManager.ts. Amounts are in wei: the
 * source's ether values have 18 decimals, multiplication is exact and division rounds half up at the
 * 18th, which is rounding to a whole wei.
 */
module Rewards {

  /** The integer nearest to n/d, the larger one when two are. */
  function RoundHalfUp(n: nat, d: nat): nat
    requires d > 0
  {
    (2 * n + d) / (2 * d)
  }

  lemma DivisionBounds(a: int, b: int)
    requires b > 0
    ensures b * (a / b) <= a < b * (a / b) + b
  {
  }

  /** The rounded quotient is off by at most half a wei, upwards in a tie. */
  lemma RoundingError(n: nat, d: nat)
    requires d > 0
    ensures -(d as int) < 2 * (d * RoundHalfUp(n, d)) - 2 * n <= d
  {
    var r := RoundHalfUp(n, d);
    DivisionBounds(2 * n + d, 2 * d);
    assert (2 * d) * r == 2 * (d * r);
  }

  lemma DivisionMonotone(a: int, b: int, d: int)
    requires d > 0 && a <= b
    ensures a / d <= b / d
  {
    var x, y := a / d, b / d;
    DivisionBounds(a, d);
    DivisionBounds(b, d);
    if x >= y + 1 {
      MulMonotone(y + 1, x, d);
      Distribute(d, y, 1);
      assert false;
    }
  }

  lemma Distribute(a: int, b: int, c: int)
    ensures a * (b + c) == a * b + a * c
  {
  }

  lemma MulMonotone(x: int, y: int, z: int)
    requires x <= y && z >= 0
    ensures x * z <= y * z && z * x <= z * y
  {
  }

  /** The reward of a pool between the validator and the delegators. */
  function ValidatorReward(totalPoolReward: nat, minPercent: nat): nat {
    RoundHalfUp(totalPoolReward * minPercent, 100)
  }

  /** The validator's part never exceeds the pool's reward, so the two parts add up to it exactly. */
  lemma SplitIsExact(total: nat, minPercent: nat)
    requires minPercent <= 100
    ensures ValidatorReward(total, minPercent) <= total
    ensures -100 < 200 * ValidatorReward(total, minPercent) - 2 * total * minPercent <= 100
  {
    RoundingError(total * minPercent, 100);
    MulMonotone(minPercent, 100, total);
    assert total * minPercent <= total * 100;
  }

  function DelegatorReward(delegatorsTotal: nat, stake: nat, totalStake: nat): nat {
    if totalStake == 0 then 0 else RoundHalfUp(delegatorsTotal * stake, totalStake)
  }

  /** A larger stake never earns less. */
  lemma RewardMonotone(delegatorsTotal: nat, less: nat, more: nat, totalStake: nat)
    requires less <= more
    ensures DelegatorReward(delegatorsTotal, less, totalStake) <= DelegatorReward(delegatorsTotal, more, totalStake)
  {
    if totalStake > 0 {
      MulMonotone(less, more, delegatorsTotal);
      var small, large := 2 * (delegatorsTotal * less) + totalStake, 2 * (delegatorsTotal * more) + totalStake;
      DivisionMonotone(small, large, 2 * totalStake);
    }
  }

  function Sum(xs: seq<nat>): nat {
    if xs == [] then 0 else Sum(xs[..|xs| - 1]) + xs[|xs| - 1]
  }

  function RewardsOf(delegatorsTotal: nat, stakes: seq<nat>, totalStake: nat): seq<nat> {
    if stakes == [] then []
    else
      var n := |stakes| - 1;
      RewardsOf(delegatorsTotal, stakes[..n], totalStake) + [DelegatorReward(delegatorsTotal, stakes[n], totalStake)]
  }

  /** The reward at each place is that of the stake at this place. */
  lemma {:induction false} RewardOfEach(delegatorsTotal: nat, stakes: seq<nat>, totalStake: nat)
    ensures var rewards := RewardsOf(delegatorsTotal, stakes, totalStake);
      && |rewards| == |stakes|
      && forall i | 0 <= i < |stakes| :: rewards[i] == DelegatorReward(delegatorsTotal, stakes[i], totalStake)
  {
    hide DelegatorReward;
    if stakes != [] { RewardOfEach(delegatorsTotal, stakes[..|stakes| - 1], totalStake); }
  }

  /** Each delegator is paid within half a wei of its own share, upwards in a tie; a pool without stake pays nothing. */
  lemma EachIsPaidItsShare(delegatorsTotal: nat, stakes: seq<nat>, totalStake: nat)
    ensures var rewards := RewardsOf(delegatorsTotal, stakes, totalStake);
      && |rewards| == |stakes|
      && forall i | 0 <= i < |stakes| ::
           if totalStake == 0 then rewards[i] == 0
           else -(totalStake as int) < 2 * (totalStake * rewards[i]) - 2 * (delegatorsTotal * stakes[i]) <= totalStake
  {
    RewardOfEach(delegatorsTotal, stakes, totalStake);
    hide RewardsOf, RoundHalfUp;
    if totalStake > 0 {
      forall i | 0 <= i < |stakes|
        ensures var r := DelegatorReward(delegatorsTotal, stakes[i], totalStake);
          -(totalStake as int) < 2 * (totalStake * r) - 2 * (delegatorsTotal * stakes[i]) <= totalStake
      {
        RoundingError(delegatorsTotal * stakes[i], totalStake);
      }
    }
  }

  /**
   * Over n delegators the paid total is within n/2 wei of their proportional share:
   * |paid - delegatorsTotal * S / totalStake| <= n/2, here multiplied by 2 * totalStake.
   */
  lemma {:induction false} DriftBound(delegatorsTotal: nat, stakes: seq<nat>, totalStake: nat)
    requires totalStake > 0
    ensures var paid, exact := Sum(RewardsOf(delegatorsTotal, stakes, totalStake)), delegatorsTotal * Sum(stakes);
      -(totalStake * |stakes|) <= 2 * (totalStake * paid) - 2 * exact <= totalStake * |stakes|
  {
    if stakes != [] {
      var n := |stakes| - 1;
      var before, stake := stakes[..n], stakes[n];
      DriftBound(delegatorsTotal, before, totalStake);
      var r := DelegatorReward(delegatorsTotal, stake, totalStake);
      var paid := RewardsOf(delegatorsTotal, before, totalStake);
      assert (paid + [r])[..|paid|] == paid;
      RoundingError(delegatorsTotal * stake, totalStake);
      Distribute(totalStake, Sum(paid), r);
      Distribute(delegatorsTotal, Sum(before), stake);
      Distribute(totalStake, n, 1);
      assert Sum(RewardsOf(delegatorsTotal, stakes, totalStake)) == Sum(paid) + r;
      assert Sum(stakes) == Sum(before) + stake;
      hide *;
    }
  }

  /** When the stakes add up to the pool's, at most n/2 wei are over- or underpaid. */
  lemma FullPoolDrift(delegatorsTotal: nat, stakes: seq<nat>, totalStake: nat)
    requires totalStake > 0 && Sum(stakes) == totalStake
    ensures -|stakes| <= 2 * Sum(RewardsOf(delegatorsTotal, stakes, totalStake)) - 2 * delegatorsTotal <= |stakes|
  {
    DriftBound(delegatorsTotal, stakes, totalStake);
    ScaledBound(totalStake, Sum(RewardsOf(delegatorsTotal, stakes, totalStake)), delegatorsTotal, |stakes|);
  }

  lemma ScaledBound(s: int, paid: int, due: int, n: int)
    requires s > 0 && -(s * n) <= 2 * (s * paid) - 2 * (due * s) <= s * n
    ensures -n <= 2 * paid - 2 * due <= n
  {
    var drift := 2 * paid - 2 * due;
    Distribute(s, 2 * paid, -2 * due);
    assert s * drift == 2 * (s * paid) - 2 * (due * s);
    if drift >= n + 1 {
      MulMonotone(n + 1, drift, s);
      Distribute(s, n, 1);
    }
    if drift <= -n - 1 {
      MulMonotone(drift, -n - 1, s);
      Distribute(s, -n, -1);
    }
  }

  /** The bound is reached: k wei over 2k equal stakes pay every delegator a whole wei, k too many. */
  lemma DriftAttained(k: nat)
    requires k > 0
    ensures var stakes := seq(2 * k, i => 1);
      Sum(stakes) == 2 * k && Sum(RewardsOf(k, stakes, 2 * k)) == k + |stakes| / 2
  {
    AllOnes(k, 2 * k);
  }

  lemma {:induction false} AllOnes(k: nat, n: nat)
    requires k > 0
    ensures Sum(seq(n, i => 1)) == n && Sum(RewardsOf(k, seq(n, i => 1), 2 * k)) == n
  {
    var stakes: seq<nat> := seq(n, i => 1);
    if n > 0 {
      AllOnes(k, n - 1);
      assert stakes[..n - 1] == seq(n - 1, i => 1);
      RoundingError(k, 2 * k);
      var r := DelegatorReward(k, 1, 2 * k);
      assert r == 1 by { HalfRoundsUp(k); }
      var paid := RewardsOf(k, stakes[..n - 1], 2 * k);
      assert (paid + [r])[..|paid|] == paid;
    }
  }

  lemma HalfRoundsUp(k: nat)
    requires k > 0
    ensures RoundHalfUp(k, 2 * k) == 1
  {
    assert 2 * k + 2 * k == 2 * (2 * k);
  }

  /** getDelegateRewards: one reward per delegator, and the operator's share of the whole pool reward. */
  method GetDelegateRewards(stakes: seq<nat>, totalStake: nat, validatorReward: nat, delegatorsReward: nat,
                            operatorShare: nat)
      returns (rewards: seq<nat>, totalPoolReward: nat, nodeOperatorReward: nat)
    ensures totalPoolReward == validatorReward + delegatorsReward
    ensures -10000 < 20000 * nodeOperatorReward - 2 * (totalPoolReward * operatorShare) <= 10000
    ensures |rewards| == |stakes|
    ensures totalStake > 0 ==> forall i | 0 <= i < |stakes| ::
      -(totalStake as int) < 2 * (totalStake * rewards[i]) - 2 * (delegatorsReward * stakes[i]) <= totalStake
    ensures totalStake == 0 ==> forall i | 0 <= i < |stakes| :: rewards[i] == 0
    ensures rewards == RewardsOf(delegatorsReward, stakes, totalStake)
    ensures totalStake > 0 && Sum(stakes) == totalStake ==>
      -|stakes| <= 2 * Sum(rewards) - 2 * delegatorsReward <= |stakes|
  {
    totalPoolReward := validatorReward + delegatorsReward;
    nodeOperatorReward := RoundHalfUp(totalPoolReward * operatorShare, 10000);
    RoundingError(totalPoolReward * operatorShare, 10000);
    rewards := [];
    var i := 0;
    while i < |stakes|
      invariant 0 <= i <= |stakes|
      invariant rewards == RewardsOf(delegatorsReward, stakes[..i], totalStake)
    {
      assert stakes[..i + 1][..i] == stakes[..i];
      var delegatorReward := if totalStake == 0 then 0 else RoundHalfUp(delegatorsReward * stakes[i], totalStake);
      rewards := rewards + [delegatorReward];
      i := i + 1;
    }
    assert stakes[..i] == stakes;
    EachIsPaidItsShare(delegatorsReward, stakes, totalStake);
    if totalStake > 0 && Sum(stakes) == totalStake { FullPoolDrift(delegatorsReward, stakes, totalStake); }
  }

  /** One pool of an epoch transition: nothing is created or lost at the top split. */
  method SplitPoolReward(totalPoolReward: nat, validatorMinPct: nat) returns (validatorReward: nat,
                         delegatorsReward: int)
    ensures validatorReward + delegatorsReward == totalPoolReward
    ensures validatorReward == ValidatorReward(totalPoolReward, validatorMinPct)
    ensures -100 < 200 * validatorReward - 2 * (totalPoolReward * validatorMinPct) <= 100
    ensures validatorMinPct <= 100 ==> delegatorsReward >= 0
  {
    validatorReward := RoundHalfUp(totalPoolReward * validatorMinPct, 100);
    delegatorsReward := totalPoolReward - validatorReward;
    RoundingError(totalPoolReward * validatorMinPct, 100);
    if validatorMinPct <= 100 { SplitIsExact(totalPoolReward, validatorMinPct); }
  }
}

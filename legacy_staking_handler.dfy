/**
 * The earlier reward-accrual arithmetic of `FinthetixStakingContractHandler`
 * (web-app/app/contracts/FinthetixStakingContract.ts): the accrued reward is the
 * stake times the emission rate times the growth of the global index, with no final division.
 */
module LegacyStakingHandler {
  import opened Wrappers
  import opened JsNumerics
  import opened StakingSnapshot

  /** The message thrown when the provider has no block under the current block number. */
  function MissingBlockMessage(currBlockNo: int): (m: string)
    ensures |m| == 30 + |IntToString(currBlockNo)|
    ensures m[..15] == "Current block (" && m[|m| - 15..] == ") doesn't exist"
  {
    "Current block (" + IntToString(currBlockNo) + ") doesn't exist"
  }

  /**
   * `_calculateAccruedAlpha`: the growth of the global index since its last on-chain update.
   * An empty pool accrues nothing and looks up no block; otherwise the latest block must exist.
   */
  function CalculateAccruedAlpha(c: ContractReads, currBlockNo: int, blockTimestamp: Option<int>): (r: Result<int>)
    ensures c.totalStakedAmt == 0 ==> r == Success(0)
    ensures c.totalStakedAmt != 0 && !BlockExists(blockTimestamp) ==> r == Failure(MissingBlockMessage(currBlockNo))
    ensures r.Success? <==> c.totalStakedAmt == 0 || BlockExists(blockTimestamp)
    ensures c.totalStakedAmt != 0 && r.Success? ==>
      var elapsedScaled := (blockTimestamp.value - c.lastUpdatedRewardAt) * c.cooldownConstant;
      && Abs(elapsedScaled - c.totalStakedAmt * r.value) < Abs(c.totalStakedAmt)
      && (elapsedScaled - c.totalStakedAmt * r.value == 0 || (elapsedScaled - c.totalStakedAmt * r.value < 0 <==> elapsedScaled < 0))
  {
    if c.totalStakedAmt == 0 then Success(0)
    else if !BlockExists(blockTimestamp) then Failure(MissingBlockMessage(currBlockNo))
    else Success(TruncDiv((blockTimestamp.value - c.lastUpdatedRewardAt) * c.cooldownConstant, c.totalStakedAmt))
  }

  /**
   * `_calculateAccruedReward`: stake times rate times the growth of the index since the user's
   * last interaction, where the current index is the published one plus the accrued alpha.
   */
  function CalculateAccruedReward(c: ContractReads, currBlockNo: int, blockTimestamp: Option<int>): (r: Result<int>)
    ensures r.Success? <==> CalculateAccruedAlpha(c, currBlockNo, blockTimestamp).Success?
    ensures r.Failure? ==> r == Failure(MissingBlockMessage(currBlockNo))
    ensures r.Success? ==>
      var alphaNow := c.publishedAlphaNow + CalculateAccruedAlpha(c, currBlockNo, blockTimestamp).value;
      r.value == c.stakedAmt * c.totalRewardsPerSec * (alphaNow - c.alphaOfUserAtLastInteraction)
  {
    var accruedAlpha :- CalculateAccruedAlpha(c, currBlockNo, blockTimestamp);
    var alphaNow := c.publishedAlphaNow + accruedAlpha;
    Success(c.stakedAmt * c.totalRewardsPerSec * (alphaNow - c.alphaOfUserAtLastInteraction))
  }

  /** `_getRewardAmt`: the published reward plus the reward accrued since. */
  function GetRewardAmt(c: ContractReads, currBlockNo: int, blockTimestamp: Option<int>): (r: Result<int>)
    ensures r.Success? <==> CalculateAccruedReward(c, currBlockNo, blockTimestamp).Success?
    ensures r.Success? ==> r.value - c.publishedReward == CalculateAccruedReward(c, currBlockNo, blockTimestamp).value
  {
    var accruedReward :- CalculateAccruedReward(c, currBlockNo, blockTimestamp);
    Success(c.publishedReward + accruedReward)
  }

  /** With no stake, or no growth of the index since the user's last interaction, the reward is the published one. */
  lemma NothingAccruedWithoutStakeOrIndexGrowth(c: ContractReads, currBlockNo: int, blockTimestamp: Option<int>)
    requires c.totalStakedAmt == 0 || BlockExists(blockTimestamp)
    requires var a := CalculateAccruedAlpha(c, currBlockNo, blockTimestamp);
      c.stakedAmt == 0 || c.publishedAlphaNow + a.value == c.alphaOfUserAtLastInteraction
    ensures GetRewardAmt(c, currBlockNo, blockTimestamp) == Success(c.publishedReward)
  {
    var delta := c.publishedAlphaNow + CalculateAccruedAlpha(c, currBlockNo, blockTimestamp).value - c.alphaOfUserAtLastInteraction;
    assert c.stakedAmt == 0 || delta == 0;
    assert c.stakedAmt * c.totalRewardsPerSec * delta == 0;
  }

  /** With an empty pool the published index is final, whatever the block lookup returns. */
  lemma EmptyPoolUsesPublishedIndex(c: ContractReads, currBlockNo: int, blockTimestamp: Option<int>)
    requires c.totalStakedAmt == 0
    ensures GetRewardAmt(c, currBlockNo, blockTimestamp)
      == Success(c.publishedReward + c.stakedAmt * c.totalRewardsPerSec * (c.publishedAlphaNow - c.alphaOfUserAtLastInteraction))
  {
  }

  /** Scenario: 100 seconds elapsed; the index grows by 100 * 100 / 1000 = 10 and the reward by 1000 * 500 * 10. */
  lemma ScenarioHundredSecondsElapsed(publishedReward: int)
    ensures var c := ContractReads(1000, publishedReward, 500, 10, 10, 1000, 1000, 100);
      && CalculateAccruedAlpha(c, 7, Some(1100)) == Success(10)
      && GetRewardAmt(c, 7, Some(1100)) == Success(publishedReward + 5000000)
  {
  }

  /** The error message names the block number it looked up. */
  lemma MissingBlockMessageNamesBlock(currBlockNo: int)
    ensures var m := MissingBlockMessage(currBlockNo);
      m[15..15 + |IntToString(currBlockNo)|] == IntToString(currBlockNo)
  {
  }

  /** On unsigned reads the accrued alpha does not decrease as the block timestamp grows. */
  lemma {:induction false} AccruedAlphaMonotoneInTime(c: ContractReads, currBlockNo: int, t1: int, t2: int)
    requires NonNegative(c)
    requires t1 != 0 && t2 != 0 && t1 <= t2
    ensures CalculateAccruedAlpha(c, currBlockNo, Some(t1)).Success? && CalculateAccruedAlpha(c, currBlockNo, Some(t2)).Success?
    ensures CalculateAccruedAlpha(c, currBlockNo, Some(t1)).value <= CalculateAccruedAlpha(c, currBlockNo, Some(t2)).value
  {
    if c.totalStakedAmt != 0 {
      MulMonotone(c.cooldownConstant, t1 - c.lastUpdatedRewardAt, t2 - c.lastUpdatedRewardAt);
      assert (t1 - c.lastUpdatedRewardAt) * c.cooldownConstant <= (t2 - c.lastUpdatedRewardAt) * c.cooldownConstant;
      TruncDivMonotone((t1 - c.lastUpdatedRewardAt) * c.cooldownConstant,
                       (t2 - c.lastUpdatedRewardAt) * c.cooldownConstant, c.totalStakedAmt);
    }
  }

  /** On unsigned reads the earlier reward does not decrease as the block timestamp grows either. */
  lemma {:induction false} RewardMonotoneInTime(c: ContractReads, currBlockNo: int, t1: int, t2: int)
    requires NonNegative(c)
    requires t1 != 0 && t2 != 0 && t1 <= t2
    ensures GetRewardAmt(c, currBlockNo, Some(t1)).Success? && GetRewardAmt(c, currBlockNo, Some(t2)).Success?
    ensures GetRewardAmt(c, currBlockNo, Some(t1)).value <= GetRewardAmt(c, currBlockNo, Some(t2)).value
  {
    AccruedAlphaMonotoneInTime(c, currBlockNo, t1, t2);
    var a1 := CalculateAccruedAlpha(c, currBlockNo, Some(t1)).value;
    var a2 := CalculateAccruedAlpha(c, currBlockNo, Some(t2)).value;
    var k := c.stakedAmt * c.totalRewardsPerSec;
    MulNonNegative(c.stakedAmt, c.totalRewardsPerSec);
    var d1 := c.publishedAlphaNow + a1 - c.alphaOfUserAtLastInteraction;
    var d2 := c.publishedAlphaNow + a2 - c.alphaOfUserAtLastInteraction;
    MulMonotone(k, d1, d2);
    assert k * d1 <= k * d2;
  }
}

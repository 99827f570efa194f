/**
 * The reward-accrual and cooldown arithmetic of the current `FinthetixStakingContractHandler`
 * (web-app/src/app/contracts/FinthetixStakingContract.ts). Every contract read is a field of
 * `ContractReads`, the latest block's timestamp is a parameter, and so is the wall clock.
 * The product of stake, rate and index growth is divided by the cooldown constant once, at the end.
 */
module StakingHandler {
  import opened Wrappers
  import opened JsNumerics
  import opened StakingSnapshot
  import Legacy = LegacyStakingHandler

  /** The message of the error thrown when the latest block is missing. */
  const MISSING_BLOCK_MESSAGE := "Current block doesn't exist"

  /** The message of the RangeError JavaScript throws on a bigint division by zero. */
  const DIVISION_BY_ZERO_MESSAGE := "Division by zero"

  /**
   * `_calculateAccruedAlpha`: the growth of the global index since its last on-chain update,
   * `(blockTimestamp - lastUpdatedRewardAt) * cooldownConstant / totalStakedAmt`, truncated.
   * An empty pool accrues nothing and looks up no block, so nothing divides by zero.
   */
  function CalculateAccruedAlpha(c: ContractReads, blockTimestamp: Option<int>): (r: Result<int>)
    ensures c.totalStakedAmt == 0 ==> r == Success(0)
    ensures c.totalStakedAmt != 0 && !BlockExists(blockTimestamp) ==> r == Failure(MISSING_BLOCK_MESSAGE)
    ensures r.Success? <==> c.totalStakedAmt == 0 || BlockExists(blockTimestamp)
    ensures c.totalStakedAmt != 0 && r.Success? ==>
      var elapsedScaled := (blockTimestamp.value - c.lastUpdatedRewardAt) * c.cooldownConstant;
      && Abs(elapsedScaled - c.totalStakedAmt * r.value) < Abs(c.totalStakedAmt)
      && (elapsedScaled - c.totalStakedAmt * r.value == 0 || (elapsedScaled - c.totalStakedAmt * r.value < 0 <==> elapsedScaled < 0))
  {
    if c.totalStakedAmt == 0 then Success(0)
    else if !BlockExists(blockTimestamp) then Failure(MISSING_BLOCK_MESSAGE)
    else Success(TruncDiv((blockTimestamp.value - c.lastUpdatedRewardAt) * c.cooldownConstant, c.totalStakedAmt))
  }

  /**
   * `_calculateAccruedReward`: `stakedAmt * totalRewardsPerSec * (alphaNow - alphaAtLastInteraction) / cooldownConstant`,
   * all multiplications first and one truncating division last. A failed block lookup wins over
   * the division error, since it rejects before the division is reached.
   */
  function CalculateAccruedReward(c: ContractReads, blockTimestamp: Option<int>): (r: Result<int>)
    ensures CalculateAccruedAlpha(c, blockTimestamp).Failure? ==> r == Failure(MISSING_BLOCK_MESSAGE)
    ensures CalculateAccruedAlpha(c, blockTimestamp).Success? && c.cooldownConstant == 0 ==> r == Failure(DIVISION_BY_ZERO_MESSAGE)
    ensures r.Success? <==> CalculateAccruedAlpha(c, blockTimestamp).Success? && c.cooldownConstant != 0
    ensures r.Success? ==>
      var product := c.stakedAmt * c.totalRewardsPerSec
        * (c.publishedAlphaNow + CalculateAccruedAlpha(c, blockTimestamp).value - c.alphaOfUserAtLastInteraction);
      && Abs(product - c.cooldownConstant * r.value) < Abs(c.cooldownConstant)
      && (product - c.cooldownConstant * r.value == 0 || (product - c.cooldownConstant * r.value < 0 <==> product < 0))
  {
    var accruedAlpha :- CalculateAccruedAlpha(c, blockTimestamp);
    var alphaNow := c.publishedAlphaNow + accruedAlpha;
    if c.cooldownConstant == 0 then Failure(DIVISION_BY_ZERO_MESSAGE)
    else Success(TruncDiv(c.stakedAmt * c.totalRewardsPerSec * (alphaNow - c.alphaOfUserAtLastInteraction), c.cooldownConstant))
  }

  /** `_getRewardAmt`: the published reward plus the reward accrued since. */
  function GetRewardAmt(c: ContractReads, blockTimestamp: Option<int>): (r: Result<int>)
    ensures r.Success? <==> CalculateAccruedReward(c, blockTimestamp).Success?
    ensures r.Failure? ==> r == CalculateAccruedReward(c, blockTimestamp)
    ensures r.Success? ==> r.value - c.publishedReward == CalculateAccruedReward(c, blockTimestamp).value
  {
    var accruedReward :- CalculateAccruedReward(c, blockTimestamp);
    Success(c.publishedReward + accruedReward)
  }

  /**
   * `_getCooldownAtMs`: the end of the cooldown, `lastUpdatedRewardAt + totalStakedAmt / cooldownConstant`
   * seconds, in milliseconds. A cooldown constant of 0 makes the division throw.
   */
  function GetCooldownAtMs(c: ContractReads): (r: Result<int>)
    ensures r.Failure? <==> c.cooldownConstant == 0
    ensures r.Failure? ==> r.error == DIVISION_BY_ZERO_MESSAGE
    ensures r.Success? ==>
      && r.value % 1000 == 0
      && var cooldownTime := r.value / 1000 - c.lastUpdatedRewardAt;
      && Abs(c.totalStakedAmt - c.cooldownConstant * cooldownTime) < Abs(c.cooldownConstant)
      && (c.totalStakedAmt - c.cooldownConstant * cooldownTime == 0
          || (c.totalStakedAmt - c.cooldownConstant * cooldownTime < 0 <==> c.totalStakedAmt < 0))
  {
    if c.cooldownConstant == 0 then Failure(DIVISION_BY_ZERO_MESSAGE)
    else
      var cooldownTime := TruncDiv(c.totalStakedAmt, c.cooldownConstant);
      var cooldownAt := c.lastUpdatedRewardAt + cooldownTime;
      Success(cooldownAt * 1000)
  }

  /** `getIsContractCoolingDown`: the wall clock `nowMs` is strictly before the end of the cooldown. */
  function GetIsContractCoolingDown(c: ContractReads, nowMs: int): (r: Result<bool>)
    ensures r.Failure? <==> c.cooldownConstant == 0
    ensures r.Success? ==> (r.value <==> nowMs < GetCooldownAtMs(c).value)
  {
    var cooldownAtMs :- GetCooldownAtMs(c);
    Success(nowMs < cooldownAtMs)
  }

  // ---------------------------------------------------------------------------
  // Properties

  /** An empty pool never needs the block: the accrued alpha is 0 even when the lookup fails. */
  lemma EmptyPoolAccruesNothing(c: ContractReads, blockTimestamp: Option<int>)
    requires c.totalStakedAmt == 0 && c.cooldownConstant != 0
    ensures CalculateAccruedAlpha(c, blockTimestamp) == Success(0)
    ensures GetRewardAmt(c, blockTimestamp).Success?
  {
  }

  /** Cooling down is strict: at the deadline itself the pool is no longer cooling down. */
  lemma NotCoolingDownAtDeadline(c: ContractReads)
    requires c.cooldownConstant != 0
    ensures GetIsContractCoolingDown(c, GetCooldownAtMs(c).value) == Success(false)
    ensures GetIsContractCoolingDown(c, GetCooldownAtMs(c).value - 1) == Success(true)
  {
  }

  /**
   * On unsigned reads with a positive cooldown constant, and an index that has not fallen behind the
   * user's checkpoint, the reward is at least the published one.
   */
  lemma {:induction false} RewardAtLeastPublished(c: ContractReads, blockTimestamp: Option<int>)
    requires NonNegative(c) && c.cooldownConstant > 0
    requires CalculateAccruedAlpha(c, blockTimestamp).Success?
    requires c.publishedAlphaNow + CalculateAccruedAlpha(c, blockTimestamp).value >= c.alphaOfUserAtLastInteraction
    ensures GetRewardAmt(c, blockTimestamp).Success?
    ensures GetRewardAmt(c, blockTimestamp).value >= c.publishedReward
  {
    var delta := c.publishedAlphaNow + CalculateAccruedAlpha(c, blockTimestamp).value - c.alphaOfUserAtLastInteraction;
    MulNonNegative(c.stakedAmt, c.totalRewardsPerSec);
    MulNonNegative(c.stakedAmt * c.totalRewardsPerSec, delta);
    TruncDivNonNegative(c.stakedAmt * c.totalRewardsPerSec * delta, c.cooldownConstant);
  }

  /** The accrued alpha does not decrease as the block timestamp grows. */
  lemma {:induction false} AccruedAlphaMonotoneInTime(c: ContractReads, t1: int, t2: int)
    requires NonNegative(c)
    requires t1 != 0 && t2 != 0 && t1 <= t2
    ensures CalculateAccruedAlpha(c, Some(t1)).Success? && CalculateAccruedAlpha(c, Some(t2)).Success?
    ensures CalculateAccruedAlpha(c, Some(t1)).value <= CalculateAccruedAlpha(c, Some(t2)).value
  {
    if c.totalStakedAmt != 0 {
      MulMonotone(c.cooldownConstant, t1 - c.lastUpdatedRewardAt, t2 - c.lastUpdatedRewardAt);
      assert (t1 - c.lastUpdatedRewardAt) * c.cooldownConstant <= (t2 - c.lastUpdatedRewardAt) * c.cooldownConstant;
      TruncDivMonotone((t1 - c.lastUpdatedRewardAt) * c.cooldownConstant,
                       (t2 - c.lastUpdatedRewardAt) * c.cooldownConstant, c.totalStakedAmt);
    }
  }

  /** On unsigned reads with a positive cooldown constant, the reward does not decrease as the block timestamp grows. */
  lemma {:induction false} RewardMonotoneInTime(c: ContractReads, t1: int, t2: int)
    requires NonNegative(c) && c.cooldownConstant > 0
    requires t1 != 0 && t2 != 0 && t1 <= t2
    ensures GetRewardAmt(c, Some(t1)).Success? && GetRewardAmt(c, Some(t2)).Success?
    ensures GetRewardAmt(c, Some(t1)).value <= GetRewardAmt(c, Some(t2)).value
  {
    AccruedAlphaMonotoneInTime(c, t1, t2);
    var a1 := CalculateAccruedAlpha(c, Some(t1)).value;
    var a2 := CalculateAccruedAlpha(c, Some(t2)).value;
    var k := c.stakedAmt * c.totalRewardsPerSec;
    MulNonNegative(c.stakedAmt, c.totalRewardsPerSec);
    var d1 := c.publishedAlphaNow + a1 - c.alphaOfUserAtLastInteraction;
    var d2 := c.publishedAlphaNow + a2 - c.alphaOfUserAtLastInteraction;
    MulMonotone(k, d1, d2);
    assert k * d1 <= k * d2;
    TruncDivMonotone(k * d1, k * d2, c.cooldownConstant);
  }

  /** The two versions agree on the accrued alpha, and the current reward is the earlier one divided by the constant. */
  lemma {:induction false} AgreesWithLegacyUpToDivision(c: ContractReads, currBlockNo: int, blockTimestamp: Option<int>)
    requires c.cooldownConstant != 0
    ensures CalculateAccruedAlpha(c, blockTimestamp).Success? == Legacy.CalculateAccruedAlpha(c, currBlockNo, blockTimestamp).Success?
    ensures CalculateAccruedAlpha(c, blockTimestamp).Success? ==>
      && CalculateAccruedAlpha(c, blockTimestamp).value == Legacy.CalculateAccruedAlpha(c, currBlockNo, blockTimestamp).value
      && CalculateAccruedReward(c, blockTimestamp).value
         == TruncDiv(Legacy.CalculateAccruedReward(c, currBlockNo, blockTimestamp).value, c.cooldownConstant)
  {
  }

  /** Scenario: no time elapsed since the last update; nothing accrues and the reward is the published one. */
  lemma ScenarioNoTimeElapsed(publishedReward: int)
    ensures var c := ContractReads(1000, publishedReward, 500, 10, 10, 1000, 1000, 100);
      && CalculateAccruedAlpha(c, Some(1000)) == Success(0)
      && GetRewardAmt(c, Some(1000)) == Success(publishedReward)
  {
  }

  /** Scenario: 100 seconds elapsed; the index grows by 10, the product is 5,000,000 and the reward grows by 50,000. */
  lemma ScenarioHundredSecondsElapsed(publishedReward: int)
    ensures var c := ContractReads(1000, publishedReward, 500, 10, 10, 1000, 1000, 100);
      && CalculateAccruedAlpha(c, Some(1100)) == Success(10)
      && GetRewardAmt(c, Some(1100)) == Success(publishedReward + 50000)
  {
  }

  /** Scenario: 1000 staked with constant 100 after an update at 5000 s; the cooldown ends at 5010 s. */
  lemma ScenarioCooldown(c: ContractReads)
    requires c.totalStakedAmt == 1000 && c.cooldownConstant == 100 && c.lastUpdatedRewardAt == 5000
    ensures GetCooldownAtMs(c) == Success(5010000)
  {
  }
}

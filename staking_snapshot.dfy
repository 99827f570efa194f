/**
 * The on-chain values the staking-contract handlers read before they compute anything.
 * Each field is the awaited result of one contract read; the handlers' arithmetic is a
 * function of these values and of the latest block's timestamp.
 */
module StakingSnapshot {
  import opened Wrappers

  datatype ContractReads = ContractReads(
    stakedAmt: int,                     // viewMyStakedAmt()
    publishedReward: int,               // viewMyPublishedRewards()
    totalRewardsPerSec: int,            // TOTAL_REWARDS_PER_SECOND()
    alphaOfUserAtLastInteraction: int,  // viewAlphaAtMyLastInteraction()
    publishedAlphaNow: int,             // alphaNow()
    totalStakedAmt: int,                // totalStakedAmt()
    lastUpdatedRewardAt: int,           // lastUpdatedRewardAt(), unix seconds
    cooldownConstant: int               // COOLDOWN_CONSTANT()
  )

  /** The contract's values are unsigned integers. */
  predicate NonNegative(c: ContractReads) {
    && c.stakedAmt >= 0 && c.publishedReward >= 0 && c.totalRewardsPerSec >= 0
    && c.alphaOfUserAtLastInteraction >= 0 && c.publishedAlphaNow >= 0
    && c.totalStakedAmt >= 0 && c.lastUpdatedRewardAt >= 0 && c.cooldownConstant >= 0
  }

  /**
   * The latest block's timestamp as the provider returns it: None when there is no block.
   * The handlers test it for truthiness, so a timestamp of 0 counts as missing too.
   */
  predicate BlockExists(blockTimestamp: Option<int>)
    ensures blockTimestamp == None || blockTimestamp == Some(0) ==> !BlockExists(blockTimestamp)
  {
    blockTimestamp.Some? && blockTimestamp.value != 0
  }
}

# Finthetix web-app core, modelled in Dafny

Finthetix is a staking dapp. Users stake a token, earn a reward token over time, and watch their
history on a dashboard. This project models the parts of its web app that compute something, in two
generations of the app. The current one lives under `web-app/src/app`, the earlier one under
`web-app/app`.

- **Reward accrual and cooldown** (`StakingSnapshot`, `StakingHandler`, `LegacyStakingHandler`).
  - The contract reads are values in a `ContractReads` record.
  - The latest block's timestamp is an `Option<int>`; `None` and 0 both count as a missing block.
  - The wall clock is a `nowMs` parameter.
  - BigInt division truncates toward zero, as `JsNumerics.TruncDiv`.
  - The current handler divides the accrued reward by the cooldown constant. The earlier one does not.
- **Dashboard graph data** (`LogData`, `GraphData`, `LegacyGraphData`).
  - Both event lists are stably sorted by timestamp.
  - The reward events are walked as a queue. The stake queue's head is taken only when its timestamp
    equals the current reward event's.
  - On no match, the current version carries the previous staked amount forward. The earlier one
    emits a gap, `None`.
  - Both are methods with loops over the queues. They are proved against a recursive description
    (`LogData.Consumed`) of what stake events have been consumed so far.
- **Token-amount helpers**:
  - `TokenPercentage`: an integer percentage of a token count;
  - `ReadableErc20` and `LegacyUtils`: how a count is split and which `Intl` notation is chosen;
  - `StringifyBigInts`: recursive bigint-to-string serialisation over a JSON-like `JsValue`.
- **Small rules**:
  - `CooldownFormat`: the "hh hours mm mins ss seconds" text;
  - `SortTxns`: the event-log comparator;
  - `DappInfoSchema`: the Ethereum-address pattern, as a tiny case-insensitive anchored matcher;
  - `ChartAxis`: the chart y-axis id check.
- **User state** (`UserSlice`, `LegacyUserSlice`). The Redux user slices are classes whose reducers
  assign their fields, with the persist/remember round trip.

Shared helpers:
- `Wrappers` (`Option`, `Result`);
- `JsNumerics`: truncating division, decimal `toString` and `BigInt(string)`, `padStart`, `slice`.

## Model

| member | source | states |
|---|---|---|
| JsNumerics.TruncDiv | web-app/src/app/contracts/FinthetixStakingContract.ts:308-309 | BigInt `/`: the remainder is smaller than the divisor in magnitude, is zero or has the dividend's sign, and the result equals Euclidean division for non-negative operands |
| JsNumerics.TruncDivDiffersFromEuclidean | web-app/src/app/contracts/FinthetixStakingContract.ts:308-309 | on a negative dividend BigInt division is not Dafny's: -7 / 2 is -3, not -4 |
| JsNumerics.TruncDivMonotone | web-app/src/app/contracts/FinthetixStakingContract.ts:308-309 | truncating division by a positive number does not decrease as the dividend grows |
| JsNumerics.NatToString | web-app/app/routes/dashboard/subcomponents/CooldownBanner/lib/formatTimeToCooldown.ts:16 | `toString()` of a non-negative integer: one or more digits, a single one exactly below 10; `ParseNatToString` reads it back as the number |
| JsNumerics.IntToString | web-app/app/lib/utils/getPercentageOfTokenCount.ts:17 | `toString()` of a bigint: a leading '-' exactly for negatives, followed by the magnitude's numeral; the numeral alone otherwise |
| JsNumerics.ParseIntToString | web-app/app/lib/utils/getPercentageOfTokenCount.ts:15-17 | `BigInt(n.toString())` gives back `n` for every integer |
| JsNumerics.ParseBigInt | web-app/app/lib/utils/getPercentageOfTokenCount.ts:15 | `BigInt(string)`: a digit string reads as its value, a negative result comes only from '-' followed by digits, and a failure carries the SyntaxError message for a non-empty string that is not all digits |
| JsNumerics.Slice | web-app/app/lib/utils/readableERC20.ts:24 | `slice(start, end)`: an in-range pair takes `s[start..end]`, a negative end counts from the back, an end of 0 gives "" |
| JsNumerics.SliceFrom | web-app/app/lib/utils/readableERC20.ts:25 | `slice(start)`: a non-negative start takes the suffix from there, a negative one the last `-start` characters |
| JsNumerics.PadStart | web-app/app/routes/dashboard/subcomponents/CooldownBanner/lib/formatTimeToCooldown.ts:16 | `padStart`: the length is the larger of the target and the string's, the string is the suffix, the pad character fills the rest, and it never truncates |
| JsNumerics.ParseDigitsLeadingZeros | web-app/app/routes/dashboard/subcomponents/CooldownBanner/lib/formatTimeToCooldown.ts:16 | zero padding does not change the value a digit string stands for |
| LegacyStakingHandler.CalculateAccruedAlpha | web-app/app/contracts/FinthetixStakingContract.ts:58-75 | an empty pool gives 0 without a block lookup; a missing or zero timestamp fails with a message naming the block; otherwise the elapsed time times the constant is divided, truncated, by the total staked |
| LegacyStakingHandler.CalculateAccruedReward | web-app/app/contracts/FinthetixStakingContract.ts:45-56 | fails exactly when the alpha does; otherwise stake times rate times (published alpha plus accrued alpha minus the user's checkpoint), with no division |
| LegacyStakingHandler.GetRewardAmt | web-app/app/contracts/FinthetixStakingContract.ts:38-43 | the published reward plus the accrued reward, failing when the accrual does |
| LegacyStakingHandler.NothingAccruedWithoutStakeOrIndexGrowth | web-app/app/contracts/FinthetixStakingContract.ts:38-56 | with no stake or no index growth since the user's last interaction the reward is the published one |
| LegacyStakingHandler.EmptyPoolUsesPublishedIndex | web-app/app/contracts/FinthetixStakingContract.ts:59-60 | with an empty pool the reward uses the published index, whatever the block lookup returns |
| LegacyStakingHandler.ScenarioHundredSecondsElapsed | web-app/app/contracts/FinthetixStakingContract.ts:45-75 | 100 seconds, constant 100 and pool 1000 give an index growth of 10 and a reward growth of 5,000,000 |
| LegacyStakingHandler.MissingBlockMessage | web-app/app/contracts/FinthetixStakingContract.ts:65-66 | the earlier handler's error text: "Current block (", the block number's text, then ") doesn't exist" |
| LegacyStakingHandler.MissingBlockMessageNamesBlock | web-app/app/contracts/FinthetixStakingContract.ts:62-66 | the missing-block error message contains the block number's decimal text |
| LegacyStakingHandler.AccruedAlphaMonotoneInTime | web-app/app/contracts/FinthetixStakingContract.ts:58-75 | on non-negative reads the accrued alpha never decreases as the block timestamp grows |
| LegacyStakingHandler.RewardMonotoneInTime | web-app/app/contracts/FinthetixStakingContract.ts:45-75 | on non-negative reads the reward never decreases as the block timestamp grows |
| StakingSnapshot.BlockExists | web-app/src/app/contracts/FinthetixStakingContract.ts:296-299 | the `!blockTimestampAsNumber` test: no block and a timestamp of 0 both count as a missing block (the earlier handler, web-app/app/contracts/FinthetixStakingContract.ts lines 63-66, tests the same way) |
| StakingHandler.CalculateAccruedAlpha | web-app/src/app/contracts/FinthetixStakingContract.ts:288-310 | an empty pool gives 0 without a block lookup; a missing or falsy timestamp fails with "Current block doesn't exist"; otherwise the truncated quotient of elapsed time times the constant by the total staked |
| StakingHandler.CalculateAccruedReward | web-app/src/app/contracts/FinthetixStakingContract.ts:256-286 | a block failure comes first, then a zero constant fails with "Division by zero"; otherwise the full product of stake, rate and index delta is divided once by the constant, truncated |
| StakingHandler.GetRewardAmt | web-app/src/app/contracts/FinthetixStakingContract.ts:244-254 | the published reward plus the accrued reward, with the accrual's error when it fails |
| StakingHandler.GetCooldownAtMs | web-app/src/app/contracts/FinthetixStakingContract.ts:312-332 | fails exactly on a zero constant; otherwise a whole number of seconds, in ms, whose distance from the last update is the truncated quotient of the total staked by the constant |
| StakingHandler.GetIsContractCoolingDown | web-app/src/app/contracts/FinthetixStakingContract.ts:234-238 | fails exactly on a zero cooldown constant; otherwise cooling down exactly when the clock is strictly before the cooldown deadline |
| StakingHandler.EmptyPoolAccruesNothing | web-app/src/app/contracts/FinthetixStakingContract.ts:289-290 | an empty pool accrues 0, and with a non-zero constant the reward succeeds even when the block lookup fails |
| StakingHandler.NotCoolingDownAtDeadline | web-app/src/app/contracts/FinthetixStakingContract.ts:234-238 | at the deadline itself the pool is not cooling down; one millisecond before, it is |
| StakingHandler.RewardAtLeastPublished | web-app/src/app/contracts/FinthetixStakingContract.ts:283-285 | on non-negative reads, with a positive constant and an index not behind the user's checkpoint, the reward is at least the published one |
| StakingHandler.AccruedAlphaMonotoneInTime | web-app/src/app/contracts/FinthetixStakingContract.ts:308-309 | on non-negative reads the accrued alpha never decreases as the block timestamp grows |
| StakingHandler.RewardMonotoneInTime | web-app/src/app/contracts/FinthetixStakingContract.ts:283-285 | on non-negative reads with a positive constant the reward never decreases as the block timestamp grows |
| StakingHandler.AgreesWithLegacyUpToDivision | web-app/src/app/contracts/FinthetixStakingContract.ts:283-285 | both versions compute the same alpha, and the current accrued reward is the earlier one divided by the constant |
| StakingHandler.ScenarioNoTimeElapsed | web-app/src/app/contracts/FinthetixStakingContract.ts:256-310 | with no time elapsed since the last update nothing accrues |
| StakingHandler.ScenarioHundredSecondsElapsed | web-app/src/app/contracts/FinthetixStakingContract.ts:256-310 | 100 seconds with constant 100 give an index growth of 10 and a reward growth of 50,000 |
| StakingHandler.ScenarioCooldown | web-app/src/app/contracts/FinthetixStakingContract.ts:328-330 | 1000 staked, constant 100 and an update at 5000 s give a deadline of 5,010,000 ms |
| LogData.SortByKey | web-app/src/app/routes/dashboard/subcomponents/UserLogDataGraph/lib/getGraphDataFromLogData.ts:17-22 | the sort keeps the number of events |
| LogData.SortByKeyCorrect | web-app/src/app/routes/dashboard/subcomponents/UserLogDataGraph/lib/getGraphDataFromLogData.ts:17-22 | the sort orders timestamps ascending, is a permutation, and keeps events with equal timestamps in their input order |
| LogData.SortStakeEvents | web-app/src/app/routes/dashboard/subcomponents/UserLogDataGraph/lib/getGraphDataFromLogData.ts:17-19 | sorting the stake events keeps their number |
| LogData.SortRewardEvents | web-app/src/app/routes/dashboard/subcomponents/UserLogDataGraph/lib/getGraphDataFromLogData.ts:20-22 | sorting the reward events keeps their number |
| LogData.Consumed | web-app/src/app/routes/dashboard/subcomponents/UserLogDataGraph/lib/getGraphDataFromLogData.ts:50-57 | the stake events consumed before an iteration number no more than the iterations and no more than the stake events |
| LogData.ConsumedStep | web-app/src/app/routes/dashboard/subcomponents/UserLogDataGraph/lib/getGraphDataFromLogData.ts:50-57 | one iteration consumes exactly one stake event when the queue's head matches the reward timestamp, and none otherwise |
| LogData.QueueStep | web-app/src/app/routes/dashboard/subcomponents/UserLogDataGraph/lib/getGraphDataFromLogData.ts:50-57 | an iteration takes the stake queue's head exactly when it matches the reward timestamp, and leaves the next iteration's queue |
| LogData.ConsumedMonotone | web-app/src/app/routes/dashboard/subcomponents/UserLogDataGraph/lib/getGraphDataFromLogData.ts:50-57 | stake events are consumed in sorted order, never more than one per iteration |
| LogData.AllConsumedWhenRewardsCoverStakes | web-app/src/app/routes/dashboard/subcomponents/UserLogDataGraph/lib/getGraphDataFromLogData.ts:28-31 | when no timestamp occurs more often among the stake events than among the reward events (the reward events being the longer list and a superset), the loop over the sorted lists consumes every stake event |
| GraphData.GetGraphDataFromLogData | web-app/src/app/routes/dashboard/subcomponents/UserLogDataGraph/lib/getGraphDataFromLogData.ts:7-62 | the inputs are left unchanged; the three outputs have one entry per reward event; reward values and timestamps follow the sorted rewards; each staked value is the amount of the last consumed stake event or 0; it is the matching stake's amount on a match and the previous value (0 first) otherwise; the queue-empty error cannot happen |
| GraphData.LastConsumedAmtStep | web-app/src/app/routes/dashboard/subcomponents/UserLogDataGraph/lib/getGraphDataFromLogData.ts:50-58 | the last consumed amount is the head's amount on a match and the previous point's value, or 0 first, otherwise |
| GraphData.Drained | web-app/src/app/routes/dashboard/subcomponents/UserLogDataGraph/lib/getGraphDataFromLogData.ts:31-59 | after `n` iterations each of the three outputs has `n` entries |
| GraphData.DrainedRewardsAt | web-app/src/app/routes/dashboard/subcomponents/UserLogDataGraph/lib/getGraphDataFromLogData.ts:35-48 | entry `j` holds the `j`-th sorted reward event's balance and its formatted timestamp |
| GraphData.DrainedStakedAt | web-app/src/app/routes/dashboard/subcomponents/UserLogDataGraph/lib/getGraphDataFromLogData.ts:50-58 | staked entry `j` is the amount of the last stake event consumed by iteration `j`, or 0 |
| GraphData.DrainStep | web-app/src/app/routes/dashboard/subcomponents/UserLogDataGraph/lib/getGraphDataFromLogData.ts:31-59 | one iteration appends the head's amount on a match and the previous value (0 first) otherwise, and leaves the next iteration's stake queue |
| GraphData.DrainQueues | web-app/src/app/routes/dashboard/subcomponents/UserLogDataGraph/lib/getGraphDataFromLogData.ts:30-59 | the loop over the sorted queues builds exactly the data of its iterations; the queue-empty error cannot happen |
| LegacyGraphData.CountPresent | web-app/app/routes/dashboard/subcomponents/UserLogDataGraph/lib/getGraphDataFromLogData.ts:42-50 | the number of points with a staked amount is at most the number of points |
| LegacyGraphData.DrainedRewardsAt | web-app/app/routes/dashboard/subcomponents/UserLogDataGraph/lib/getGraphDataFromLogData.ts:35-40 | after `n` iterations the outputs have `n` entries and entry `j` holds the `j`-th sorted reward event's balance and timestamp |
| LegacyGraphData.DrainedStakedAt | web-app/app/routes/dashboard/subcomponents/UserLogDataGraph/lib/getGraphDataFromLogData.ts:42-50 | staked entry `j` is `Some` of the head's amount when iteration `j` takes the head, and `None` otherwise |
| LegacyGraphData.DrainedCount | web-app/app/routes/dashboard/subcomponents/UserLogDataGraph/lib/getGraphDataFromLogData.ts:42-50 | the number of `Some` entries is the number of stake events taken off the queue |
| LegacyGraphData.DrainStep | web-app/app/routes/dashboard/subcomponents/UserLogDataGraph/lib/getGraphDataFromLogData.ts:31-51 | one iteration appends the head's amount on a match and `None` otherwise, and leaves the next iteration's stake queue |
| LegacyGraphData.DrainQueues | web-app/app/routes/dashboard/subcomponents/UserLogDataGraph/lib/getGraphDataFromLogData.ts:30-51 | the loop over the sorted queues builds exactly the data of its iterations; the queue-empty error cannot happen |
| LegacyGraphData.GetGraphDataFromLogData | web-app/app/routes/dashboard/subcomponents/UserLogDataGraph/lib/getGraphDataFromLogData.ts:7-54 | the inputs are left unchanged; the three outputs have one entry per reward event; timestamps are the sorted reward timestamps, ascending; reward values follow the sorted rewards; a staked value is `Some` of the head's amount on a match and `None` otherwise; the number of `Some`s is the number of consumed stake events, at most their total |
| TokenPercentage.GetPercentageOfTokenCount | web-app/app/lib/utils/getPercentageOfTokenCount.ts:12-22 | fails exactly when the value is not an integer string; decimals pass through; the result string is the canonical `toString()` numeral of the value times the percentage divided by 100, truncated toward zero, and reads back as that number |
| TokenPercentage.FullPercentageKeepsValue | web-app/app/lib/utils/getPercentageOfTokenCount.ts:15-16 | at 100 percent the amount is unchanged, and a canonical numeral comes back unchanged |
| TokenPercentage.ZeroPercentageIsZero | web-app/app/lib/utils/getPercentageOfTokenCount.ts:15-17 | at 0 percent the value is "0" |
| TokenPercentage.PercentageWithinAmount | web-app/app/lib/utils/getPercentageOfTokenCount.ts:4-16 | for a non-negative amount and a percentage from 0 to 100 the result lies between 0 and the amount |
| TokenPercentage.PercentageMonotone | web-app/app/lib/utils/getPercentageOfTokenCount.ts:15-16 | for a non-negative amount a larger percentage never gives less |
| CooldownFormat.FormatTimeToCooldown | web-app/app/routes/dashboard/subcomponents/CooldownBanner/lib/formatTimeToCooldown.ts:10-30 | a negative duration fails with its message, and only then; the text always ends with the seconds field and " seconds" |
| CooldownFormat.TimeFieldReadsBack | web-app/app/routes/dashboard/subcomponents/CooldownBanner/lib/formatTimeToCooldown.ts:13-23 | a field is digits only, at least two of them (exactly two below 100), and reads back as its value; hours are never truncated |
| CooldownFormat.FieldsRecompose | web-app/app/routes/dashboard/subcomponents/CooldownBanner/lib/formatTimeToCooldown.ts:13-22 | seconds and minutes are below 60, and hours, minutes, seconds and the dropped milliseconds add up to the input |
| CooldownFormat.SegmentsPresentIffNonZero | web-app/app/routes/dashboard/subcomponents/CooldownBanner/lib/formatTimeToCooldown.ts:25-27 | the text mentions minutes exactly when the minutes are not zero, and hours exactly when the hours are not zero |
| CooldownFormat.HoursFieldLeads | web-app/app/routes/dashboard/subcomponents/CooldownBanner/lib/formatTimeToCooldown.ts:22-27 | non-zero hours open the text with the hours field and " hours "; zero hours leave the minutes segment followed by the seconds |
| CooldownFormat.MinutesFieldBeforeSeconds | web-app/app/routes/dashboard/subcomponents/CooldownBanner/lib/formatTimeToCooldown.ts:18-27 | non-zero minutes appear as the two-digit minutes field and " mins " between the hours segment and the seconds; zero minutes put the hours segment directly before the seconds |
| CooldownFormat.ScenarioHourAndFiveSeconds | web-app/app/routes/dashboard/subcomponents/CooldownBanner/lib/formatTimeToCooldown.ts:25-27 | 3,605,000 ms is "01 hours 05 seconds" |
| CooldownFormat.ScenarioUnderASecond | web-app/app/routes/dashboard/subcomponents/CooldownBanner/lib/formatTimeToCooldown.ts:13-25 | 999 ms is "00 seconds": the seconds are padded and zero minutes and hours are left out |
| CooldownFormat.ScenarioHundredHours | web-app/app/routes/dashboard/subcomponents/CooldownBanner/lib/formatTimeToCooldown.ts:22-23 | 100 hours show as "100 hours 00 seconds" |
| CooldownFormat.ScenarioHourMinutesAndSeconds | web-app/app/routes/dashboard/subcomponents/CooldownBanner/lib/formatTimeToCooldown.ts:13-27 | 3,725,000 ms is "01 hours 02 mins 05 seconds": all three fields, each padded to two digits |
| SortTxns.SortTxns | web-app/app/lib/utils/sortTxns.ts:13-20 | always 1 or -1; across blocks 1 exactly when the first block is later; within a block 1 exactly when the first index is later; on distinct logs -1 exactly when the first comes first lexicographically |
| SortTxns.AntisymmetricOnDistinct | web-app/app/lib/utils/sortTxns.ts:14-19 | swapping two distinct logs negates the result |
| SortTxns.TieIsNotAntisymmetric | web-app/app/lib/utils/sortTxns.ts:16 | two logs at the same position give -1 in both orders |
| SortTxns.TransitiveOnDistinct | web-app/app/lib/utils/sortTxns.ts:13-20 | the order on distinct logs is transitive |
| StringifyBigInts.StringifyBigIntsInObj | web-app/app/lib/utils/stringifyBigIntsInObj.ts:14-29 | the result is an object with the same keys in the same order (index keys for an array); it contains no bigint, null or array at any depth; it fails exactly when some nested value is null (the copy at web-app/app/lib/utils.ts lines 59-75 has the same body) |
| StringifyBigInts.SerializeVal | web-app/app/lib/utils/stringifyBigIntsInObj.ts:19-26 | the value stored under one key: null fails, and a serialised value is never a bigint, null or array |
| StringifyBigInts.SerializeValKeepsShape | web-app/app/lib/utils/stringifyBigIntsInObj.ts:16-26 | a nested object keeps its keys in order and a nested array becomes an object keyed "0", "1", ... |
| StringifyBigInts.SerializeEntriesKeepsKeys | web-app/app/lib/utils/stringifyBigIntsInObj.ts:16-26 | mapping the entries keeps every key in place |
| StringifyBigInts.SerializeItemsKeys | web-app/app/lib/utils/stringifyBigIntsInObj.ts:16-26 | an array's entries are keyed by their index |
| StringifyBigInts.SerializeValSucceedsIffNoNull | web-app/app/lib/utils/stringifyBigIntsInObj.ts:22-23 | a value is serialised exactly when it neither is nor contains null, and the only error is the one `Object.entries(null)` throws |
| StringifyBigInts.SerializeEntriesSucceedsIffNoNull | web-app/app/lib/utils/stringifyBigIntsInObj.ts:22-23 | an object's entries are serialised exactly when no entry is or contains null |
| StringifyBigInts.SerializeItemsSucceedIffNoNull | web-app/app/lib/utils/stringifyBigIntsInObj.ts:22-23 | an array's elements are serialised exactly when none is or contains null |
| StringifyBigInts.SerializeValIsClean | web-app/app/lib/utils/stringifyBigIntsInObj.ts:20-24 | a serialised value has no bigint, null or array at any depth |
| StringifyBigInts.SerializeEntriesAreClean | web-app/app/lib/utils/stringifyBigIntsInObj.ts:20-24 | serialised entries hold only clean values |
| StringifyBigInts.SerializeItemsAreClean | web-app/app/lib/utils/stringifyBigIntsInObj.ts:20-24 | serialised array elements are clean values |
| StringifyBigInts.CleanIsFixedPoint | web-app/app/lib/utils/stringifyBigIntsInObj.ts:20-24 | a clean value is returned exactly as it is |
| StringifyBigInts.CleanEntriesAreFixed | web-app/app/lib/utils/stringifyBigIntsInObj.ts:16-26 | clean entries are returned exactly as they are |
| StringifyBigInts.Idempotent | web-app/app/lib/utils/stringifyBigIntsInObj.ts:14-29 | applying the function to its own result gives the same result |
| StringifyBigInts.BigIntEntryReadsBack | web-app/app/lib/utils/stringifyBigIntsInObj.ts:20-21 | a bigint becomes the decimal string that `BigInt` reads back as the same value |
| StringifyBigInts.ScenarioNestedArray | web-app/app/lib/utils/stringifyBigIntsInObj.ts:17-24 | a nested array of a bigint and a boolean becomes an object keyed "0", "1" |
| StringifyBigInts.ScenarioNestedNull | web-app/app/lib/utils/stringifyBigIntsInObj.ts:17-24 | a nested null makes the call throw |
| ReadableErc20.WholePart | web-app/app/lib/utils/readableERC20.ts:24 | with at least one decimal, everything but the last decimals digits; with zero decimals, empty |
| ReadableErc20.FractionPart | web-app/app/lib/utils/readableERC20.ts:25 | with at least one decimal, exactly the last decimals digits; with zero decimals, the whole string |
| ReadableErc20.GetReadableERC20TokenCount | web-app/app/lib/utils/readableERC20.ts:7-36 | "0" is returned as it is; the two-significant-digit pure-fraction branch is taken exactly when the count has no more digits than decimals, in the given notation, on the padded fraction; otherwise scientific exactly when the whole part is longer than 18 digits, as a BigInt, and compact on whole.fraction otherwise; it fails exactly when a long whole part is not an integer |
| ReadableErc20.FractionalTextPadsToDecimals | web-app/app/lib/utils/readableERC20.ts:15-17 | the pure fraction is "0." followed by exactly decimals digits: zeros, then the count |
| ReadableErc20.DefaultFractionalNotationIsScientific | web-app/app/lib/utils/readableERC20.ts:10 | without an explicit notation a pure fraction is scientific |
| ReadableErc20.SplitReassembles | web-app/app/lib/utils/readableERC20.ts:24-25 | with at least one decimal, the fraction has exactly decimals digits and whole plus fraction is the count |
| ReadableErc20.ZeroDecimalsLoseWholePart | web-app/app/lib/utils/readableERC20.ts:24-25 | with zero decimals "123" is split into "" and "123" and handed to `Number` as ".123" |
| ReadableErc20.IntendedWholePart | web-app/app/lib/utils/readableERC20.ts:24 | the corrected whole part has all but the last decimals characters |
| ReadableErc20.IntendedFractionPart | web-app/app/lib/utils/readableERC20.ts:25 | the corrected fraction has exactly decimals characters, zero included |
| ReadableErc20.IntendedSplitReassembles | web-app/app/lib/utils/readableERC20.ts:24-25 | the corrected split reassembles the count, and with zero decimals the whole part is the entire count |
| ReadableErc20.IntendedSplitAgreesWithDecimals | web-app/app/lib/utils/readableERC20.ts:24-25 | the corrected split equals the written one whenever there is at least one decimal |
| ReadableErc20.GetReadableERC20TokenCountIntended | web-app/app/lib/utils/readableERC20.ts:7-36 | the corrected decision equals the written one with at least one decimal, and shows a short zero-decimal count as the whole number |
| ReadableErc20.ZeroDecimalsKeepWholePartWhenIntended | web-app/app/lib/utils/readableERC20.ts:24-25 | with the corrected split a zero-decimal "123" is handed to `Number` as "123." |
| LegacyUtils.GetReadableERC20TokenCount | web-app/app/lib/utils.ts:27-57 | "0" is returned as it is; every formatted branch has two fraction digits; a pure fraction is always scientific on the padded fraction; otherwise scientific exactly when the whole part is longer than 18 digits; it fails exactly when a long whole part is not an integer |
| LegacyUtils.AgreesWithLaterVersionOnWholeCounts | web-app/app/lib/utils.ts:44-56 | outside the pure-fraction branch the earlier and later versions decide the same |
| LegacyUtils.FractionDiffersFromLaterVersionOnlyInRounding | web-app/app/lib/utils.ts:34-41 | on a pure fraction both versions format the same number scientifically by default, with different rounding options |
| LegacyUtils.ZeroDecimalsLoseWholePart | web-app/app/lib/utils.ts:45-46 | the earlier version also hands a zero-decimal "123" to `Number` as ".123" |
| LegacyUserSlice.RememberedAddress | web-app/app/redux/features/user/slice.ts:32-34 | the remembered address is present exactly when the payload has a non-empty address, and is then that address (the current slice, web-app/src/app/redux/features/user/slice.ts lines 43-45, reads the payload by the same rule) |
| LegacyUserSlice.PersistPlaybook | web-app/app/redux/features/user/slice.ts:48-52 | the slice's key, "user", and a record holding the active address (the current slice, web-app/src/app/redux/features/user/slice.ts lines 58-62, persists the same key and record) |
| LegacyUserSlice.PersistRememberRoundTrip | web-app/app/redux/features/user/slice.ts:48-59 | reading back what was saved gives the same address when it was non-empty, and null otherwise |
| LegacyUserSlice.UserState.constructor | web-app/app/redux/features/user/slice.ts:15-18 | the initial state has no address and is loading |
| LegacyUserSlice.UserState.SetActiveAddress | web-app/app/redux/features/user/slice.ts:24-27 | replaces the address and nothing else |
| LegacyUserSlice.UserState.SetIsUserLoading | web-app/app/redux/features/user/slice.ts:29-31 | replaces the loading flag and nothing else |
| LegacyUserSlice.UserState.Remember | web-app/app/redux/features/user/slice.ts:32-38 | takes the remembered address, and is loading exactly when there is one |
| LegacyUserSlice.RestoreFromStorage | web-app/app/redux/features/user/slice.ts:48-59 | persisting and remembering into a new slice restores a non-empty address with loading set, and null without it |
| UserSlice.UserState.constructor | web-app/src/app/redux/features/user/slice.ts:17-22 | the initial state: not from storage, no address, loading, no chain |
| UserSlice.UserState.SetActiveAddress | web-app/src/app/redux/features/user/slice.ts:28-33 | sets the address, clears the from-storage flag, and leaves loading and the chain alone |
| UserSlice.UserState.SetIsUserLoading | web-app/src/app/redux/features/user/slice.ts:35-37 | changes only the loading flag |
| UserSlice.UserState.SetActiveChainId | web-app/src/app/redux/features/user/slice.ts:39-41 | changes only the chain id, to the non-null payload |
| UserSlice.UserState.Remember | web-app/src/app/redux/features/user/slice.ts:43-47 | takes the remembered address, marks it as from storage, and leaves loading and the chain alone; the user is then not logged in |
| UserSlice.IsLoggedIn | web-app/src/app/redux/features/user/slice.ts:76-78 | `selectIsUserLoggedIn`: logged in requires a non-empty address, and never holds while loading or for a remembered address |
| UserSlice.UserState.IsUserLoggedIn | web-app/src/app/redux/features/user/slice.ts:76-78 | the selector on the slice's fields: logged in only when not loading, not from storage and with a non-empty address |
| UserSlice.LoggedInNeedsWalletAddress | web-app/src/app/redux/features/user/slice.ts:76-78 | logged in needs a non-empty address; a null or empty address, or one from storage, is never logged in |
| UserSlice.RestoreFromStorage | web-app/src/app/redux/features/user/slice.ts:58-69 | persisting and remembering into a new slice restores a non-empty address, marked as from storage and not logged in |
| UserSlice.RememberThenConfirm | web-app/src/app/redux/features/user/slice.ts:28-78 | a remembered address is not logged in; once the wallet sets it and loading ends, it is |
| DappInfoSchema.IsEthAddress | web-app/src/app/lib/loaders/dappInfo/schema.ts:9 | `ethAddressSchema`: a valid address is 42 characters long and starts with '0'; `EthAddressCharacterisation` gives the full iff |
| DappInfoSchema.IsValidDappInfo | web-app/src/app/lib/loaders/dappInfo/schema.ts:11-15 | `dappInfoSchema`: a valid DappInfo has three 42-character addresses; `OneBadAddressRejects` gives the conjunction |
| DappInfoSchema.EthAddressPattern | web-app/src/app/lib/loaders/dappInfo/schema.ts:9 | the pattern is '0', 'x', then 40 hexadecimal-digit atoms |
| DappInfoSchema.HexDigits | web-app/src/app/lib/loaders/dappInfo/schema.ts:9 | the 40-digit group of the pattern is 40 copies of the hexadecimal-digit atom |
| DappInfoSchema.MatchesPointwise | web-app/src/app/lib/loaders/dappInfo/schema.ts:9 | an anchored match of single-character atoms is an equal-length, position-by-position match |
| DappInfoSchema.HexAtomMatchesHexChars | web-app/src/app/lib/loaders/dappInfo/schema.ts:9 | with the `i` flag the hex atom matches exactly 0-9, a-f and A-F |
| DappInfoSchema.EthAddressCharacterisation | web-app/src/app/lib/loaders/dappInfo/schema.ts:9 | valid exactly when 42 characters long, starting "0x" or "0X", followed by 40 hexadecimal digits |
| DappInfoSchema.CaseDoesNotMatter | web-app/src/app/lib/loaders/dappInfo/schema.ts:9 | two strings equal up to letter case are both valid or both invalid |
| DappInfoSchema.SameLowerSameClass | web-app/src/app/lib/loaders/dappInfo/schema.ts:9 | characters equal up to case agree on being hex digits, '0' and 'x' |
| DappInfoSchema.AnchoredAtBothEnds | web-app/src/app/lib/loaders/dappInfo/schema.ts:9 | an extra character in front of or behind a valid address makes it invalid |
| DappInfoSchema.ScenarioValidAddresses | web-app/src/app/lib/loaders/dappInfo/schema.ts:9 | "0x" followed by 40 zeros and "0X" followed by 40 'A's are valid |
| DappInfoSchema.ScenarioNonHexRejected | web-app/src/app/lib/loaders/dappInfo/schema.ts:9 | "0x" followed by 40 'g's is invalid |
| DappInfoSchema.ScenarioShortRejected | web-app/src/app/lib/loaders/dappInfo/schema.ts:9 | "0x" followed by 39 zeros is invalid |
| DappInfoSchema.OneBadAddressRejects | web-app/src/app/lib/loaders/dappInfo/schema.ts:11-15 | one invalid address among the three makes the DappInfo invalid |
| ChartAxis.GetIsValidYAxisIdForDashboardChart | web-app/src/app/routes/dashboard/subcomponents/UserLogDataGraph/subcomponents/StakeAndRewardAmtGraphs/lib/useChartOptions/lib/types.ts:21-26 | valid exactly for "rewardAmt" and "stakedAmt" |
| ChartAxis.CaseAndSpellingMatter | web-app/src/app/routes/dashboard/subcomponents/UserLogDataGraph/subcomponents/StakeAndRewardAmtGraphs/lib/useChartOptions/lib/types.ts:23-25 | "RewardAmt", "stakedamt", a trailing space, the empty string and `undefined` are all invalid |

## Left out

- Contract and provider I/O are not modelled: the ethers reads, `getBlock`, `txn.wait()`, event-log queries and decoding, and the cached contract handles. Their results are parameters: `ContractReads`, the block timestamp and, in the earlier handler, the block number.
- Failures of the contract reads themselves, and which of several concurrent `Promise.all` failures wins, are not modelled. The model's errors are the missing block and the division by zero, in the order the code reaches them.
- `Number(...)` on a bigint is taken as the exact integer. Precision loss above 2^53 is not modelled (`Number(cooldownAt * 1000n)`, the graph values).
- `new Date().getTime()` is the `nowMs` parameter of `GetIsContractCoolingDown`.
- `toLocaleString` is the `readable` parameter of `GraphData.GetGraphDataFromLogData`.
- `Intl.NumberFormat` is not modelled. The readable-count functions return the value and the options handed to `format`, not the formatted text.
- JsNumerics.ParseBigInt: accepts only an optional sign followed by decimal digits, and the empty string. JavaScript's `BigInt` also trims surrounding whitespace and reads `0x`, `0o` and `0b` prefixes. The token counts handled here are decimal strings from `toString()`.
- TokenPercentage.GetPercentageOfTokenCount: the percentage is an integer. `BigInt` of a non-integer percentage throws a RangeError, which is not modelled.
- CooldownFormat.FormatTimeToCooldown: the duration is an integer number of milliseconds. For a non-negative duration `Math.floor` of a fractional input gives the same fields. NaN and infinities are not modelled.
- SortTxns.SortTxns: block numbers and transaction indexes are integers. How `Array.prototype.sort` uses a comparator that is not antisymmetric on ties is not modelled.
- StringifyBigInts.StringifyBigIntsInObj: a value is a bigint, string, number, boolean, undefined, null, plain object or array.
  - Functions and symbols are not modelled; they would pass through unchanged.
  - Class instances such as Date or Map are not modelled; they would be rebuilt from their own entries.
  - Numbers are integers.
  - An object is its own entries in enumeration order. That order is the same before and after, so the model does not reorder integer-like keys.
- DappInfoSchema.IsEthAddress: case folding covers ASCII letters. That is enough for this pattern, since only ASCII characters fold to '0'-'9', 'a'-'f' or 'x'.
- DappInfoSchema.IsValidDappInfo: zod's error reports, stripping of unknown keys and rejection of non-string fields are not modelled.
- The Redux machinery is not modelled: `createSlice`, action objects, immer drafts and the store. `rememberPlaybook`'s action generator is a direct call of `Remember`. The selectors other than the logged-in one are field reads.
- `tryItAsync`, `cn`, `_updateDecimals` and the `Base` handle cache are I/O or UI glue and are not modelled.

## Findings

| source | as written | input that shows it | evidently intended | confidence | as-written member | corrected member |
|---|---|---|---|---|---|---|
| web-app/app/lib/utils/readableERC20.ts:24-25 | `slice(0, -noOfDecimals)` and `slice(-noOfDecimals)` with `noOfDecimals = 0` are `slice(0, 0)` and `slice(0)` | `getReadableERC20TokenCount("123", 0)`: whole part is "", fraction is "123", and `Number(".123")` is formatted | whole part "123" and fraction "" (the last `noOfDecimals` characters), so 123 is shown | high; not executed | ReadableErc20.ZeroDecimalsLoseWholePart | ReadableErc20.GetReadableERC20TokenCountIntended |
| web-app/app/lib/utils.ts:45-46 | the same two slices in the earlier version | `getReadableERC20TokenCount("123", 0)` formats `Number(".123")` | the same corrected split | high; not executed | LegacyUtils.ZeroDecimalsLoseWholePart | ReadableErc20.GetReadableERC20TokenCountIntended |

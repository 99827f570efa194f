/**
 * `getIsValidYAxisIDForDashboardChart`
 * (web-app/src/app/routes/dashboard/subcomponents/UserLogDataGraph/subcomponents/StakeAndRewardAmtGraphs/lib/useChartOptions/lib/types.ts):
 * whether a chart axis id is one of the dashboard's two y-axis ids.
 */
module ChartAxis {
  import opened Wrappers

  /** The values of `DASHBOARD_CHART_Y_AXIS_IDS`. */
  const REWARD_AMT := "rewardAmt"
  const STAKED_AMT := "stakedAmt"
  const DASHBOARD_CHART_Y_AXIS_IDS: seq<string> := [REWARD_AMT, STAKED_AMT]

  /** `undefined` and the empty string are falsy and rejected first; otherwise an exact membership test. */
  function GetIsValidYAxisIdForDashboardChart(str: Option<string>): (r: bool)
    ensures r <==> str == Some("rewardAmt") || str == Some("stakedAmt")
  {
    if str.None? || str.value == "" then false
    else str.value in DASHBOARD_CHART_Y_AXIS_IDS
  }

  /** The comparison is exact: another case, or extra characters, are not an id. */
  lemma CaseAndSpellingMatter()
    ensures !GetIsValidYAxisIdForDashboardChart(Some("RewardAmt"))
    ensures !GetIsValidYAxisIdForDashboardChart(Some("stakedamt"))
    ensures !GetIsValidYAxisIdForDashboardChart(Some("stakedAmt "))
    ensures !GetIsValidYAxisIdForDashboardChart(Some("")) && !GetIsValidYAxisIdForDashboardChart(None)
  {
  }
}

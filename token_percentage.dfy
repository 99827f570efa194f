/**
 * `getPercentageOfTokenCount` (web-app/app/lib/utils/getPercentageOfTokenCount.ts): a whole-number
 * percentage of a token count held as a decimal string, computed in BigInt arithmetic.
 */
module TokenPercentage {
  import opened Wrappers
  import opened JsNumerics

  /** A token amount in the token's smallest unit, as a decimal string, with the token's decimals. */
  datatype StringifiedTokenCount = StringifiedTokenCount(value: string, decimals: int)

  /**
   * `BigInt(value) * BigInt(percentage) / 100n`, rendered back as a string. `BigInt(value)` throws on a
   * string that is not an integer, which is the error path here. The division truncates toward zero.
   */
  function GetPercentageOfTokenCount(tokenCount: StringifiedTokenCount, percentage: int): (r: Result<StringifiedTokenCount>)
    ensures r.Success? <==> ParseBigInt(tokenCount.value).Success?
    ensures r.Failure? ==> r.error == ParseBigInt(tokenCount.value).error
    ensures r.Success? ==> r.value.decimals == tokenCount.decimals
    ensures r.Success? ==>
      var product := ParseBigInt(tokenCount.value).value * percentage;
      var amount := if product >= 0 then product / 100 else -((-product) / 100);
      r.value.value == IntToString(amount) && ParseBigInt(r.value.value) == Success(amount)
  {
    var totalBal :- ParseBigInt(tokenCount.value);
    var amtToStake := TruncDiv(totalBal * percentage, 100);
    ParseIntToString(amtToStake);
    TruncDivByPositive(totalBal * percentage, 100);
    Success(StringifiedTokenCount(IntToString(amtToStake), tokenCount.decimals))
  }

  /** The integer the result's string stands for. */
  function ResultAmount(tokenCount: StringifiedTokenCount, percentage: int): int
    requires ParseBigInt(tokenCount.value).Success?
  {
    ParseBigInt(GetPercentageOfTokenCount(tokenCount, percentage).value.value).value
  }

  /** At 100 percent the amount is unchanged, and a canonical numeral comes back character for character. */
  lemma FullPercentageKeepsValue(tokenCount: StringifiedTokenCount)
    requires ParseBigInt(tokenCount.value).Success?
    ensures ResultAmount(tokenCount, 100) == ParseBigInt(tokenCount.value).value
    ensures tokenCount.value == IntToString(ParseBigInt(tokenCount.value).value) ==>
      GetPercentageOfTokenCount(tokenCount, 100) == Success(tokenCount)
  {
    var n := ParseBigInt(tokenCount.value).value;
    TruncDivByPositive(n * 100, 100);
    if n < 0 {
      assert -(n * 100) == (-n) * 100;
    }
  }

  /** At 0 percent the value is the string "0". */
  lemma ZeroPercentageIsZero(tokenCount: StringifiedTokenCount)
    requires ParseBigInt(tokenCount.value).Success?
    ensures GetPercentageOfTokenCount(tokenCount, 0) == Success(StringifiedTokenCount("0", tokenCount.decimals))
  {
  }

  /** For a non-negative amount and a percentage between 0 and 100 the result lies between 0 and the amount. */
  lemma {:induction false} PercentageWithinAmount(tokenCount: StringifiedTokenCount, percentage: int)
    requires ParseBigInt(tokenCount.value).Success? && ParseBigInt(tokenCount.value).value >= 0
    requires 0 <= percentage <= 100
    ensures 0 <= ResultAmount(tokenCount, percentage) <= ParseBigInt(tokenCount.value).value
  {
    var n: nat := ParseBigInt(tokenCount.value).value;
    MulMonotone(n, percentage, 100);
    MulNonNegative(n, percentage);
    DivMonotone(n * percentage, n * 100, 100);
  }

  /** For a non-negative amount a larger percentage never gives less. */
  lemma {:induction false} PercentageMonotone(tokenCount: StringifiedTokenCount, p1: int, p2: int)
    requires ParseBigInt(tokenCount.value).Success? && ParseBigInt(tokenCount.value).value >= 0
    requires 0 <= p1 <= p2
    ensures ResultAmount(tokenCount, p1) <= ResultAmount(tokenCount, p2)
  {
    var n: nat := ParseBigInt(tokenCount.value).value;
    MulMonotone(n, p1, p2);
    MulNonNegative(n, p1);
    DivMonotone(n * p1, n * p2, 100);
  }
}

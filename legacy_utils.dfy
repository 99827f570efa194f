/**
 * The earlier `getReadableERC20TokenCount` of web-app/app/lib/utils.ts. It makes the same decision as
 * the later one, except that a pure fraction is always scientific and limited to two fraction digits.
 * The `stringifyBigIntsInObj` of that file is the same function as the one in module StringifyBigInts.
 */
module LegacyUtils {
  import opened Wrappers
  import opened JsNumerics
  import opened ReadableErc20

  function GetReadableERC20TokenCount(tokenCountStr: string, noOfDecimals: int): (r: Result<Readable>)
    ensures tokenCountStr == "0" ==> r == Success(Literal("0"))
    ensures r.Failure? <==>
      && tokenCountStr != "0" && !IsFractional(tokenCountStr, noOfDecimals)
      && |WholePart(tokenCountStr, noOfDecimals)| > NOTATION_SWITCH_THRESHOLD
      && ParseBigInt(WholePart(tokenCountStr, noOfDecimals)).Failure?
    ensures r.Success? && tokenCountStr != "0" ==>
      && r.value.Formatted?
      && r.value.limit == MaximumFractionDigits(2)
      && (IsFractional(tokenCountStr, noOfDecimals) ==>
            r.value.notation == Scientific && r.value.value == NumberFrom(FractionalText(tokenCountStr, noOfDecimals)))
      && (!IsFractional(tokenCountStr, noOfDecimals) ==>
            && (r.value.notation == Scientific <==> |WholePart(tokenCountStr, noOfDecimals)| > NOTATION_SWITCH_THRESHOLD)
            && (r.value.notation == Scientific ==>
                  r.value.value == BigIntValue(ParseBigInt(WholePart(tokenCountStr, noOfDecimals)).value))
            && (r.value.notation == Compact ==>
                  r.value.value == NumberFrom(WholeAndFractionText(tokenCountStr, noOfDecimals))))
  {
    if tokenCountStr == "0" then Success(Literal("0"))
    else if IsFractional(tokenCountStr, noOfDecimals) then
      Success(Formatted(NumberFrom(FractionalText(tokenCountStr, noOfDecimals)), MaximumFractionDigits(2), Scientific))
    else
      var wholeNoStr := WholePart(tokenCountStr, noOfDecimals);
      if |wholeNoStr| > NOTATION_SWITCH_THRESHOLD then
        var whole :- ParseBigInt(wholeNoStr);
        Success(Formatted(BigIntValue(whole), MaximumFractionDigits(2), Scientific))
      else
        Success(Formatted(NumberFrom(WholeAndFractionText(tokenCountStr, noOfDecimals)),
                          MaximumFractionDigits(2), Compact))
  }

  /** Outside the pure-fraction branch the two versions decide the same, whatever notation the later one is given. */
  lemma AgreesWithLaterVersionOnWholeCounts(tokenCountStr: string, noOfDecimals: int, notation: Notation)
    requires !IsFractional(tokenCountStr, noOfDecimals)
    ensures GetReadableERC20TokenCount(tokenCountStr, noOfDecimals)
      == ReadableErc20.GetReadableERC20TokenCount(tokenCountStr, noOfDecimals, notation)
  {
  }

  /**
   * On a pure fraction the two versions format the same padded number in scientific notation by
   * default; they differ only in the rounding option.
   */
  lemma FractionDiffersFromLaterVersionOnlyInRounding(tokenCountStr: string, noOfDecimals: int)
    requires tokenCountStr != "0" && IsFractional(tokenCountStr, noOfDecimals)
    ensures var earlier := GetReadableERC20TokenCount(tokenCountStr, noOfDecimals).value;
      var later := ReadableErc20.GetReadableERC20TokenCount(tokenCountStr, noOfDecimals).value;
      && earlier.value == later.value && earlier.notation == later.notation == Scientific
      && earlier.limit == MaximumFractionDigits(2) && later.limit == MaximumSignificantDigits(2)
  {
  }

  /** The earlier version has the same zero-decimal split: "123" is handed to `Number` as ".123". */
  lemma ZeroDecimalsLoseWholePart()
    ensures GetReadableERC20TokenCount("123", 0) == Success(Formatted(NumberFrom(".123"), MaximumFractionDigits(2), Compact))
  {
    ReadableErc20.ZeroDecimalsLoseWholePart();
    AgreesWithLaterVersionOnWholeCounts("123", 0, Scientific);
  }
}

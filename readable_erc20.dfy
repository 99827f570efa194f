/**
 * `getReadableERC20TokenCount` (web-app/app/lib/utils/readableERC20.ts): decides how a token count,
 * given as a string of base units, is shown with its decimals. The model stops at the `Intl.NumberFormat`
 * call: it returns which value is formatted and with which options, not the formatted text.
 */
module ReadableErc20 {
  import opened Wrappers
  import opened JsNumerics

  /** The number of digits in the whole part beyond which scientific notation is easier to read. */
  const NOTATION_SWITCH_THRESHOLD: nat := 18

  datatype Notation = Scientific | Compact

  /** The rounding option given to `Intl.NumberFormat`. */
  datatype DigitLimit = MaximumSignificantDigits(digits: nat) | MaximumFractionDigits(digits: nat)

  /** What is handed to `format`: `Number(text)` or `BigInt(...)`'s value. */
  datatype FormatValue = NumberFrom(text: string) | BigIntValue(n: int)

  /** The result: a string returned as it is, or an `Intl.NumberFormat('en-US', ...)` call. */
  datatype Readable =
    | Literal(s: string)
    | Formatted(value: FormatValue, limit: DigitLimit, notation: Notation)

  /** `tokenCountStr.slice(0, -noOfDecimals)`; with no decimals `-0` is 0, so the slice is empty. */
  function WholePart(tokenCountStr: string, noOfDecimals: int): (r: string)
    ensures noOfDecimals >= 1 ==> r == tokenCountStr[..if |tokenCountStr| >= noOfDecimals then |tokenCountStr| - noOfDecimals else 0]
    ensures noOfDecimals == 0 ==> r == ""
  {
    Slice(tokenCountStr, 0, -noOfDecimals)
  }

  /** `tokenCountStr.slice(-noOfDecimals)`; with no decimals this is the whole string. */
  function FractionPart(tokenCountStr: string, noOfDecimals: int): (r: string)
    ensures noOfDecimals >= 1 && |tokenCountStr| >= noOfDecimals ==>
      |r| == noOfDecimals && r == tokenCountStr[|tokenCountStr| - noOfDecimals..]
    ensures noOfDecimals == 0 ==> r == tokenCountStr
  {
    SliceFrom(tokenCountStr, -noOfDecimals)
  }

  /** `0.` followed by the count left-padded with zeros to `noOfDecimals` digits. */
  function FractionalText(tokenCountStr: string, noOfDecimals: int): string {
    "0." + PadStart(tokenCountStr, noOfDecimals, '0')
  }

  /** `${wholeNoStr}.${fractionStr}`. */
  function WholeAndFractionText(tokenCountStr: string, noOfDecimals: int): string {
    WholePart(tokenCountStr, noOfDecimals) + "." + FractionPart(tokenCountStr, noOfDecimals)
  }

  predicate IsFractional(tokenCountStr: string, noOfDecimals: int) {
    |tokenCountStr| <= noOfDecimals
  }

  /**
   * The display decision. "0" is returned as it is. A count with no more digits than decimals is a pure
   * fraction, formatted to two significant digits in the caller's notation (scientific by default).
   * Otherwise the count is split into whole and fraction: a whole part longer than the threshold is
   * formatted as a BigInt in scientific notation (`BigInt` throws when it is not an integer), a shorter
   * one as a Number in compact notation, both to two fraction digits.
   */
  function GetReadableERC20TokenCount(tokenCountStr: string, noOfDecimals: int,
                                      notationForFractionalNumber: Notation := Scientific): (r: Result<Readable>)
    ensures tokenCountStr == "0" ==> r == Success(Literal("0"))
    ensures r.Failure? <==>
      && tokenCountStr != "0" && !IsFractional(tokenCountStr, noOfDecimals)
      && |WholePart(tokenCountStr, noOfDecimals)| > NOTATION_SWITCH_THRESHOLD
      && ParseBigInt(WholePart(tokenCountStr, noOfDecimals)).Failure?
    ensures r.Success? && tokenCountStr != "0" ==>
      && r.value.Formatted?
      && (r.value.limit == MaximumSignificantDigits(2) <==> IsFractional(tokenCountStr, noOfDecimals))
      && (IsFractional(tokenCountStr, noOfDecimals) ==>
            r.value.notation == notationForFractionalNumber
            && r.value.value == NumberFrom(FractionalText(tokenCountStr, noOfDecimals)))
      && (!IsFractional(tokenCountStr, noOfDecimals) ==>
            && r.value.limit == MaximumFractionDigits(2)
            && (r.value.notation == Scientific <==> |WholePart(tokenCountStr, noOfDecimals)| > NOTATION_SWITCH_THRESHOLD)
            && (r.value.notation == Scientific ==>
                  r.value.value == BigIntValue(ParseBigInt(WholePart(tokenCountStr, noOfDecimals)).value))
            && (r.value.notation == Compact ==>
                  r.value.value == NumberFrom(WholeAndFractionText(tokenCountStr, noOfDecimals))))
  {
    if tokenCountStr == "0" then Success(Literal("0"))
    else if IsFractional(tokenCountStr, noOfDecimals) then
      Success(Formatted(NumberFrom(FractionalText(tokenCountStr, noOfDecimals)),
                        MaximumSignificantDigits(2), notationForFractionalNumber))
    else
      var wholeNoStr := WholePart(tokenCountStr, noOfDecimals);
      if |wholeNoStr| > NOTATION_SWITCH_THRESHOLD then
        var whole :- ParseBigInt(wholeNoStr);
        Success(Formatted(BigIntValue(whole), MaximumFractionDigits(2), Scientific))
      else
        Success(Formatted(NumberFrom(WholeAndFractionText(tokenCountStr, noOfDecimals)),
                          MaximumFractionDigits(2), Compact))
  }

  /** The padded fraction has exactly `noOfDecimals` digits: zeros, then the count. */
  lemma FractionalTextPadsToDecimals(tokenCountStr: string, noOfDecimals: int)
    requires IsFractional(tokenCountStr, noOfDecimals)
    ensures var t := FractionalText(tokenCountStr, noOfDecimals);
      && t[..2] == "0."
      && |t| == 2 + noOfDecimals
      && t[|t| - |tokenCountStr|..] == tokenCountStr
      && forall i :: 2 <= i < |t| - |tokenCountStr| ==> t[i] == '0'
  {
  }

  /** Without an explicit notation a pure fraction is shown in scientific notation. */
  lemma DefaultFractionalNotationIsScientific(tokenCountStr: string, noOfDecimals: int)
    requires tokenCountStr != "0" && IsFractional(tokenCountStr, noOfDecimals)
    ensures GetReadableERC20TokenCount(tokenCountStr, noOfDecimals) ==
      Success(Formatted(NumberFrom(FractionalText(tokenCountStr, noOfDecimals)), MaximumSignificantDigits(2), Scientific))
  {
  }

  /**
   * With at least one decimal the split is where it should be: the fraction is the last `noOfDecimals`
   * digits, the whole part all the others, and together they give back the count.
   */
  lemma {:induction false} SplitReassembles(tokenCountStr: string, noOfDecimals: int)
    requires noOfDecimals >= 1 && |tokenCountStr| > noOfDecimals
    ensures |FractionPart(tokenCountStr, noOfDecimals)| == noOfDecimals
    ensures |WholePart(tokenCountStr, noOfDecimals)| == |tokenCountStr| - noOfDecimals
    ensures WholePart(tokenCountStr, noOfDecimals) + FractionPart(tokenCountStr, noOfDecimals) == tokenCountStr
  {
    var k := |tokenCountStr| - noOfDecimals;
    assert tokenCountStr[..k] + tokenCountStr[k..] == tokenCountStr;
  }

  /**
   * With zero decimals `slice(0, -0)` is empty, so the whole count lands in the fraction: "123" is
   * handed to `Number` as ".123" and shows as a fraction of one token.
   */
  lemma ZeroDecimalsLoseWholePart()
    ensures WholePart("123", 0) == "" && FractionPart("123", 0) == "123"
    ensures GetReadableERC20TokenCount("123", 0) == Success(Formatted(NumberFrom(".123"), MaximumFractionDigits(2), Compact))
  {
    assert "" + "." + "123" == ".123";
  }

  // ---------------------------------------------------------------------------
  // The split as evidently intended: the fraction is the last `noOfDecimals` characters for every
  // non-negative number of decimals, zero included.

  function IntendedWholePart(tokenCountStr: string, noOfDecimals: nat): (r: string)
    requires noOfDecimals <= |tokenCountStr|
    ensures |r| == |tokenCountStr| - noOfDecimals
  {
    Slice(tokenCountStr, 0, |tokenCountStr| - noOfDecimals)
  }

  function IntendedFractionPart(tokenCountStr: string, noOfDecimals: nat): (r: string)
    requires noOfDecimals <= |tokenCountStr|
    ensures |r| == noOfDecimals
  {
    SliceFrom(tokenCountStr, |tokenCountStr| - noOfDecimals)
  }

  /** The corrected split puts exactly `noOfDecimals` digits in the fraction and reassembles the count. */
  lemma {:induction false} IntendedSplitReassembles(tokenCountStr: string, noOfDecimals: nat)
    requires noOfDecimals <= |tokenCountStr|
    ensures IntendedWholePart(tokenCountStr, noOfDecimals) + IntendedFractionPart(tokenCountStr, noOfDecimals) == tokenCountStr
    ensures noOfDecimals == 0 ==> IntendedWholePart(tokenCountStr, noOfDecimals) == tokenCountStr
  {
    var k := |tokenCountStr| - noOfDecimals;
    assert tokenCountStr[..k] + tokenCountStr[k..] == tokenCountStr;
  }

  /** The corrected split agrees with the written one whenever there is at least one decimal. */
  lemma IntendedSplitAgreesWithDecimals(tokenCountStr: string, noOfDecimals: nat)
    requires 1 <= noOfDecimals < |tokenCountStr|
    ensures IntendedWholePart(tokenCountStr, noOfDecimals) == WholePart(tokenCountStr, noOfDecimals)
    ensures IntendedFractionPart(tokenCountStr, noOfDecimals) == FractionPart(tokenCountStr, noOfDecimals)
  {
  }

  /** The display decision with the corrected split; it differs from the written one only at zero decimals. */
  function GetReadableERC20TokenCountIntended(tokenCountStr: string, noOfDecimals: nat,
                                              notationForFractionalNumber: Notation := Scientific): (r: Result<Readable>)
    ensures noOfDecimals >= 1 ==> r == GetReadableERC20TokenCount(tokenCountStr, noOfDecimals, notationForFractionalNumber)
    ensures noOfDecimals == 0 && tokenCountStr != "0" && 0 < |tokenCountStr| <= NOTATION_SWITCH_THRESHOLD ==>
      r == Success(Formatted(NumberFrom(tokenCountStr + "."), MaximumFractionDigits(2), Compact))
  {
    if tokenCountStr == "0" then Success(Literal("0"))
    else if IsFractional(tokenCountStr, noOfDecimals) then
      Success(Formatted(NumberFrom(FractionalText(tokenCountStr, noOfDecimals)),
                        MaximumSignificantDigits(2), notationForFractionalNumber))
    else
      var wholeNoStr := IntendedWholePart(tokenCountStr, noOfDecimals);
      var fractionStr := IntendedFractionPart(tokenCountStr, noOfDecimals);
      IntendedSplitReassembles(tokenCountStr, noOfDecimals);
      assert noOfDecimals == 0 ==> wholeNoStr + "." + fractionStr == tokenCountStr + ".";
      if |wholeNoStr| > NOTATION_SWITCH_THRESHOLD then
        var whole :- ParseBigInt(wholeNoStr);
        Success(Formatted(BigIntValue(whole), MaximumFractionDigits(2), Scientific))
      else
        Success(Formatted(NumberFrom(wholeNoStr + "." + fractionStr), MaximumFractionDigits(2), Compact))
  }

  /** With the corrected split a zero-decimal "123" is shown as the whole number 123. */
  lemma ZeroDecimalsKeepWholePartWhenIntended()
    ensures GetReadableERC20TokenCountIntended("123", 0) == Success(Formatted(NumberFrom("123."), MaximumFractionDigits(2), Compact))
  {
    assert "123" + "." == "123.";
  }
}

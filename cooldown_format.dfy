/**
 * `formatTimeToCooldown` (web-app/app/routes/dashboard/subcomponents/CooldownBanner/lib/formatTimeToCooldown.ts):
 * a duration in milliseconds as "hh hours mm mins ss seconds", leaving out zero hours and zero minutes.
 */
module CooldownFormat {
  import opened Wrappers
  import opened JsNumerics

  const MILLISECONDS_IN_A_SECOND: nat := 1000
  const MILLISECONDS_IN_A_MINUTE: nat := 60000
  const MILLISECONDS_IN_AN_HOUR: nat := 3600000
  const SECONDS_IN_A_MINUTE: nat := 60
  const MINUTES_IN_AN_HOUR: nat := 60
  const DIGITS_IN_TIME: nat := 2

  const NEGATIVE_DURATION_MESSAGE := "Time to cooldown represents a duration and hence cannot be negative"

  function SecsVal(ms: nat): nat { (ms / MILLISECONDS_IN_A_SECOND) % SECONDS_IN_A_MINUTE }

  function MinsVal(ms: nat): nat { (ms / MILLISECONDS_IN_A_MINUTE) % MINUTES_IN_AN_HOUR }

  function HoursVal(ms: nat): nat { ms / MILLISECONDS_IN_AN_HOUR }

  /** `val.toString().padStart(2, '0')`. */
  function TimeField(n: nat): string {
    PadStart(NatToString(n), DIGITS_IN_TIME, '0')
  }

  /** A leading segment, `val.toString().padStart(2, '0')` and its unit, shown only for a non-zero value. */
  function Segment(n: nat, unit: string): string {
    if n != 0 then TimeField(n) + unit else ""
  }

  /**
   * The formatted duration; a negative duration is rejected. The seconds are always shown, the
   * minutes and then the hours are put in front only when they are not zero.
   */
  function FormatTimeToCooldown(timeToCooldownMs: int): (r: Result<string>)
    ensures r.Failure? <==> timeToCooldownMs < 0
    ensures r.Failure? ==> r.error == NEGATIVE_DURATION_MESSAGE
    ensures r.Success? ==>
      var tail := TimeField(SecsVal(timeToCooldownMs)) + " seconds";
      |r.value| >= |tail| && r.value[|r.value| - |tail|..] == tail
  {
    if timeToCooldownMs < 0 then Failure(NEGATIVE_DURATION_MESSAGE)
    else
      var result := TimeField(SecsVal(timeToCooldownMs)) + " seconds";
      var result := Segment(MinsVal(timeToCooldownMs), " mins ") + result;
      SuffixOfConcat(Segment(HoursVal(timeToCooldownMs), " hours "), Segment(MinsVal(timeToCooldownMs), " mins "),
                     TimeField(SecsVal(timeToCooldownMs)) + " seconds");
      var result := Segment(HoursVal(timeToCooldownMs), " hours ") + result;
      Success(result)
  }

  lemma SuffixOfConcat(a: string, b: string, c: string)
    ensures (a + (b + c))[|a| + |b|..] == c
  {
  }

  /** A field is made of digits, at least two of them, and reads back as its value. */
  lemma TimeFieldReadsBack(n: nat)
    ensures AllDigits(TimeField(n)) && |TimeField(n)| >= DIGITS_IN_TIME
    ensures ParseDigits(TimeField(n)) == n
    ensures n < 100 ==> |TimeField(n)| == DIGITS_IN_TIME
  {
    var s := NatToString(n);
    var f := TimeField(n);
    ParseNatToString(n);
    if |s| < DIGITS_IN_TIME {
      ParseDigitsLeadingZeros(Repeat('0', DIGITS_IN_TIME - |s|), s);
    }
    if n < 100 && n >= 10 {
      assert n / 10 < 10;
    }
  }

  /** Seconds and minutes are below 60 and, with the hours and the dropped milliseconds, add up to the input. */
  lemma FieldsRecompose(ms: nat)
    ensures SecsVal(ms) < SECONDS_IN_A_MINUTE && MinsVal(ms) < MINUTES_IN_AN_HOUR
    ensures HoursVal(ms) * MILLISECONDS_IN_AN_HOUR + MinsVal(ms) * MILLISECONDS_IN_A_MINUTE
            + SecsVal(ms) * MILLISECONDS_IN_A_SECOND + ms % MILLISECONDS_IN_A_SECOND == ms
  {
    var s := ms / 1000;
    var m := s / 60;
    var h := m / 60;
    assert ms == 1000 * s + ms % 1000;
    assert s == 60 * m + s % 60;
    assert m == 60 * h + m % 60;
    assert ms == 60000 * m + (1000 * (s % 60) + ms % 1000);
    assert ms / 60000 == m;
    assert ms == 3600000 * h + (60000 * (m % 60) + 1000 * (s % 60) + ms % 1000);
    assert ms / 3600000 == h;
  }

  /**
   * The "mins" segment is there exactly when the minutes are not zero and the "hours" segment exactly
   * when the hours are not zero; the fields themselves are digits only, so the letters come from the units.
   */
  lemma {:induction false} SegmentsPresentIffNonZero(ms: nat)
    ensures var r := FormatTimeToCooldown(ms).value;
      && ('m' in r <==> MinsVal(ms) != 0)
      && ('h' in r <==> HoursVal(ms) != 0)
  {
    var secs := TimeField(SecsVal(ms)) + " seconds";
    TimeFieldReadsBack(SecsVal(ms));
    NoLetterInDigits(TimeField(SecsVal(ms)));
    UnitLetters();
    assert 'm' !in secs && 'h' !in secs;
    SegmentLetters(MinsVal(ms), " mins ");
    SegmentLetters(HoursVal(ms), " hours ");
    assert FormatTimeToCooldown(ms).value == Segment(HoursVal(ms), " hours ") + (Segment(MinsVal(ms), " mins ") + secs);
  }

  /**
   * Non-zero hours open the text with their field and " hours "; with zero hours the text is the
   * minutes segment followed by the seconds.
   */
  lemma HoursFieldLeads(ms: nat)
    ensures var r := FormatTimeToCooldown(ms).value;
      var hours := TimeField(HoursVal(ms)) + " hours ";
      && (HoursVal(ms) != 0 ==> |r| > |hours| && r[..|hours|] == hours)
      && (HoursVal(ms) == 0 ==> r == Segment(MinsVal(ms), " mins ") + TimeField(SecsVal(ms)) + " seconds")
  {
    var rest := Segment(MinsVal(ms), " mins ") + (TimeField(SecsVal(ms)) + " seconds");
    assert FormatTimeToCooldown(ms).value == Segment(HoursVal(ms), " hours ") + rest;
    if HoursVal(ms) != 0 {
      PrefixOfConcat(TimeField(HoursVal(ms)) + " hours ", rest);
    } else {
      assert Segment(MinsVal(ms), " mins ") + (TimeField(SecsVal(ms)) + " seconds")
          == Segment(MinsVal(ms), " mins ") + TimeField(SecsVal(ms)) + " seconds";
    }
  }

  lemma PrefixOfConcat(a: string, b: string)
    requires b != []
    ensures |a + b| > |a| && (a + b)[..|a|] == a
  {
  }

  /**
   * Non-zero minutes stand, as their field and " mins ", between the hours segment and the seconds;
   * zero minutes leave the hours segment directly in front of the seconds.
   */
  lemma MinutesFieldBeforeSeconds(ms: nat)
    ensures var r := FormatTimeToCooldown(ms).value;
      var hours := Segment(HoursVal(ms), " hours ");
      var secs := TimeField(SecsVal(ms)) + " seconds";
      && (MinsVal(ms) != 0 ==> r == hours + TimeField(MinsVal(ms)) + " mins " + secs)
      && (MinsVal(ms) == 0 ==> r == hours + secs)
  {
    var hours := Segment(HoursVal(ms), " hours ");
    var secs := TimeField(SecsVal(ms)) + " seconds";
    var mins := Segment(MinsVal(ms), " mins ");
    assert FormatTimeToCooldown(ms).value == hours + (mins + secs);
    if MinsVal(ms) != 0 {
      var field := TimeField(MinsVal(ms));
      assert mins == field + " mins ";
      assert hours + ((field + " mins ") + secs) == hours + field + " mins " + secs;
    } else {
      assert mins + secs == secs;
    }
  }

  /** A segment holds a letter of its unit exactly when it is shown, since the field is digits only. */
  lemma SegmentLetters(n: nat, unit: string)
    ensures 'm' in Segment(n, unit) <==> n != 0 && 'm' in unit
    ensures 'h' in Segment(n, unit) <==> n != 0 && 'h' in unit
  {
    if n != 0 {
      TimeFieldReadsBack(n);
      NoLetterInDigits(TimeField(n));
    }
    UnitLetters();
  }

  /** Which of the letters 'm' and 'h' each unit contains. */
  lemma UnitLetters()
    ensures 'm' in " mins " && 'h' !in " mins "
    ensures 'h' in " hours " && 'm' !in " hours "
    ensures 'm' !in " seconds" && 'h' !in " seconds"
  {
  }

  lemma NoLetterInDigits(s: string)
    requires AllDigits(s)
    ensures 'm' !in s && 'h' !in s
  {
  }

  /** The result assembled from its three parts, for the scenarios below. */
  lemma FormatFromParts(ms: nat, hours: string, mins: string, secs: string, text: string)
    requires Segment(HoursVal(ms), " hours ") == hours && Segment(MinsVal(ms), " mins ") == mins
    requires TimeField(SecsVal(ms)) == secs
    requires hours + (mins + (secs + " seconds")) == text
    ensures FormatTimeToCooldown(ms) == Success(text)
  {
  }

  /** The two-digit fields the scenarios below use. */
  lemma ScenarioTimeFields()
    ensures TimeField(0) == "00" && TimeField(1) == "01" && TimeField(2) == "02" && TimeField(5) == "05"
  {
  }

  /** The three-digit hours field of 100 hours. */
  lemma HundredHoursField()
    ensures TimeField(100) == "100"
  {
    assert NatToString(10) == [DigitChar(1)] + [DigitChar(0)] == "10";
    assert NatToString(100) == NatToString(10) + [DigitChar(0)] == "100";
  }

  /** The texts the scenarios below assemble, spelled out. */
  lemma ScenarioTexts()
    ensures "01" + " hours " + ("" + ("05" + " seconds")) == "01 hours 05 seconds"
    ensures "" + ("" + ("00" + " seconds")) == "00 seconds"
    ensures "100" + " hours " + ("" + ("00" + " seconds")) == "100 hours 00 seconds"
    ensures "01" + " hours " + ("02" + " mins " + ("05" + " seconds")) == "01 hours 02 mins 05 seconds"
  {
  }

  /** One hour, no minutes and five seconds. */
  lemma ScenarioHourAndFiveSeconds()
    ensures FormatTimeToCooldown(3605000) == Success("01 hours 05 seconds")
  {
    assert SecsVal(3605000) == 5 && MinsVal(3605000) == 0 && HoursVal(3605000) == 1;
    ScenarioTimeFields();
    ScenarioTexts();
    FormatFromParts(3605000, "01" + " hours ", "", "05", "01 hours 05 seconds");
  }

  /** Under a minute only the seconds are shown, and a duration under a second is "00 seconds". */
  lemma ScenarioUnderASecond()
    ensures FormatTimeToCooldown(999) == Success("00 seconds")
  {
    assert SecsVal(999) == 0 && MinsVal(999) == 0 && HoursVal(999) == 0;
    ScenarioTimeFields();
    ScenarioTexts();
    FormatFromParts(999, "", "", "00", "00 seconds");
  }

  lemma HundredHoursValues()
    ensures SecsVal(360000000) == 0 && MinsVal(360000000) == 0 && HoursVal(360000000) == 100
  {
    assert 360000000 == 100 * MILLISECONDS_IN_AN_HOUR;
    assert 360000000 / MILLISECONDS_IN_A_MINUTE == 6000 && 360000000 / MILLISECONDS_IN_A_SECOND == 360000;
  }

  /** Hours are never wrapped or truncated: 100 hours show as three digits. */
  lemma ScenarioHundredHours()
    ensures FormatTimeToCooldown(360000000) == Success("100 hours 00 seconds")
  {
    HundredHoursValues();
    ScenarioTimeFields();
    HundredHoursField();
    ScenarioTexts();
    FormatFromParts(360000000, "100" + " hours ", "", "00", "100 hours 00 seconds");
  }

  /** One hour, two minutes and five seconds: every field is shown, each padded to two digits. */
  lemma ScenarioHourMinutesAndSeconds()
    ensures FormatTimeToCooldown(3725000) == Success("01 hours 02 mins 05 seconds")
  {
    assert SecsVal(3725000) == 5 && MinsVal(3725000) == 2 && HoursVal(3725000) == 1;
    ScenarioTimeFields();
    ScenarioTexts();
    FormatFromParts(3725000, "01" + " hours ", "02" + " mins ", "05", "01 hours 02 mins 05 seconds");
  }
}

/** The sample timestamps written beside the formats of `parse_date`
    (clean_tc_dict_csv_export_cm.py, lines 25-27), each read by its own format,
    and a text that is no date at all.

    Each example names the tokens the engine captures and where each ends;
    `MatchOfTokens` turns "each token fits and could not be longer" into the
    engine's first match, and `Assemble` turns the tokens into the date-time. */
module DateExamples {
  import opened Wrappers
  import opened DateTimes
  import opened Strptime
  import opened DateParsing

  // "2024-11-17 15:00:00" against "%Y-%m-%d %H:%M:%S"

  const IsoSample := "2024-11-17 15:00:00"
  const IsoEnds: seq<nat> := [4, 5, 7, 8, 10, 11, 13, 14, 16, 17, 19]
  const IsoTokens: seq<string> := ["2024", "-", "11", "-", "17", " ", "15", ":", "00", ":", "00"]

  /** The text between successive ends is the token list. */
  lemma IsoSlices()
    ensures forall k :: 0 <= k < |IsoEnds| ==> StartOf(IsoEnds, k) <= IsoEnds[k] <= |IsoSample| && IsoSample[StartOf(IsoEnds, k)..IsoEnds[k]] == IsoTokens[k]
  {
    forall k | 0 <= k < |IsoEnds| ensures StartOf(IsoEnds, k) <= IsoEnds[k] <= |IsoSample| && IsoSample[StartOf(IsoEnds, k)..IsoEnds[k]] == IsoTokens[k] {
      assert IsoSample[StartOf(IsoEnds, k)..IsoEnds[k]] == IsoTokens[k];
    }
  }

  /** Each token fits its directive. */
  lemma IsoTokensFit()
    ensures forall k :: 0 <= k < |IsoEnds| ==> Fits(IsoFormat[k], IsoTokens[k])
  {
    forall k | 0 <= k < |IsoEnds| ensures Fits(IsoFormat[k], IsoTokens[k]) {
    }
  }

  /** No token could be longer. */
  lemma IsoTokensStop()
    ensures forall k :: 0 <= k < |IsoEnds| ==> StopsAt(IsoFormat[k], IsoSample, StartOf(IsoEnds, k), IsoEnds[k])
  {
    forall k | 0 <= k < |IsoEnds| ensures StopsAt(IsoFormat[k], IsoSample, StartOf(IsoEnds, k), IsoEnds[k]) {
    }
  }

  lemma IsoMatch()
    ensures MatchFrom(IsoFormat, 0, IsoSample, 0) == Some(Match(IsoTokens, |IsoSample|))
  {
    IsoSlices();
    IsoTokensFit();
    IsoTokensStop();
    MatchOfTokens(IsoFormat, IsoSample, IsoEnds, IsoTokens);
  }

  lemma IsoDate()
    ensures FieldValue(IsoFormat, IsoTokens, Year, 1900) == 2024
    ensures FieldValue(IsoFormat, IsoTokens, Month, 1) == 11
    ensures FieldValue(IsoFormat, IsoTokens, Day, 1) == 17
  {
    FieldAt(IsoFormat, IsoTokens, Year, 0);
    FieldAt(IsoFormat, IsoTokens, Month, 2);
    FieldAt(IsoFormat, IsoTokens, Day, 4);
    NumberFour(IsoTokens[0]);
    NumberTwo(IsoTokens[2]);
    NumberTwo(IsoTokens[4]);
  }

  lemma IsoClock()
    ensures HourOf(IsoFormat, IsoTokens) == 15
    ensures FieldValue(IsoFormat, IsoTokens, Minute, 0) == 0
    ensures FieldValue(IsoFormat, IsoTokens, Second, 0) == 0
  {
    FieldAbsent(IsoFormat, IsoTokens, Hour12);
    FieldAt(IsoFormat, IsoTokens, Hour24, 6);
    FieldAt(IsoFormat, IsoTokens, Minute, 8);
    FieldAt(IsoFormat, IsoTokens, Second, 10);
    NumberTwo(IsoTokens[6]);
    NumberTwo(IsoTokens[8]);
    NumberTwo(IsoTokens[10]);
  }

  lemma IsoFields()
    ensures Assemble(IsoFormat, IsoTokens) == Some(DateTime(2024, 11, 17, 15, 0, 0))
  {
    IsoDate();
    IsoClock();
  }

  lemma IsoAttempt()
    ensures Attempt(IsoFormat, IsoSample) == Some(DateTime(2024, 11, 17, 15, 0, 0))
  {
    IsoMatch();
    IsoFields();
  }

  // "11/17/2024  3:00:00 PM" against "%m/%d/%Y %I:%M:%S %p"

  const UsTwelveHourSample := "11/17/2024  3:00:00 PM"
  const UsTwelveHourEnds: seq<nat> := [2, 3, 5, 6, 10, 12, 13, 14, 16, 17, 19, 20, 22]
  const UsTwelveHourTokens: seq<string> := ["11", "/", "17", "/", "2024", "  ", "3", ":", "00", ":", "00", " ", "PM"]

  /** The text between successive ends is the token list. */
  lemma UsTwelveHourSlices()
    ensures forall k :: 0 <= k < |UsTwelveHourEnds| ==> StartOf(UsTwelveHourEnds, k) <= UsTwelveHourEnds[k] <= |UsTwelveHourSample| && UsTwelveHourSample[StartOf(UsTwelveHourEnds, k)..UsTwelveHourEnds[k]] == UsTwelveHourTokens[k]
  {
    forall k | 0 <= k < |UsTwelveHourEnds| ensures StartOf(UsTwelveHourEnds, k) <= UsTwelveHourEnds[k] <= |UsTwelveHourSample| && UsTwelveHourSample[StartOf(UsTwelveHourEnds, k)..UsTwelveHourEnds[k]] == UsTwelveHourTokens[k] {
      assert UsTwelveHourSample[StartOf(UsTwelveHourEnds, k)..UsTwelveHourEnds[k]] == UsTwelveHourTokens[k];
    }
  }

  /** Each token fits its directive. */
  lemma UsTwelveHourTokensFit()
    ensures forall k :: 0 <= k < |UsTwelveHourEnds| ==> Fits(UsTwelveHourFormat[k], UsTwelveHourTokens[k])
  {
    forall k | 0 <= k < |UsTwelveHourEnds| ensures Fits(UsTwelveHourFormat[k], UsTwelveHourTokens[k]) {
    }
  }

  /** No token could be longer. */
  lemma UsTwelveHourTokensStop()
    ensures forall k :: 0 <= k < |UsTwelveHourEnds| ==> StopsAt(UsTwelveHourFormat[k], UsTwelveHourSample, StartOf(UsTwelveHourEnds, k), UsTwelveHourEnds[k])
  {
    forall k | 0 <= k < |UsTwelveHourEnds| ensures StopsAt(UsTwelveHourFormat[k], UsTwelveHourSample, StartOf(UsTwelveHourEnds, k), UsTwelveHourEnds[k]) {
    }
  }

  lemma UsTwelveHourMatch()
    ensures MatchFrom(UsTwelveHourFormat, 0, UsTwelveHourSample, 0) == Some(Match(UsTwelveHourTokens, |UsTwelveHourSample|))
  {
    UsTwelveHourSlices();
    UsTwelveHourTokensFit();
    UsTwelveHourTokensStop();
    MatchOfTokens(UsTwelveHourFormat, UsTwelveHourSample, UsTwelveHourEnds, UsTwelveHourTokens);
  }

  lemma UsTwelveHourDate()
    ensures FieldValue(UsTwelveHourFormat, UsTwelveHourTokens, Year, 1900) == 2024
    ensures FieldValue(UsTwelveHourFormat, UsTwelveHourTokens, Month, 1) == 11
    ensures FieldValue(UsTwelveHourFormat, UsTwelveHourTokens, Day, 1) == 17
  {
    FieldAt(UsTwelveHourFormat, UsTwelveHourTokens, Month, 0);
    FieldAt(UsTwelveHourFormat, UsTwelveHourTokens, Day, 2);
    FieldAt(UsTwelveHourFormat, UsTwelveHourTokens, Year, 4);
    NumberTwo(UsTwelveHourTokens[0]);
    NumberTwo(UsTwelveHourTokens[2]);
    NumberFour(UsTwelveHourTokens[4]);
  }

  lemma UsTwelveHourClock()
    ensures HourOf(UsTwelveHourFormat, UsTwelveHourTokens) == 15
    ensures FieldValue(UsTwelveHourFormat, UsTwelveHourTokens, Minute, 0) == 0
    ensures FieldValue(UsTwelveHourFormat, UsTwelveHourTokens, Second, 0) == 0
  {
    FieldAt(UsTwelveHourFormat, UsTwelveHourTokens, Hour12, 6);
    FieldAt(UsTwelveHourFormat, UsTwelveHourTokens, AmPm, 12);
    FieldAt(UsTwelveHourFormat, UsTwelveHourTokens, Minute, 8);
    FieldAt(UsTwelveHourFormat, UsTwelveHourTokens, Second, 10);
    NumberOne(UsTwelveHourTokens[6]);
    NumberTwo(UsTwelveHourTokens[8]);
    NumberTwo(UsTwelveHourTokens[10]);
  }

  lemma UsTwelveHourFields()
    ensures Assemble(UsTwelveHourFormat, UsTwelveHourTokens) == Some(DateTime(2024, 11, 17, 15, 0, 0))
  {
    UsTwelveHourDate();
    UsTwelveHourClock();
  }

  lemma UsTwelveHourAttempt()
    ensures Attempt(UsTwelveHourFormat, UsTwelveHourSample) == Some(DateTime(2024, 11, 17, 15, 0, 0))
  {
    UsTwelveHourMatch();
    UsTwelveHourFields();
  }

  // "9/30/2024 6:00" against "%m/%d/%Y %H:%M"

  const UsTwentyFourHourSample := "9/30/2024 6:00"
  const UsTwentyFourHourEnds: seq<nat> := [1, 2, 4, 5, 9, 10, 11, 12, 14]
  const UsTwentyFourHourTokens: seq<string> := ["9", "/", "30", "/", "2024", " ", "6", ":", "00"]

  /** The text between successive ends is the token list. */
  lemma UsTwentyFourHourSlices()
    ensures forall k :: 0 <= k < |UsTwentyFourHourEnds| ==> StartOf(UsTwentyFourHourEnds, k) <= UsTwentyFourHourEnds[k] <= |UsTwentyFourHourSample| && UsTwentyFourHourSample[StartOf(UsTwentyFourHourEnds, k)..UsTwentyFourHourEnds[k]] == UsTwentyFourHourTokens[k]
  {
    forall k | 0 <= k < |UsTwentyFourHourEnds| ensures StartOf(UsTwentyFourHourEnds, k) <= UsTwentyFourHourEnds[k] <= |UsTwentyFourHourSample| && UsTwentyFourHourSample[StartOf(UsTwentyFourHourEnds, k)..UsTwentyFourHourEnds[k]] == UsTwentyFourHourTokens[k] {
      assert UsTwentyFourHourSample[StartOf(UsTwentyFourHourEnds, k)..UsTwentyFourHourEnds[k]] == UsTwentyFourHourTokens[k];
    }
  }

  /** Each token fits its directive. */
  lemma UsTwentyFourHourTokensFit()
    ensures forall k :: 0 <= k < |UsTwentyFourHourEnds| ==> Fits(UsTwentyFourHourFormat[k], UsTwentyFourHourTokens[k])
  {
    forall k | 0 <= k < |UsTwentyFourHourEnds| ensures Fits(UsTwentyFourHourFormat[k], UsTwentyFourHourTokens[k]) {
    }
  }

  /** No token could be longer. */
  lemma UsTwentyFourHourTokensStop()
    ensures forall k :: 0 <= k < |UsTwentyFourHourEnds| ==> StopsAt(UsTwentyFourHourFormat[k], UsTwentyFourHourSample, StartOf(UsTwentyFourHourEnds, k), UsTwentyFourHourEnds[k])
  {
    forall k | 0 <= k < |UsTwentyFourHourEnds| ensures StopsAt(UsTwentyFourHourFormat[k], UsTwentyFourHourSample, StartOf(UsTwentyFourHourEnds, k), UsTwentyFourHourEnds[k]) {
    }
  }

  lemma UsTwentyFourHourMatch()
    ensures MatchFrom(UsTwentyFourHourFormat, 0, UsTwentyFourHourSample, 0) == Some(Match(UsTwentyFourHourTokens, |UsTwentyFourHourSample|))
  {
    UsTwentyFourHourSlices();
    UsTwentyFourHourTokensFit();
    UsTwentyFourHourTokensStop();
    MatchOfTokens(UsTwentyFourHourFormat, UsTwentyFourHourSample, UsTwentyFourHourEnds, UsTwentyFourHourTokens);
  }

  lemma UsTwentyFourHourDate()
    ensures FieldValue(UsTwentyFourHourFormat, UsTwentyFourHourTokens, Year, 1900) == 2024
    ensures FieldValue(UsTwentyFourHourFormat, UsTwentyFourHourTokens, Month, 1) == 9
    ensures FieldValue(UsTwentyFourHourFormat, UsTwentyFourHourTokens, Day, 1) == 30
  {
    FieldAt(UsTwentyFourHourFormat, UsTwentyFourHourTokens, Month, 0);
    FieldAt(UsTwentyFourHourFormat, UsTwentyFourHourTokens, Day, 2);
    FieldAt(UsTwentyFourHourFormat, UsTwentyFourHourTokens, Year, 4);
    NumberOne(UsTwentyFourHourTokens[0]);
    NumberTwo(UsTwentyFourHourTokens[2]);
    NumberFour(UsTwentyFourHourTokens[4]);
  }

  lemma UsTwentyFourHourClock()
    ensures HourOf(UsTwentyFourHourFormat, UsTwentyFourHourTokens) == 6
    ensures FieldValue(UsTwentyFourHourFormat, UsTwentyFourHourTokens, Minute, 0) == 0
    ensures FieldValue(UsTwentyFourHourFormat, UsTwentyFourHourTokens, Second, 0) == 0
  {
    FieldAbsent(UsTwentyFourHourFormat, UsTwentyFourHourTokens, Hour12);
    FieldAt(UsTwentyFourHourFormat, UsTwentyFourHourTokens, Hour24, 6);
    FieldAt(UsTwentyFourHourFormat, UsTwentyFourHourTokens, Minute, 8);
    FieldAbsent(UsTwentyFourHourFormat, UsTwentyFourHourTokens, Second);
    NumberOne(UsTwentyFourHourTokens[6]);
    NumberTwo(UsTwentyFourHourTokens[8]);
  }

  lemma UsTwentyFourHourFields()
    ensures Assemble(UsTwentyFourHourFormat, UsTwentyFourHourTokens) == Some(DateTime(2024, 9, 30, 6, 0, 0))
  {
    UsTwentyFourHourDate();
    UsTwentyFourHourClock();
  }

  lemma UsTwentyFourHourAttempt()
    ensures Attempt(UsTwentyFourHourFormat, UsTwentyFourHourSample) == Some(DateTime(2024, 9, 30, 6, 0, 0))
  {
    UsTwentyFourHourMatch();
    UsTwentyFourHourFields();
  }

  // What parse_date returns for them

  /** None of the sample texts has whitespace around it. */
  lemma SamplesStripped()
    ensures Strip(IsoSample) == IsoSample
    ensures Strip(UsTwelveHourSample) == UsTwelveHourSample
    ensures Strip(UsTwentyFourHourSample) == UsTwentyFourHourSample
  {
  }

  /** '2024-11-17 15:00:00' is read by the first format. */
  lemma ParsedIsoExample()
    ensures ParsedDate(IsoSample) == Success(DateTime(2024, 11, 17, 15, 0, 0))
  {
    SamplesStripped();
    IsoAttempt();
    ParsedDateFirstFormatWins(IsoSample, 0);
  }

  /** '11/17/2024  3:00:00 PM' is read by the second format, the double space
      matching its single one, and 3 PM is hour 15. */
  lemma ParsedUsTwelveHourExample()
    ensures ParsedDate(UsTwelveHourSample) == Success(DateTime(2024, 11, 17, 15, 0, 0))
  {
    SamplesStripped();
    UsTwelveHourAttempt();
    ParsedDateByFormat(UsTwelveHourSample, 1);
  }

  /** '9/30/2024 6:00' is read by the third format. */
  lemma ParsedUsTwentyFourHourExample()
    ensures ParsedDate(UsTwentyFourHourSample) == Success(DateTime(2024, 9, 30, 6, 0, 0))
  {
    SamplesStripped();
    UsTwentyFourHourAttempt();
    ParsedDateByFormat(UsTwentyFourHourSample, 2);
  }

  const NoDateSample := "not-a-date"

  /** 'not-a-date' fits none of the formats, each of which begins with a
      number, and the error names it. */
  lemma ParsedNoDateExample()
    ensures ParsedDate(NoDateSample) == Failure(NoKnownFormat(NoDateSample))
  {
    assert Strip(NoDateSample) == NoDateSample;
    DigitFirst(IsoFormat, NoDateSample);
    DigitFirst(UsTwelveHourFormat, NoDateSample);
    DigitFirst(UsTwentyFourHourFormat, NoDateSample);
    ParsedDateNoFormat(NoDateSample);
  }
}

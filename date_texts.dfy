/** Date-times written out in each of the three formats of `parse_date`
    (clean_tc_dict_csv_export_cm.py, lines 25-27), as `strftime` would write
    them, and what strptime and `parse_date` make of those texts: the
    date-time written when it is a real one, and a failure when the calendar
    has no such day (30 February, 31 April, 29 February of a common year,
    year 0) or the clock no such second.

    A text is the list of its pieces, one per directive of the format, one
    after another (`Concat`); `AttemptOfConcat` turns "each piece fits its
    directive and stops before the next" into strptime's reading of the text. */
module DateTexts {
  import opened Wrappers
  import opened DateTimes
  import opened Strptime
  import opened DateParsing

  // ---------------------------------------------------------------------------
  // Digits

  function Digit(n: int): (c: char)
    requires 0 <= n <= 9
    ensures IsDigit(c) && DigitValue(c) == n
  {
    (n + '0' as int) as char
  }

  /** `n` in two digits, with a leading zero below 10 (`%m`, `%H`, `%M`, `%S`). */
  function Pad2(n: int): (t: string)
    requires 0 <= n <= 99
    ensures |t| == 2 && IsDigit(t[0]) && IsDigit(t[1]) && 10 * DigitValue(t[0]) + DigitValue(t[1]) == n
  {
    [Digit(n / 10), Digit(n % 10)]
  }

  /** `n` in four digits, with leading zeros (`%Y`). */
  function Pad4(n: int): (t: string)
    requires 0 <= n <= 9999
    ensures |t| == 4 && IsDigit(t[0]) && IsDigit(t[1]) && IsDigit(t[2]) && IsDigit(t[3])
    ensures 1000 * DigitValue(t[0]) + 100 * DigitValue(t[1]) + 10 * DigitValue(t[2]) + DigitValue(t[3]) == n
  {
    Pad2(n / 100) + Pad2(n % 100)
  }

  /** `n` without a leading zero, as in the samples "9/30/2024 6:00" and
      "11/17/2024  3:00:00 PM". */
  function Unpadded(n: int): (t: string)
    requires 0 <= n <= 99
    ensures 1 <= |t| <= 2 && IsDigit(t[0]) && IsDigit(t[|t| - 1])
    ensures |t| == 1 <==> n < 10
    ensures |t| == 1 ==> DigitValue(t[0]) == n
    ensures |t| == 2 ==> 10 * DigitValue(t[0]) + DigitValue(t[1]) == n
  {
    if n < 10 then [Digit(n)] else Pad2(n)
  }

  lemma NumberPad2(n: int)
    requires 0 <= n <= 99
    ensures Number(Pad2(n)) == n
  {
    NumberTwo(Pad2(n));
  }

  lemma NumberPad4(n: int)
    requires 0 <= n <= 9999
    ensures Number(Pad4(n)) == n
  {
    NumberFour(Pad4(n));
  }

  lemma NumberUnpadded(n: int)
    requires 0 <= n <= 99
    ensures Number(Unpadded(n)) == n
  {
    if n < 10 {
      NumberOne(Unpadded(n));
    } else {
      NumberTwo(Unpadded(n));
    }
  }

  // ---------------------------------------------------------------------------
  // The 12-hour clock

  /** The hour a 12-hour clock shows at `hour` (`%I`): 12 at midnight and noon. */
  function Clock12(hour: int): (h: int)
    requires 0 <= hour <= 23
    ensures 1 <= h <= 12
    ensures ClockHour(h, hour >= 12) == hour
  {
    if hour % 12 == 0 then 12 else hour % 12
  }

  /** `%p`: "AM" before noon, "PM" from noon on. */
  function Meridiem(hour: int): (t: string)
    ensures Fits(AmPm, t)
    ensures IsPm(t) <==> hour >= 12
  {
    if hour < 12 then "AM" else "PM"
  }

  // ---------------------------------------------------------------------------
  // The texts

  /** The fields each format can write: every field within its directive's
      range, whether or not the calendar has that day. The seconds run to 61,
      as `%S` accepts. */
  predicate Writable(dt: DateTime) {
    && 0 <= dt.year <= 9999
    && 1 <= dt.month <= 12
    && 1 <= dt.day <= 31
    && 0 <= dt.hour <= 23
    && 0 <= dt.minute <= 59
    && 0 <= dt.second <= 61
  }

  /** The ones a real date-time always has. */
  lemma ValidWritable(dt: DateTime)
    requires Valid(dt)
    ensures Writable(dt)
  {
  }

  /** `dt.strftime('%Y-%m-%d %H:%M:%S')`, piece by piece. */
  function IsoPieces(dt: DateTime): (ps: seq<string>)
    requires Writable(dt)
    ensures |ps| == |IsoFormat|
  {
    [Pad4(dt.year), "-", Pad2(dt.month), "-", Pad2(dt.day), " ",
     Pad2(dt.hour), ":", Pad2(dt.minute), ":", Pad2(dt.second)]
  }

  function IsoText(dt: DateTime): string
    requires Writable(dt)
  {
    Concat(IsoPieces(dt))
  }

  /** `dt.strftime('%m/%d/%Y %I:%M:%S %p')` with month, day and hour written
      without a leading zero, piece by piece. */
  function UsTwelveHourPieces(dt: DateTime): (ps: seq<string>)
    requires Writable(dt)
    ensures |ps| == |UsTwelveHourFormat|
  {
    [Unpadded(dt.month), "/", Unpadded(dt.day), "/", Pad4(dt.year), " ",
     Unpadded(Clock12(dt.hour)), ":", Pad2(dt.minute), ":", Pad2(dt.second), " ", Meridiem(dt.hour)]
  }

  function UsTwelveHourText(dt: DateTime): string
    requires Writable(dt)
  {
    Concat(UsTwelveHourPieces(dt))
  }

  /** `dt.strftime('%m/%d/%Y %H:%M')` with month, day and hour written without
      a leading zero, piece by piece. The seconds are not written. */
  function UsTwentyFourHourPieces(dt: DateTime): (ps: seq<string>)
    requires Writable(dt)
    ensures |ps| == |UsTwentyFourHourFormat|
  {
    [Unpadded(dt.month), "/", Unpadded(dt.day), "/", Pad4(dt.year), " ",
     Unpadded(dt.hour), ":", Pad2(dt.minute)]
  }

  function UsTwentyFourHourText(dt: DateTime): string
    requires Writable(dt)
  {
    Concat(UsTwentyFourHourPieces(dt))
  }

  // ---------------------------------------------------------------------------
  // The pieces are the engine's match

  lemma IsoPiecesFit(dt: DateTime)
    requires Writable(dt)
    ensures forall k :: 0 <= k < |IsoFormat| ==> Fits(IsoFormat[k], IsoPieces(dt)[k])
  {
  }

  lemma IsoPiecesStop(dt: DateTime)
    requires Writable(dt)
    ensures forall k :: 0 <= k < |IsoFormat| - 1 ==> StopsBefore(IsoFormat[k], IsoPieces(dt)[k], IsoPieces(dt)[k + 1])
  {
  }

  lemma UsTwelveHourPiecesFit(dt: DateTime)
    requires Writable(dt)
    ensures forall k :: 0 <= k < |UsTwelveHourFormat| ==> Fits(UsTwelveHourFormat[k], UsTwelveHourPieces(dt)[k])
  {
  }

  lemma UsTwelveHourPiecesStop(dt: DateTime)
    requires Writable(dt)
    ensures forall k :: 0 <= k < |UsTwelveHourFormat| - 1
              ==> StopsBefore(UsTwelveHourFormat[k], UsTwelveHourPieces(dt)[k], UsTwelveHourPieces(dt)[k + 1])
  {
  }

  lemma UsTwentyFourHourPiecesFit(dt: DateTime)
    requires Writable(dt)
    ensures forall k :: 0 <= k < |UsTwentyFourHourFormat| ==> Fits(UsTwentyFourHourFormat[k], UsTwentyFourHourPieces(dt)[k])
  {
  }

  lemma UsTwentyFourHourPiecesStop(dt: DateTime)
    requires Writable(dt)
    ensures forall k :: 0 <= k < |UsTwentyFourHourFormat| - 1
              ==> StopsBefore(UsTwentyFourHourFormat[k], UsTwentyFourHourPieces(dt)[k], UsTwentyFourHourPieces(dt)[k + 1])
  {
  }

  // ---------------------------------------------------------------------------
  // The pieces are the fields written

  lemma IsoPiecesAssemble(dt: DateTime)
    requires Writable(dt)
    ensures Assemble(IsoFormat, IsoPieces(dt)) == if Valid(dt) then Some(dt) else None
  {
    var ps := IsoPieces(dt);
    FieldAt(IsoFormat, ps, Year, 0);
    FieldAt(IsoFormat, ps, Month, 2);
    FieldAt(IsoFormat, ps, Day, 4);
    FieldAt(IsoFormat, ps, Hour24, 6);
    FieldAt(IsoFormat, ps, Minute, 8);
    FieldAt(IsoFormat, ps, Second, 10);
    FieldAbsent(IsoFormat, ps, Hour12);
    NumberPad4(dt.year);
    NumberPad2(dt.month);
    NumberPad2(dt.day);
    NumberPad2(dt.hour);
    NumberPad2(dt.minute);
    NumberPad2(dt.second);
  }

  /** The hour on the 12-hour clock and AM or PM give back the hour of the day. */
  lemma UsTwelveHourPiecesHour(dt: DateTime)
    requires Writable(dt)
    ensures HourOf(UsTwelveHourFormat, UsTwelveHourPieces(dt)) == dt.hour
  {
    var ps := UsTwelveHourPieces(dt);
    FieldAt(UsTwelveHourFormat, ps, Hour12, 6);
    FieldAt(UsTwelveHourFormat, ps, AmPm, 12);
    NumberUnpadded(Clock12(dt.hour));
  }

  lemma UsTwelveHourPiecesAssemble(dt: DateTime)
    requires Writable(dt)
    ensures Assemble(UsTwelveHourFormat, UsTwelveHourPieces(dt)) == if Valid(dt) then Some(dt) else None
  {
    var ps := UsTwelveHourPieces(dt);
    FieldAt(UsTwelveHourFormat, ps, Month, 0);
    FieldAt(UsTwelveHourFormat, ps, Day, 2);
    FieldAt(UsTwelveHourFormat, ps, Year, 4);
    FieldAt(UsTwelveHourFormat, ps, Minute, 8);
    FieldAt(UsTwelveHourFormat, ps, Second, 10);
    UsTwelveHourPiecesHour(dt);
    NumberUnpadded(dt.month);
    NumberUnpadded(dt.day);
    NumberPad4(dt.year);
    NumberPad2(dt.minute);
    NumberPad2(dt.second);
  }

  /** The 24-hour US format has no seconds, so strptime reads 0 for them. */
  lemma UsTwentyFourHourPiecesAssemble(dt: DateTime)
    requires Writable(dt)
    ensures Assemble(UsTwentyFourHourFormat, UsTwentyFourHourPieces(dt))
         == if Valid(dt.(second := 0)) then Some(dt.(second := 0)) else None
  {
    var ps := UsTwentyFourHourPieces(dt);
    FieldAt(UsTwentyFourHourFormat, ps, Month, 0);
    FieldAt(UsTwentyFourHourFormat, ps, Day, 2);
    FieldAt(UsTwentyFourHourFormat, ps, Year, 4);
    FieldAt(UsTwentyFourHourFormat, ps, Hour24, 6);
    FieldAt(UsTwentyFourHourFormat, ps, Minute, 8);
    FieldAbsent(UsTwentyFourHourFormat, ps, Second);
    FieldAbsent(UsTwentyFourHourFormat, ps, Hour12);
    NumberUnpadded(dt.month);
    NumberUnpadded(dt.day);
    NumberPad4(dt.year);
    NumberUnpadded(dt.hour);
    NumberPad2(dt.minute);
  }

  // ---------------------------------------------------------------------------
  // strptime reads back what was written

  /** `strptime(dt.strftime(f), f)` gives `dt` back for every real date-time,
      and raises for fields the calendar or the clock does not have. */
  lemma IsoRoundTrip(dt: DateTime)
    requires Writable(dt)
    ensures Attempt(IsoFormat, IsoText(dt)) == if Valid(dt) then Some(dt) else None
  {
    IsoPiecesFit(dt);
    IsoPiecesStop(dt);
    AttemptOfConcat(IsoFormat, IsoPieces(dt));
    IsoPiecesAssemble(dt);
  }

  lemma UsTwelveHourRoundTrip(dt: DateTime)
    requires Writable(dt)
    ensures Attempt(UsTwelveHourFormat, UsTwelveHourText(dt)) == if Valid(dt) then Some(dt) else None
  {
    UsTwelveHourPiecesFit(dt);
    UsTwelveHourPiecesStop(dt);
    AttemptOfConcat(UsTwelveHourFormat, UsTwelveHourPieces(dt));
    UsTwelveHourPiecesAssemble(dt);
  }

  /** The date and the time to the minute come back; the seconds come back as 0. */
  lemma UsTwentyFourHourRoundTrip(dt: DateTime)
    requires Writable(dt)
    ensures Attempt(UsTwentyFourHourFormat, UsTwentyFourHourText(dt))
         == if Valid(dt.(second := 0)) then Some(dt.(second := 0)) else None
  {
    UsTwentyFourHourPiecesFit(dt);
    UsTwentyFourHourPiecesStop(dt);
    AttemptOfConcat(UsTwentyFourHourFormat, UsTwentyFourHourPieces(dt));
    UsTwentyFourHourPiecesAssemble(dt);
  }

  // ---------------------------------------------------------------------------
  // parse_date reads back what was written

  /** The first and last characters of a text made of non-empty pieces. */
  lemma {:induction false} ConcatEnds(ps: seq<string>)
    requires |ps| > 0 && forall k :: 0 <= k < |ps| ==> ps[k] != []
    ensures |Concat(ps)| > 0 && Concat(ps)[0] == ps[0][0]
    ensures Concat(ps)[|Concat(ps)| - 1] == ps[|ps| - 1][|ps[|ps| - 1]| - 1]
    decreases |ps|
  {
    if |ps| == 1 {
      assert ps[1..] == [];
    } else {
      assert forall k :: 0 <= k < |ps[1..]| ==> ps[1..][k] == ps[k + 1];
      ConcatEnds(ps[1..]);
    }
  }

  /** A text of pieces that fit a format is its own strip when its first and
      last pieces have no whitespace at their ends. */
  lemma PiecesUnspaced(fmt: seq<Directive>, ps: seq<string>)
    requires |ps| == |fmt| > 0 && forall k :: 0 <= k < |fmt| ==> Fits(fmt[k], ps[k])
    requires ps[0] != [] && !IsSpace(ps[0][0])
    requires ps[|ps| - 1] != [] && !IsSpace(ps[|ps| - 1][|ps[|ps| - 1]| - 1])
    ensures Strip(Concat(ps)) == Concat(ps)
  {
    forall k | 0 <= k < |ps| ensures ps[k] != [] {
      FitsNonEmpty(fmt[k], ps[k]);
    }
    ConcatEnds(ps);
    StripUnspaced(Concat(ps));
  }

  /** `parse_date` of the ISO text gives `dt` for every real date-time and
      raises otherwise: the US formats never accept it, having `/` where it has none. */
  lemma IsoParsed(dt: DateTime)
    requires Writable(dt)
    ensures ParsedDate(IsoText(dt)) == if Valid(dt) then Success(dt) else Failure(NoKnownFormat(IsoText(dt)))
  {
    var s := IsoText(dt);
    IsoPiecesFit(dt);
    PiecesUnspaced(IsoFormat, IsoPieces(dt));
    IsoRoundTrip(dt);
    if Valid(dt) {
      ParsedDateByFormat(s, 0);
    } else {
      IsoOthersReject(dt);
      ParsedDateNoFormat(s);
    }
  }

  lemma IsoOthersReject(dt: DateTime)
    requires Writable(dt)
    ensures Attempt(UsTwelveHourFormat, IsoText(dt)).None?
    ensures Attempt(UsTwentyFourHourFormat, IsoText(dt)).None?
  {
    var s := IsoText(dt);
    IsoPiecesFit(dt);
    TokensCount(IsoFormat, 0, IsoPieces(dt), '/');
    IsoSeparators();
    UsTwelveHourSeparators();
    UsTwentyFourHourSeparators();
    SeparatorsReject(UsTwelveHourFormat, s, '/');
    SeparatorsReject(UsTwentyFourHourFormat, s, '/');
  }

  /** The same for the 12-hour US text: the ISO format has no `/`, the 24-hour
      format one `:` where the text has two. */
  lemma UsTwelveHourParsed(dt: DateTime)
    requires Writable(dt)
    ensures ParsedDate(UsTwelveHourText(dt))
         == if Valid(dt) then Success(dt) else Failure(NoKnownFormat(UsTwelveHourText(dt)))
  {
    var s := UsTwelveHourText(dt);
    UsTwelveHourPiecesFit(dt);
    PiecesUnspaced(UsTwelveHourFormat, UsTwelveHourPieces(dt));
    UsTwelveHourRoundTrip(dt);
    if Valid(dt) {
      ParsedDateByFormat(s, 1);
    } else {
      UsTwelveHourOthersReject(dt);
      ParsedDateNoFormat(s);
    }
  }

  lemma UsTwelveHourOthersReject(dt: DateTime)
    requires Writable(dt)
    ensures Attempt(IsoFormat, UsTwelveHourText(dt)).None?
    ensures Attempt(UsTwentyFourHourFormat, UsTwelveHourText(dt)).None?
  {
    var s := UsTwelveHourText(dt);
    UsTwelveHourPiecesFit(dt);
    TokensCount(UsTwelveHourFormat, 0, UsTwelveHourPieces(dt), '/');
    TokensCount(UsTwelveHourFormat, 0, UsTwelveHourPieces(dt), ':');
    IsoSeparators();
    UsTwelveHourSeparators();
    UsTwentyFourHourSeparators();
    SeparatorsReject(IsoFormat, s, '/');
    SeparatorsReject(UsTwentyFourHourFormat, s, ':');
  }

  /** The same for the 24-hour US text, whose seconds read as 0: the ISO format
      has no `/`, the 12-hour format two `:` where the text has one. */
  lemma UsTwentyFourHourParsed(dt: DateTime)
    requires Writable(dt)
    ensures ParsedDate(UsTwentyFourHourText(dt))
         == if Valid(dt.(second := 0)) then Success(dt.(second := 0))
            else Failure(NoKnownFormat(UsTwentyFourHourText(dt)))
  {
    var s := UsTwentyFourHourText(dt);
    UsTwentyFourHourPiecesFit(dt);
    PiecesUnspaced(UsTwentyFourHourFormat, UsTwentyFourHourPieces(dt));
    UsTwentyFourHourRoundTrip(dt);
    if Valid(dt.(second := 0)) {
      ParsedDateByFormat(s, 2);
    } else {
      UsTwentyFourHourOthersReject(dt);
      ParsedDateNoFormat(s);
    }
  }

  lemma UsTwentyFourHourOthersReject(dt: DateTime)
    requires Writable(dt)
    ensures Attempt(IsoFormat, UsTwentyFourHourText(dt)).None?
    ensures Attempt(UsTwelveHourFormat, UsTwentyFourHourText(dt)).None?
  {
    var s := UsTwentyFourHourText(dt);
    UsTwentyFourHourPiecesFit(dt);
    TokensCount(UsTwentyFourHourFormat, 0, UsTwentyFourHourPieces(dt), '/');
    TokensCount(UsTwentyFourHourFormat, 0, UsTwentyFourHourPieces(dt), ':');
    IsoSeparators();
    UsTwelveHourSeparators();
    UsTwentyFourHourSeparators();
    SeparatorsReject(IsoFormat, s, '/');
    SeparatorsReject(UsTwelveHourFormat, s, ':');
  }

  /** A day the month does not have (30 February, 31 April, 29 February of a
      common year) makes `parse_date` raise, in whichever format it is written. */
  lemma MissingDayFails(dt: DateTime)
    requires Writable(dt) && dt.day > DaysInMonth(dt.year, dt.month)
    ensures ParsedDate(IsoText(dt)) == Failure(NoKnownFormat(IsoText(dt)))
    ensures ParsedDate(UsTwelveHourText(dt)) == Failure(NoKnownFormat(UsTwelveHourText(dt)))
    ensures ParsedDate(UsTwentyFourHourText(dt)) == Failure(NoKnownFormat(UsTwentyFourHourText(dt)))
  {
    IsoParsed(dt);
    UsTwelveHourParsed(dt);
    UsTwentyFourHourParsed(dt);
  }
}

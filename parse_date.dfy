/** `parse_date` (clean_tc_dict_csv_export_cm.py, lines 23-34): strip the text,
    try three strptime formats in order, return the first parse, and raise
    `ValueError` when none of them accepts the text. */
module DateParsing {
  import opened Wrappers
  import opened DateTimes
  import opened Strptime

  /** The format strings, in the order they are tried. */
  const FormatStrings: seq<string> := ["%Y-%m-%d %H:%M:%S", "%m/%d/%Y %I:%M:%S %p", "%m/%d/%Y %H:%M"]

  const IsoFormat: seq<Directive> :=
    [Year, Literal('-'), Month, Literal('-'), Day, Whitespace, Hour24, Literal(':'), Minute, Literal(':'), Second]
  const UsTwelveHourFormat: seq<Directive> :=
    [Month, Literal('/'), Day, Literal('/'), Year, Whitespace, Hour12, Literal(':'), Minute, Literal(':'), Second, Whitespace, AmPm]
  const UsTwentyFourHourFormat: seq<Directive> :=
    [Month, Literal('/'), Day, Literal('/'), Year, Whitespace, Hour24, Literal(':'), Minute]

  const Formats: seq<seq<Directive>> := [IsoFormat, UsTwelveHourFormat, UsTwentyFourHourFormat]

  datatype DateError = NoKnownFormat(text: string)

  lemma Cons<T>(s: seq<T>, k: nat)
    requires k < |s|
    ensures s[k..] == [s[k]] + s[k + 1..]
  {
  }

  lemma IsoCompiledTime()
    ensures Compile(FormatStrings[0], 9) == Some(IsoFormat[6..])
  {
    var f, d := FormatStrings[0], IsoFormat;
    assert d[11..] == [];
    assert Compile(f, 17) == Some(d[11..]);
    Cons(d, 10); assert Compile(f, 15) == Some(d[10..]);
    Cons(d, 9); assert Compile(f, 14) == Some(d[9..]);
    Cons(d, 8); assert Compile(f, 12) == Some(d[8..]);
    Cons(d, 7); assert Compile(f, 11) == Some(d[7..]);
    Cons(d, 6); assert Compile(f, 9) == Some(d[6..]);
  }

  lemma IsoCompiled()
    ensures Compile(FormatStrings[0], 0) == Some(IsoFormat)
  {
    var f, d := FormatStrings[0], IsoFormat;
    IsoCompiledTime();
    Cons(d, 5); assert SkipSpaces(f, 8) == 9; assert Compile(f, 8) == Some(d[5..]);
    Cons(d, 4); assert Compile(f, 6) == Some(d[4..]);
    Cons(d, 3); assert Compile(f, 5) == Some(d[3..]);
    Cons(d, 2); assert Compile(f, 3) == Some(d[2..]);
    Cons(d, 1); assert Compile(f, 2) == Some(d[1..]);
    Cons(d, 0); assert Compile(f, 0) == Some(d);
  }

  lemma UsTwelveHourCompiledTime()
    ensures Compile(FormatStrings[1], 11) == Some(UsTwelveHourFormat[7..])
  {
    var f, d := FormatStrings[1], UsTwelveHourFormat;
    assert d[13..] == [];
    assert Compile(f, 20) == Some(d[13..]);
    Cons(d, 12); assert Compile(f, 18) == Some(d[12..]);
    Cons(d, 11); assert SkipSpaces(f, 17) == 18; assert Compile(f, 17) == Some(d[11..]);
    Cons(d, 10); assert Compile(f, 15) == Some(d[10..]);
    Cons(d, 9); assert Compile(f, 14) == Some(d[9..]);
    Cons(d, 8); assert Compile(f, 12) == Some(d[8..]);
    Cons(d, 7); assert Compile(f, 11) == Some(d[7..]);
  }

  lemma UsTwelveHourCompiled()
    ensures Compile(FormatStrings[1], 0) == Some(UsTwelveHourFormat)
  {
    var f, d := FormatStrings[1], UsTwelveHourFormat;
    UsTwelveHourCompiledTime();
    Cons(d, 6); assert Compile(f, 9) == Some(d[6..]);
    Cons(d, 5); assert SkipSpaces(f, 8) == 9; assert Compile(f, 8) == Some(d[5..]);
    Cons(d, 4); assert Compile(f, 6) == Some(d[4..]);
    Cons(d, 3); assert Compile(f, 5) == Some(d[3..]);
    Cons(d, 2); assert Compile(f, 3) == Some(d[2..]);
    Cons(d, 1); assert Compile(f, 2) == Some(d[1..]);
    Cons(d, 0); assert Compile(f, 0) == Some(d);
  }

  lemma UsTwentyFourHourCompiled()
    ensures Compile(FormatStrings[2], 0) == Some(UsTwentyFourHourFormat)
  {
    var f, d := FormatStrings[2], UsTwentyFourHourFormat;
    assert d[9..] == [];
    assert Compile(f, 14) == Some(d[9..]);
    Cons(d, 8); assert Compile(f, 12) == Some(d[8..]);
    Cons(d, 7); assert Compile(f, 11) == Some(d[7..]);
    Cons(d, 6); assert Compile(f, 9) == Some(d[6..]);
    Cons(d, 5); assert SkipSpaces(f, 8) == 9; assert Compile(f, 8) == Some(d[5..]);
    Cons(d, 4); assert Compile(f, 6) == Some(d[4..]);
    Cons(d, 3); assert Compile(f, 5) == Some(d[3..]);
    Cons(d, 2); assert Compile(f, 3) == Some(d[2..]);
    Cons(d, 1); assert Compile(f, 2) == Some(d[1..]);
    Cons(d, 0); assert Compile(f, 0) == Some(d);
  }

  /** The directive lists are what strptime makes of the three format strings. */
  lemma FormatsCompiled()
    ensures |Formats| == |FormatStrings| == 3
    ensures forall i :: 0 <= i < 3 ==> Compile(FormatStrings[i], 0) == Some(Formats[i])
  {
    IsoCompiled();
    UsTwelveHourCompiled();
    UsTwentyFourHourCompiled();
  }

  // ---------------------------------------------------------------------------
  // `str.strip()`

  /** The text without its leading whitespace. */
  function TrimStart(s: string): (r: string)
    ensures r == [] || !IsSpace(r[0])
  {
    if s != [] && IsSpace(s[0]) then TrimStart(s[1..]) else s
  }

  /** The text without its trailing whitespace. */
  function TrimEnd(s: string): (r: string)
    ensures r == [] || !IsSpace(r[|r| - 1])
  {
    if s != [] && IsSpace(s[|s| - 1]) then TrimEnd(s[..|s| - 1]) else s
  }

  lemma {:induction false} TrimStartIsSuffix(s: string)
    ensures |TrimStart(s)| <= |s| && TrimStart(s) == s[|s| - |TrimStart(s)|..]
    ensures forall k :: 0 <= k < |s| - |TrimStart(s)| ==> IsSpace(s[k])
  {
    if s != [] && IsSpace(s[0]) {
      TrimStartIsSuffix(s[1..]);
      assert forall k :: 1 <= k < |s| ==> s[k] == s[1..][k - 1];
    }
  }

  lemma {:induction false} TrimEndIsPrefix(s: string)
    ensures |TrimEnd(s)| <= |s| && TrimEnd(s) == s[..|TrimEnd(s)|]
    ensures forall k :: |TrimEnd(s)| <= k < |s| ==> IsSpace(s[k])
  {
    if s != [] && IsSpace(s[|s| - 1]) {
      TrimEndIsPrefix(s[..|s| - 1]);
      assert forall k :: 0 <= k < |s| - 1 ==> s[k] == s[..|s| - 1][k];
    }
  }

  /** The text without its leading and trailing whitespace. */
  function Strip(s: string): string {
    TrimEnd(TrimStart(s))
  }

  /** The stripped text is the slice `s[i..i + |r|]`, only whitespace lies
      outside it, and it neither begins nor ends with whitespace. */
  lemma StripIsSlice(s: string) returns (i: nat)
    ensures i + |Strip(s)| <= |s| && Strip(s) == s[i..i + |Strip(s)|]
    ensures forall k :: 0 <= k < i ==> IsSpace(s[k])
    ensures forall k :: i + |Strip(s)| <= k < |s| ==> IsSpace(s[k])
    ensures Strip(s) == [] || (!IsSpace(Strip(s)[0]) && !IsSpace(Strip(s)[|Strip(s)| - 1]))
  {
    var t := TrimStart(s);
    var r := TrimEnd(t);
    TrimStartIsSuffix(s);
    TrimEndIsPrefix(t);
    i := |s| - |t|;
    assert r == s[i..i + |r|];
    assert forall k :: i + |r| <= k < |s| ==> s[k] == t[k - i];
    assert r == [] || r[0] == t[0];
  }

  /** A text that neither begins nor ends with whitespace is its own strip. */
  lemma StripUnspaced(s: string)
    requires s == [] || (!IsSpace(s[0]) && !IsSpace(s[|s| - 1]))
    ensures Strip(s) == s
  {
  }

  lemma StripIdempotent(s: string)
    ensures Strip(Strip(s)) == Strip(s)
  {
    var t := TrimStart(s);
    var r := TrimEnd(t);
    TrimEndIsPrefix(t);
    assert r == [] || r[0] == t[0];
    assert TrimStart(r) == r;
  }

  // ---------------------------------------------------------------------------
  // The first format that accepts

  /** What each format makes of `s`, in order. */
  function Attempts(fmts: seq<seq<Directive>>, s: string): (rs: seq<Option<DateTime>>)
    ensures |rs| == |fmts|
    ensures forall k :: 0 <= k < |fmts| ==> rs[k] == Attempt(fmts[k], s)
  {
    seq(|fmts|, k requires 0 <= k < |fmts| => Attempt(fmts[k], s))
  }

  /** The first result from `rs[i..]` that is a date-time, if any. */
  function FirstMatch(rs: seq<Option<DateTime>>, i: nat): Option<DateTime>
    requires i <= |rs|
    decreases |rs| - i
  {
    if i == |rs| then None
    else if rs[i].Some? then rs[i] else FirstMatch(rs, i + 1)
  }

  /** There is no first match exactly when every result is `None`. */
  lemma {:induction false} FirstMatchNone(rs: seq<Option<DateTime>>, i: nat)
    requires i <= |rs|
    ensures FirstMatch(rs, i).None? <==> forall k :: i <= k < |rs| ==> rs[k].None?
    decreases |rs| - i
  {
    if i < |rs| {
      FirstMatchNone(rs, i + 1);
    }
  }

  /** The result that comes before all others is the first match. */
  lemma {:induction false} FirstMatchAt(rs: seq<Option<DateTime>>, i: nat, k: nat)
    requires i <= k < |rs| && rs[k].Some?
    requires forall j :: i <= j < k ==> rs[j].None?
    ensures FirstMatch(rs, i) == rs[k]
    decreases k - i
  {
    if i < k {
      FirstMatchAt(rs, i + 1, k);
    }
  }

  /** A first match is some result, all before which are `None`. */
  lemma {:induction false} FirstMatchFrom(rs: seq<Option<DateTime>>, i: nat) returns (k: nat)
    requires i <= |rs| && FirstMatch(rs, i).Some?
    ensures i <= k < |rs| && rs[k] == FirstMatch(rs, i)
    ensures forall j :: i <= j < k ==> rs[j].None?
    decreases |rs| - i
  {
    if rs[i].Some? {
      k := i;
    } else {
      k := FirstMatchFrom(rs, i + 1);
    }
  }

  /** What `parse_date(dateStr)` returns or raises. */
  function ParsedDate(dateStr: string): Result<DateTime, DateError> {
    match FirstMatch(Attempts(Formats, Strip(dateStr)), 0)
    case Some(dt) => Success(dt)
    case None => Failure(NoKnownFormat(dateStr))
  }

  /** `parse_date`: the loop over the formats, each `strptime` that raises
      moving on to the next. */
  method ParseDate(dateStr: string) returns (r: Result<DateTime, DateError>)
    ensures r == ParsedDate(dateStr)
  {
    var text := Strip(dateStr);
    for i := 0 to |Formats|
      invariant forall j :: 0 <= j < i ==> Attempt(Formats[j], text).None?
    {
      var attempt := Attempt(Formats[i], text);
      if attempt.Some? {
        FirstMatchAt(Attempts(Formats, text), 0, i);
        return Success(attempt.value);
      }
    }
    FirstMatchNone(Attempts(Formats, text), 0);
    return Failure(NoKnownFormat(dateStr));
  }

  // ---------------------------------------------------------------------------
  // Properties of parse_date

  /** The result comes from the first format (ISO, then 12-hour US, then
      24-hour US) that accepts the stripped text; the later ones play no part. */
  lemma ParsedDateFirstFormatWins(dateStr: string, k: nat)
    requires k < |Formats| && Attempt(Formats[k], Strip(dateStr)).Some?
    requires forall j :: 0 <= j < k ==> Attempt(Formats[j], Strip(dateStr)).None?
    ensures ParsedDate(dateStr) == Success(Attempt(Formats[k], Strip(dateStr)).value)
  {
    FirstMatchAt(Attempts(Formats, Strip(dateStr)), 0, k);
  }

  /** `parse_date` raises exactly when no format accepts the stripped text, and
      the error names the text as given. */
  lemma ParsedDateFailsIff(dateStr: string)
    ensures ParsedDate(dateStr).Failure?
        <==> forall k :: 0 <= k < |Formats| ==> Attempt(Formats[k], Strip(dateStr)).None?
    ensures ParsedDate(dateStr).Failure? ==> ParsedDate(dateStr).error == NoKnownFormat(dateStr)
  {
    FirstMatchNone(Attempts(Formats, Strip(dateStr)), 0);
  }

  /** A parsed date is a valid calendar date and time of day. */
  lemma ParsedDateValid(dateStr: string)
    requires ParsedDate(dateStr).Success?
    ensures Valid(ParsedDate(dateStr).value)
  {
    var k := FirstMatchFrom(Attempts(Formats, Strip(dateStr)), 0);
  }

  /** Whitespace around the text makes no difference to the parse. */
  lemma ParsedDateIgnoresSurroundingSpace(dateStr: string)
    ensures ParsedDate(Strip(dateStr)).Success? == ParsedDate(dateStr).Success?
    ensures ParsedDate(dateStr).Success? ==> ParsedDate(Strip(dateStr)) == ParsedDate(dateStr)
  {
    StripIdempotent(dateStr);
  }

  lemma IsoSeparators()
    ensures LiteralCount('/', IsoFormat, 0) == 0
  {
  }

  lemma UsTwelveHourSeparators()
    ensures LiteralCount('/', UsTwelveHourFormat, 0) == 2
    ensures LiteralCount(':', UsTwelveHourFormat, 0) == 2
  {
    assert LiteralCount('/', UsTwelveHourFormat, 9) == 0;
    assert LiteralCount(':', UsTwelveHourFormat, 9) == 1;
    assert LiteralCount('/', UsTwelveHourFormat, 4) == 0;
    assert LiteralCount(':', UsTwelveHourFormat, 4) == 2;
  }

  lemma UsTwentyFourHourSeparators()
    ensures LiteralCount('/', UsTwentyFourHourFormat, 0) == 2
    ensures LiteralCount(':', UsTwentyFourHourFormat, 0) == 1
  {
  }

  /** A format rejects a text with a different number of some separator than it has. */
  lemma SeparatorsReject(fmt: seq<Directive>, s: string, c: char)
    requires IsSeparator(c) && CountChar(c, s) != LiteralCount(c, fmt, 0)
    ensures Attempt(fmt, s).None?
  {
    if Attempt(fmt, s).Some? {
      AcceptedSeparators(fmt, s, c);
    }
  }

  /** Two formats with different numbers of some separator never accept the same text. */
  lemma SeparatorsTellApart(f: seq<Directive>, g: seq<Directive>, s: string, c: char)
    requires IsSeparator(c) && LiteralCount(c, f, 0) != LiteralCount(c, g, 0)
    ensures Attempt(f, s).None? || Attempt(g, s).None?
  {
    if Attempt(f, s).Some? && Attempt(g, s).Some? {
      AcceptedSeparators(f, s, c);
      AcceptedSeparators(g, s, c);
    }
  }

  /** No text is accepted by two of the formats: the ISO format has no `/` and
      the US formats two, and the 12-hour format has two `:` where the 24-hour
      one has one. So the order of the list decides nothing in the end. */
  lemma FormatsExclusive(s: string, i: nat, j: nat)
    requires i < j < |Formats|
    ensures Attempt(Formats[i], s).None? || Attempt(Formats[j], s).None?
  {
    IsoSeparators();
    UsTwelveHourSeparators();
    UsTwentyFourHourSeparators();
    if i == 0 && j == 1 {
      SeparatorsTellApart(IsoFormat, UsTwelveHourFormat, s, '/');
    } else if i == 0 {
      assert j == 2;
      SeparatorsTellApart(IsoFormat, UsTwentyFourHourFormat, s, '/');
    } else {
      assert i == 1 && j == 2;
      SeparatorsTellApart(UsTwelveHourFormat, UsTwentyFourHourFormat, s, ':');
    }
  }

  /** A consequence: whichever format accepts the stripped text gives the result. */
  lemma ParsedDateByFormat(dateStr: string, k: nat)
    requires k < |Formats| && Attempt(Formats[k], Strip(dateStr)).Some?
    ensures ParsedDate(dateStr) == Success(Attempt(Formats[k], Strip(dateStr)).value)
  {
    var s := Strip(dateStr);
    forall j | 0 <= j < k ensures Attempt(Formats[j], s).None? {
      FormatsExclusive(s, j, k);
    }
    FirstMatchAt(Attempts(Formats, s), 0, k);
  }

  /** So the text parses to `dt` exactly when some format parses it to `dt`. */
  lemma ParsedDateAnyFormat(dateStr: string, dt: DateTime)
    ensures ParsedDate(dateStr) == Success(dt)
        <==> exists k :: 0 <= k < |Formats| && Attempt(Formats[k], Strip(dateStr)) == Some(dt)
  {
    var s := Strip(dateStr);
    if k :| 0 <= k < |Formats| && Attempt(Formats[k], s) == Some(dt) {
      ParsedDateByFormat(dateStr, k);
    }
    if ParsedDate(dateStr) == Success(dt) {
      var k := FirstMatchFrom(Attempts(Formats, s), 0);
    }
  }

  /** `parse_date` raises when none of the three formats accepts the stripped text. */
  lemma ParsedDateNoFormat(dateStr: string)
    requires Attempt(IsoFormat, Strip(dateStr)).None?
    requires Attempt(UsTwelveHourFormat, Strip(dateStr)).None?
    requires Attempt(UsTwentyFourHourFormat, Strip(dateStr)).None?
    ensures ParsedDate(dateStr) == Failure(NoKnownFormat(dateStr))
  {
    ParsedDateFailsIff(dateStr);
  }
}

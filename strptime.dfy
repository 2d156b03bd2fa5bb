/** The part of Python's `datetime.strptime` that the clean-up script relies on:
    a format string is turned into a pattern (each directive a small regular
    expression, each run of whitespace `\s+`), the pattern is matched from the
    start of the text with the regular-expression engine's backtracking, the
    whole text must be consumed, and the captured fields must form a valid
    date-time. Any failure is the `ValueError` the script catches. */
module Strptime {
  import opened Wrappers
  import opened DateTimes

  /** The characters `str.isspace()` accepts, which are also those the regular
      expression class `\s` matches in a text pattern. */
  predicate IsSpace(c: char) {
    || c == ' '
    || '\t' <= c <= '\r'
    || '\U{1c}' <= c <= '\U{1f}'
    || c == '\U{85}' || c == '\U{a0}' || c == '\U{1680}'
    || '\U{2000}' <= c <= '\U{200a}'
    || c == '\U{2028}' || c == '\U{2029}' || c == '\U{202f}' || c == '\U{205f}' || c == '\U{3000}'
  }

  predicate IsDigit(c: char) {
    '0' <= c <= '9'
  }

  function DigitValue(c: char): int
    requires IsDigit(c)
  {
    c as int - '0' as int
  }

  /** The pattern pieces of the three formats the script uses. */
  datatype Directive =
    | Year      // %Y
    | Month     // %m
    | Day       // %d
    | Hour24    // %H
    | Hour12    // %I
    | Minute    // %M
    | Second    // %S
    | AmPm      // %p
    | Whitespace // a run of whitespace in the format
    | Literal(c: char)

  function DirectiveOf(c: char): Option<Directive> {
    match c
    case 'Y' => Some(Year)
    case 'm' => Some(Month)
    case 'd' => Some(Day)
    case 'H' => Some(Hour24)
    case 'I' => Some(Hour12)
    case 'M' => Some(Minute)
    case 'S' => Some(Second)
    case 'p' => Some(AmPm)
    case '%' => Some(Literal('%'))
    case _ => None
  }

  /** The first index at or after `i` that does not hold whitespace. */
  function SkipSpaces(f: string, i: nat): (j: nat)
    requires i <= |f|
    ensures i <= j <= |f|
    ensures forall k :: i <= k < j ==> IsSpace(f[k])
    ensures j < |f| ==> !IsSpace(f[j])
    decreases |f| - i
  {
    if i < |f| && IsSpace(f[i]) then SkipSpaces(f, i + 1) else i
  }

  /** Turns the format string from index `i` on into its directives, as
      strptime builds its pattern: `%` and a letter is a directive, `%%` a
      literal percent sign, a run of whitespace one `\s+`, anything else a
      literal character. `None` for a directive this model does not know or a
      stray `%` at the end (both a `ValueError` in Python). */
  function Compile(f: string, i: nat): Option<seq<Directive>>
    requires i <= |f|
    decreases |f| - i
  {
    if i == |f| then Some([])
    else if f[i] == '%' then
      if i + 1 == |f| then None
      else match (DirectiveOf(f[i + 1]), Compile(f, i + 2))
        case (Some(d), Some(rest)) => Some([d] + rest)
        case _ => None
    else if IsSpace(f[i]) then
      match Compile(f, SkipSpaces(f, i))
      case Some(rest) => Some([Whitespace] + rest)
      case None => None
    else
      match Compile(f, i + 1)
      case Some(rest) => Some([Literal(f[i])] + rest)
      case None => None
  }

  predicate OneDigit(t: string, lo: int) {
    |t| == 1 && IsDigit(t[0]) && lo <= DigitValue(t[0])
  }

  predicate TwoDigits(t: string, lo: int, hi: int) {
    |t| == 2 && IsDigit(t[0]) && IsDigit(t[1]) && lo <= 10 * DigitValue(t[0]) + DigitValue(t[1]) <= hi
  }

  /** The texts each directive's regular expression matches:
      %Y `\d\d\d\d`; %m `1[0-2]|0[1-9]|[1-9]`; %d `3[01]|[12]\d|0[1-9]|[1-9]| [1-9]`;
      %H `2[0-3]|[01]\d|\d`; %I `1[0-2]|0[1-9]|[1-9]`; %M `[0-5]\d|\d`;
      %S `6[01]|[0-5]\d|\d`; %p `am|pm` ignoring case; whitespace `\s+`. */
  predicate Fits(d: Directive, t: string) {
    match d
    case Year => |t| == 4 && IsDigit(t[0]) && IsDigit(t[1]) && IsDigit(t[2]) && IsDigit(t[3])
    case Month => TwoDigits(t, 1, 12) || OneDigit(t, 1)
    case Day => TwoDigits(t, 1, 31) || OneDigit(t, 1) || (|t| == 2 && t[0] == ' ' && OneDigit(t[1..], 1))
    case Hour24 => TwoDigits(t, 0, 23) || OneDigit(t, 0)
    case Hour12 => TwoDigits(t, 1, 12) || OneDigit(t, 1)
    case Minute => TwoDigits(t, 0, 59) || OneDigit(t, 0)
    case Second => TwoDigits(t, 0, 61) || OneDigit(t, 0)
    case AmPm => |t| == 2 && (t[0] == 'a' || t[0] == 'A' || t[0] == 'p' || t[0] == 'P') && (t[1] == 'm' || t[1] == 'M')
    case Whitespace => |t| >= 1 && forall i :: 0 <= i < |t| ==> IsSpace(t[i])
    case Literal(c) => t == [c]
  }

  /** The ends `e` with `pos < e <= hi` at which `d` fits from `pos`, longest first. */
  function FitsUpTo(d: Directive, s: string, pos: nat, hi: nat): (cs: seq<nat>)
    requires pos <= hi <= |s|
    ensures forall k :: 0 <= k < |cs| ==> pos < cs[k] <= hi && Fits(d, s[pos..cs[k]])
    ensures forall e :: pos < e <= hi && Fits(d, s[pos..e]) ==> e in cs
    ensures forall k, l :: 0 <= k < l < |cs| ==> cs[k] > cs[l]
    decreases hi - pos
  {
    if hi == pos then []
    else
      var rest := FitsUpTo(d, s, pos, hi - 1);
      if Fits(d, s[pos..hi]) then [hi] + rest else rest
  }

  /** Only whitespace runs have a length other than 1, 2 or 4. */
  lemma FitsLength(d: Directive, t: string)
    requires d != Whitespace && Fits(d, t)
    ensures |t| == 1 || |t| == 2 || |t| == 4
  {
  }

  /** The positions at which a match of `d` begun at `pos` can end, in the
      order the regular-expression engine tries them: longest first. The
      alternatives of each directive are written longest first (the one
      exception, `%d`'s ` [1-9]`, begins with a space and so never competes
      with the others), and `\s+` is greedy. */
  function Candidates(d: Directive, s: string, pos: nat): (cs: seq<nat>)
    requires pos <= |s|
    ensures forall k :: 0 <= k < |cs| ==> pos < cs[k] <= |s| && Fits(d, s[pos..cs[k]])
    ensures cs != [] ==> pos < cs[0] <= |s| && Fits(d, s[pos..cs[0]])
    ensures forall e :: pos < e <= |s| && Fits(d, s[pos..e]) ==> e in cs
    ensures forall k, l :: 0 <= k < l < |cs| ==> cs[k] > cs[l]
  {
    FitsUpTo(d, s, pos, |s|)
  }

  /** A successful match: the text each directive captured, and where the match ends. */
  datatype Match = Match(tokens: seq<string>, end: nat)

  function Concat(ts: seq<string>): string {
    if ts == [] then [] else ts[0] + Concat(ts[1..])
  }

  lemma ConcatCons(s: string, pos: nat, e: nat, m: Match)
    requires pos <= e <= m.end <= |s|
    requires Concat(m.tokens) == s[e..m.end]
    ensures Concat([s[pos..e]] + m.tokens) == s[pos..m.end]
  {
    assert ([s[pos..e]] + m.tokens)[1..] == m.tokens;
    assert s[pos..m.end] == s[pos..e] + s[e..m.end];
  }

  /** The match shape every successful match of `fmt[i..]` has: one token per
      directive, each fitting its directive, the tokens spelling out the text
      from `pos` up to the end of the match. */
  predicate Matches(fmt: seq<Directive>, i: nat, s: string, pos: nat, m: Match)
    requires i <= |fmt|
  {
    && |m.tokens| == |fmt| - i
    && pos <= m.end <= |s|
    && Concat(m.tokens) == s[pos..m.end]
    && forall k :: 0 <= k < |m.tokens| ==> Fits(fmt[i + k], m.tokens[k])
  }

  /** A token that fits directive `i`, followed by a match of the rest. */
  lemma MatchesCons(fmt: seq<Directive>, i: nat, s: string, pos: nat, e: nat, m: Match)
    requires i < |fmt| && pos < e <= |s| && Fits(fmt[i], s[pos..e])
    requires Matches(fmt, i + 1, s, e, m)
    ensures Matches(fmt, i, s, pos, Match([s[pos..e]] + m.tokens, m.end))
  {
    var toks := [s[pos..e]] + m.tokens;
    ConcatCons(s, pos, e, m);
    assert forall k :: 1 <= k < |toks| ==> fmt[i + k] == fmt[(i + 1) + (k - 1)] && toks[k] == m.tokens[k - 1];
  }

  /** The regular-expression engine's `match` of the pattern `fmt[i..]` at
      `pos`: the first match in backtracking order, which need not reach the
      end of the text. */
  function MatchFrom(fmt: seq<Directive>, i: nat, s: string, pos: nat): (r: Option<Match>)
    requires i <= |fmt| && pos <= |s|
    ensures r.Some? ==> |r.value.tokens| == |fmt| - i
    decreases |fmt| - i, 1, 0
  {
    if i == |fmt| then Some(Match([], pos))
    else TryEach(fmt, i, s, pos, Candidates(fmt[i], s, pos))
  }

  /** Tries the candidate ends of directive `i` in order, matching the rest of
      the pattern after each, and keeps the first that succeeds. */
  function TryEach(fmt: seq<Directive>, i: nat, s: string, pos: nat, cands: seq<nat>): (r: Option<Match>)
    requires i < |fmt| && pos <= |s|
    requires forall k :: 0 <= k < |cands| ==> pos < cands[k] <= |s|
    ensures r.Some? ==> |r.value.tokens| == |fmt| - i
    decreases |fmt| - i, 0, |cands|
  {
    if cands == [] then None
    else
      var e := cands[0];
      match MatchFrom(fmt, i + 1, s, e)
      case Some(m) => Some(Match([s[pos..e]] + m.tokens, m.end))
      case None => TryEach(fmt, i, s, pos, cands[1..])
  }

  /** Every match the engine returns has the shape `Matches` describes. */
  lemma {:induction false} MatchFromShape(fmt: seq<Directive>, i: nat, s: string, pos: nat)
    requires i <= |fmt| && pos <= |s|
    ensures MatchFrom(fmt, i, s, pos).Some? ==> Matches(fmt, i, s, pos, MatchFrom(fmt, i, s, pos).value)
    decreases |fmt| - i, 1, 0
  {
    if i < |fmt| {
      TryEachShape(fmt, i, s, pos, Candidates(fmt[i], s, pos));
    }
  }

  lemma {:induction false} TryEachShape(fmt: seq<Directive>, i: nat, s: string, pos: nat, cands: seq<nat>)
    requires i < |fmt| && pos <= |s|
    requires forall k :: 0 <= k < |cands| ==> pos < cands[k] <= |s| && Fits(fmt[i], s[pos..cands[k]])
    ensures TryEach(fmt, i, s, pos, cands).Some? ==> Matches(fmt, i, s, pos, TryEach(fmt, i, s, pos, cands).value)
    decreases |fmt| - i, 0, |cands|
  {
    if cands != [] {
      var e := cands[0];
      MatchFromShape(fmt, i + 1, s, e);
      match MatchFrom(fmt, i + 1, s, e)
      case Some(m) => MatchesCons(fmt, i, s, pos, e, m);
      case None => TryEachShape(fmt, i, s, pos, cands[1..]);
    }
  }

  /** `int()` of a captured number; `%d` may capture a space before its digit. */
  function Number(t: string): int {
    if t != [] && t[0] == ' ' then Number(t[1..])
    else if t == [] || !IsDigit(t[|t| - 1]) then 0
    else 10 * Number(t[..|t| - 1]) + DigitValue(t[|t| - 1])
  }

  /** The text captured by the first occurrence of `d` in the format. */
  function FieldText(fmt: seq<Directive>, toks: seq<string>, d: Directive): Option<string>
    requires |fmt| == |toks|
  {
    FieldFrom(fmt, toks, d, 0)
  }

  function FieldFrom(fmt: seq<Directive>, toks: seq<string>, d: Directive, i: nat): Option<string>
    requires |fmt| == |toks| && i <= |fmt|
    decreases |fmt| - i
  {
    if i == |fmt| then None
    else if fmt[i] == d then Some(toks[i])
    else FieldFrom(fmt, toks, d, i + 1)
  }

  function FieldValue(fmt: seq<Directive>, toks: seq<string>, d: Directive, default: int): int
    requires |fmt| == |toks|
  {
    match FieldText(fmt, toks, d)
    case Some(t) => Number(t)
    case None => default
  }

  /** The hour that a 12-hour clock reading denotes: 12 AM is midnight, 12 PM
      is noon, and the other PM hours are 12 later. */
  function ClockHour(h: int, pm: bool): (hour: int)
    requires 1 <= h <= 12
    ensures 0 <= hour <= 23
    ensures hour >= 12 <==> pm
    ensures hour % 12 == h % 12
  {
    if !pm then (if h == 12 then 0 else h)
    else (if h != 12 then h + 12 else 12)
  }

  predicate IsPm(t: string) {
    t != [] && (t[0] == 'p' || t[0] == 'P')
  }

  function HourOf(fmt: seq<Directive>, toks: seq<string>): int
    requires |fmt| == |toks|
  {
    match FieldText(fmt, toks, Hour12)
    case Some(t) =>
      var h := Number(t);
      var pm := match FieldText(fmt, toks, AmPm) case Some(p) => IsPm(p) case None => false;
      if 1 <= h <= 12 then ClockHour(h, pm) else h
    case None => FieldValue(fmt, toks, Hour24, 0)
  }

  /** The date-time the captured fields denote, with strptime's defaults for the
      fields a format leaves out (1900-01-01 00:00:00), if it is a valid one. */
  function Assemble(fmt: seq<Directive>, toks: seq<string>): Option<DateTime>
    requires |fmt| == |toks|
  {
    var dt := DateTime(
      FieldValue(fmt, toks, Year, 1900),
      FieldValue(fmt, toks, Month, 1),
      FieldValue(fmt, toks, Day, 1),
      HourOf(fmt, toks),
      FieldValue(fmt, toks, Minute, 0),
      FieldValue(fmt, toks, Second, 0));
    if Valid(dt) then Some(dt) else None
  }

  /** `datetime.strptime(s, f)` for the directives of `fmt`: `None` where it
      raises `ValueError` (no match, unconverted data left, or no such date). */
  function Attempt(fmt: seq<Directive>, s: string): (r: Option<DateTime>)
    ensures r.Some? ==> Valid(r.value)
  {
    match MatchFrom(fmt, 0, s, 0)
    case None => None
    case Some(m) => if m.end < |s| then None else Assemble(fmt, m.tokens)
  }

  // ---------------------------------------------------------------------------
  // How a match proceeds, one directive at a time

  /** When `e` is the longest end at which directive `i` fits and the rest of
      the pattern matches from `e`, the engine's first match takes `e`. */
  lemma MatchStep(fmt: seq<Directive>, i: nat, s: string, pos: nat, e: nat)
    requires i < |fmt| && pos < e <= |s| && Fits(fmt[i], s[pos..e])
    requires forall n :: e < n <= |s| ==> !Fits(fmt[i], s[pos..n])
    requires MatchFrom(fmt, i + 1, s, e).Some?
    ensures MatchFrom(fmt, i, s, pos)
         == Some(Match([s[pos..e]] + MatchFrom(fmt, i + 1, s, e).value.tokens, MatchFrom(fmt, i + 1, s, e).value.end))
  {
    var cs := Candidates(fmt[i], s, pos);
    assert e in cs;
  }

  /** Where directive `i` starts when each directive `k` before it stopped at `ends[k]`. */
  function StartOf(ends: seq<nat>, i: nat): nat
    requires i <= |ends|
  {
    if i == 0 then 0 else ends[i - 1]
  }

  /** From directive `i` on, each directive takes its longest fit where the
      one before it stopped, directive `k` stopping at `ends[k]`. */
  predicate Greedy(fmt: seq<Directive>, s: string, ends: seq<nat>, i: nat)
    requires |ends| == |fmt| && i <= |fmt|
    decreases |fmt| - i
  {
    || i == |fmt|
    || (&& StartOf(ends, i) < ends[i] <= |s|
        && Fits(fmt[i], s[StartOf(ends, i)..ends[i]])
        && (forall n :: ends[i] < n <= |s| ==> !Fits(fmt[i], s[StartOf(ends, i)..n]))
        && Greedy(fmt, s, ends, i + 1))
  }

  /** The texts between the successive `ends`, from directive `i` on. */
  function Pieces(s: string, ends: seq<nat>, i: nat): seq<string>
    requires i <= |ends|
    decreases |ends| - i
  {
    if i == |ends| || !(StartOf(ends, i) <= ends[i] <= |s|) then []
    else [s[StartOf(ends, i)..ends[i]]] + Pieces(s, ends, i + 1)
  }

  /** Longest fits everywhere are what the engine's first match takes. */
  lemma {:induction false} GreedyMatch(fmt: seq<Directive>, s: string, ends: seq<nat>, i: nat)
    requires |ends| == |fmt| && i <= |fmt| && StartOf(ends, i) <= |s| && Greedy(fmt, s, ends, i)
    ensures MatchFrom(fmt, i, s, StartOf(ends, i)) == Some(Match(Pieces(s, ends, i), StartOf(ends, |ends|)))
    decreases |fmt| - i
  {
    if i < |fmt| {
      GreedyMatch(fmt, s, ends, i + 1);
      MatchStep(fmt, i, s, StartOf(ends, i), ends[i]);
    }
  }

  /** The pieces are `toks` when each one is. */
  lemma {:induction false} PiecesAre(s: string, ends: seq<nat>, toks: seq<string>, i: nat)
    requires |toks| == |ends| && i <= |ends|
    requires forall k :: i <= k < |ends| ==> StartOf(ends, k) <= ends[k] <= |s| && s[StartOf(ends, k)..ends[k]] == toks[k]
    ensures Pieces(s, ends, i) == toks[i..]
    decreases |ends| - i
  {
    if i < |ends| {
      PiecesAre(s, ends, toks, i + 1);
      assert toks[i..] == [toks[i]] + toks[i + 1..];
    }
  }

  /** A cheap sufficient condition for `e` being the longest end at which `d`
      fits from `pos`: a whitespace run stops at a character that is no space,
      a number of at most two digits at its second digit or at a non-digit, and
      the others have one width only. */
  predicate StopsAt(d: Directive, s: string, pos: nat, e: nat)
    requires pos <= e <= |s|
  {
    match d
    case Whitespace => e == |s| || !IsSpace(s[e])
    case Month | Day | Hour24 | Hour12 | Minute | Second => e == pos + 2 || e == |s| || !IsDigit(s[e])
    case _ => true
  }

  lemma StopsLongest(d: Directive, s: string, pos: nat, e: nat)
    requires pos < e <= |s| && Fits(d, s[pos..e]) && StopsAt(d, s, pos, e)
    ensures forall n :: e < n <= |s| ==> !Fits(d, s[pos..n])
  {
    if d == Whitespace {
      if e < |s| {
        SpaceStops(s, pos, e);
      }
    } else {
      forall n | e < n <= |s| ensures !Fits(d, s[pos..n]) {
        assert s[pos..n][..e - pos] == s[pos..e];
        assert s[pos..n][e - pos] == s[e];
        if Fits(d, s[pos..n]) {
          FitsLength(d, s[pos..n]);
        }
      }
    }
  }

  /** Tokens that fit their directives and stop where `StopsAt` says are the
      engine's longest fits. */
  lemma {:induction false} TokensGreedy(fmt: seq<Directive>, s: string, ends: seq<nat>, toks: seq<string>, i: nat)
    requires |toks| == |ends| == |fmt| && i <= |fmt|
    requires forall k :: i <= k < |ends| ==> StartOf(ends, k) <= ends[k] <= |s| && s[StartOf(ends, k)..ends[k]] == toks[k]
    requires forall k :: i <= k < |ends| ==> Fits(fmt[k], toks[k])
    requires forall k :: i <= k < |ends| ==> StopsAt(fmt[k], s, StartOf(ends, k), ends[k])
    ensures Greedy(fmt, s, ends, i)
    decreases |fmt| - i
  {
    if i < |fmt| {
      TokensGreedy(fmt, s, ends, toks, i + 1);
      FitsNonEmpty(fmt[i], toks[i]);
      StopsLongest(fmt[i], s, StartOf(ends, i), ends[i]);
    }
  }

  /** A match read off its tokens: when the text between successive `ends` is
      `toks`, each token fits its directive and stops where `StopsAt` says, the
      engine's first match of `fmt` is exactly these tokens. */
  lemma MatchOfTokens(fmt: seq<Directive>, s: string, ends: seq<nat>, toks: seq<string>)
    requires |toks| == |ends| == |fmt|
    requires forall k :: 0 <= k < |ends| ==> StartOf(ends, k) <= ends[k] <= |s| && s[StartOf(ends, k)..ends[k]] == toks[k]
    requires forall k :: 0 <= k < |ends| ==> Fits(fmt[k], toks[k])
    requires forall k :: 0 <= k < |ends| ==> StopsAt(fmt[k], s, StartOf(ends, k), ends[k])
    ensures MatchFrom(fmt, 0, s, 0) == Some(Match(toks, StartOf(ends, |ends|)))
  {
    TokensGreedy(fmt, s, ends, toks, 0);
    GreedyMatch(fmt, s, ends, 0);
    PiecesAre(s, ends, toks, 0);
  }

  /** Token `t` of directive `d` cannot be extended into the token `next` after
      it: a whitespace run stops at a non-space, a number at a non-digit or
      after two digits. */
  predicate StopsBefore(d: Directive, t: string, next: string) {
    next == [] ||
    match d
    case Whitespace => !IsSpace(next[0])
    case Month | Day | Hour24 | Hour12 | Minute | Second => |t| == 2 || !IsDigit(next[0])
    case _ => true
  }

  lemma ConcatFrom(toks: seq<string>, i: nat)
    requires i < |toks|
    ensures Concat(toks[i..]) == toks[i] + Concat(toks[i + 1..])
  {
    assert toks[i..][1..] == toks[i + 1..];
  }

  /** A token that stops before the next one stops where `StopsAt` says. */
  lemma StopsAtNext(d: Directive, s: string, pos: nat, e: nat, next: string)
    requires pos <= e <= |s| && StopsBefore(d, s[pos..e], next)
    requires e == |s| || (next != [] && s[e] == next[0])
    ensures StopsAt(d, s, pos, e)
  {
  }

  /** A text made of tokens one after another, each fitting its directive and
      stopping before the next: from the start of `toks[i]`, the engine's
      first match of `fmt[i..]` is exactly `toks[i..]`, up to the end of the text. */
  lemma {:induction false} MatchOfConcat(fmt: seq<Directive>, toks: seq<string>, pre: string, i: nat)
    requires |toks| == |fmt| && i <= |fmt|
    requires forall k :: i <= k < |fmt| ==> Fits(fmt[k], toks[k])
    requires forall k :: i <= k < |fmt| - 1 ==> StopsBefore(fmt[k], toks[k], toks[k + 1])
    ensures MatchFrom(fmt, i, pre + Concat(toks[i..]), |pre|)
         == Some(Match(toks[i..], |pre + Concat(toks[i..])|))
    decreases |fmt| - i
  {
    if i == |fmt| {
      assert toks[i..] == [];
    } else {
      var s := pre + Concat(toks[i..]);
      var rest := Concat(toks[i + 1..]);
      ConcatFrom(toks, i);
      assert s == (pre + toks[i]) + rest;
      var e := |pre| + |toks[i]|;
      assert s[|pre|..e] == toks[i];
      MatchOfConcat(fmt, toks, pre + toks[i], i + 1);
      FitsNonEmpty(fmt[i], toks[i]);
      if i + 1 < |fmt| {
        FitsNonEmpty(fmt[i + 1], toks[i + 1]);
        ConcatFrom(toks, i + 1);
        assert s[e] == rest[0] == toks[i + 1][0];
        StopsAtNext(fmt[i], s, |pre|, e, toks[i + 1]);
      } else {
        StopsAtNext(fmt[i], s, |pre|, e, []);
      }
      StopsLongest(fmt[i], s, |pre|, e);
      MatchStep(fmt, i, s, |pre|, e);
      assert [toks[i]] + toks[i + 1..] == toks[i..];
    }
  }

  /** So strptime on such a text is what the tokens denote. */
  lemma AttemptOfConcat(fmt: seq<Directive>, toks: seq<string>)
    requires |toks| == |fmt|
    requires forall k :: 0 <= k < |fmt| ==> Fits(fmt[k], toks[k])
    requires forall k :: 0 <= k < |fmt| - 1 ==> StopsBefore(fmt[k], toks[k], toks[k + 1])
    ensures Attempt(fmt, Concat(toks)) == Assemble(fmt, toks)
  {
    MatchOfConcat(fmt, toks, [], 0);
    assert [] + Concat(toks[0..]) == Concat(toks) by {
      assert toks[0..] == toks;
    }
  }

  lemma FitsNonEmpty(d: Directive, t: string)
    requires Fits(d, t)
    ensures |t| >= 1
  {
  }

  /** A directive that fits no text at `pos` makes the match fail there. */
  lemma MatchNoFit(fmt: seq<Directive>, i: nat, s: string, pos: nat)
    requires i < |fmt| && pos <= |s|
    requires forall n :: pos < n <= |s| ==> !Fits(fmt[i], s[pos..n])
    ensures MatchFrom(fmt, i, s, pos) == None
  {
    var cs := Candidates(fmt[i], s, pos);
    assert |cs| == 0;
  }

  /** A format that begins with `%Y` or `%m` rejects a text that does not
      begin with a digit. */
  lemma DigitFirst(fmt: seq<Directive>, s: string)
    requires |fmt| > 0 && (fmt[0] == Year || fmt[0] == Month)
    requires s == [] || !IsDigit(s[0])
    ensures Attempt(fmt, s).None?
  {
    forall n | 0 < n <= |s| ensures !Fits(fmt[0], s[0..n]) {
      assert s[0..n][0] == s[0];
    }
    MatchNoFit(fmt, 0, s, 0);
  }

  /** A run of whitespace cannot extend past a character that is not one. */
  lemma SpaceStops(s: string, pos: nat, k: nat)
    requires pos <= k < |s| && !IsSpace(s[k])
    ensures forall n :: k < n <= |s| ==> !Fits(Whitespace, s[pos..n])
  {
    forall n | k < n <= |s| ensures !Fits(Whitespace, s[pos..n]) {
      assert s[pos..n][k - pos] == s[k];
    }
  }

  lemma FieldAt(fmt: seq<Directive>, toks: seq<string>, d: Directive, k: nat)
    requires |fmt| == |toks| && k < |fmt| && fmt[k] == d && d !in fmt[..k]
    ensures FieldText(fmt, toks, d) == Some(toks[k])
  {
    var j := k;
    while j > 0
      invariant 0 <= j <= k
      invariant FieldFrom(fmt, toks, d, j) == Some(toks[k])
    {
      assert fmt[j - 1] in fmt[..k];
      j := j - 1;
    }
  }

  lemma FieldAbsent(fmt: seq<Directive>, toks: seq<string>, d: Directive)
    requires |fmt| == |toks| && d !in fmt
    ensures FieldText(fmt, toks, d) == None
  {
    var j := |fmt|;
    while j > 0
      invariant 0 <= j <= |fmt|
      invariant FieldFrom(fmt, toks, d, j) == None
    {
      j := j - 1;
    }
  }

  lemma NumberOne(t: string)
    requires |t| == 1 && IsDigit(t[0])
    ensures Number(t) == DigitValue(t[0])
  {
    assert t[..0] == [];
  }

  lemma NumberTwo(t: string)
    requires |t| == 2 && IsDigit(t[0]) && IsDigit(t[1])
    ensures Number(t) == 10 * DigitValue(t[0]) + DigitValue(t[1])
  {
    NumberOne(t[..1]);
  }

  lemma NumberFour(t: string)
    requires |t| == 4 && IsDigit(t[0]) && IsDigit(t[1]) && IsDigit(t[2]) && IsDigit(t[3])
    ensures Number(t) == 1000 * DigitValue(t[0]) + 100 * DigitValue(t[1]) + 10 * DigitValue(t[2]) + DigitValue(t[3])
  {
    NumberTwo(t[..2]);
    assert t[..3][..2] == t[..2];
    assert Number(t[..3]) == 10 * Number(t[..2]) + DigitValue(t[2]);
  }

  /** The value of a numeric token: what `int()` makes of it. */
  lemma NumberOfFit(d: Directive, t: string)
    requires Fits(d, t) && d in {Month, Day, Hour24, Hour12, Minute, Second}
    ensures |t| == 1 ==> Number(t) == DigitValue(t[0])
    ensures |t| == 2 && t[0] != ' ' ==> Number(t) == 10 * DigitValue(t[0]) + DigitValue(t[1])
    ensures |t| == 2 && t[0] == ' ' ==> Number(t) == DigitValue(t[1])
  {
    if |t| == 1 {
      NumberOne(t);
    } else if t[0] == ' ' {
      NumberOne(t[1..]);
    } else {
      NumberTwo(t);
    }
  }

  // ---------------------------------------------------------------------------
  // Separators: the characters only literals of the format can account for

  function CountChar(c: char, t: string): nat {
    if t == [] then 0 else (if t[0] == c then 1 else 0) + CountChar(c, t[1..])
  }

  /** How many literal `c` the directives `fmt[i..]` hold. */
  function LiteralCount(c: char, fmt: seq<Directive>, i: nat): nat
    requires i <= |fmt|
    decreases |fmt| - i
  {
    if i == |fmt| then 0 else (if fmt[i] == Literal(c) then 1 else 0) + LiteralCount(c, fmt, i + 1)
  }

  /** Characters that no digit, whitespace or AM/PM token contains. */
  predicate IsSeparator(c: char) {
    c == '-' || c == '/' || c == ':'
  }

  lemma {:induction false} CountAppend(c: char, a: string, b: string)
    ensures CountChar(c, a + b) == CountChar(c, a) + CountChar(c, b)
  {
    if a != [] {
      assert (a + b)[1..] == a[1..] + b;
      CountAppend(c, a[1..], b);
    } else {
      assert a + b == b;
    }
  }

  lemma {:induction false} CountAbsent(c: char, t: string)
    requires forall k :: 0 <= k < |t| ==> t[k] != c
    ensures CountChar(c, t) == 0
  {
    if t != [] {
      assert forall k :: 0 <= k < |t[1..]| ==> t[1..][k] == t[k + 1];
      CountAbsent(c, t[1..]);
    }
  }

  lemma FitsCount(d: Directive, t: string, c: char)
    requires Fits(d, t) && IsSeparator(c)
    ensures CountChar(c, t) == if d == Literal(c) then 1 else 0
  {
    if d.Literal? {
      assert t[1..] == [];
    } else {
      forall k | 0 <= k < |t| ensures t[k] != c {
        if d != Whitespace {
          FitsLength(d, t);
        }
      }
      CountAbsent(c, t);
    }
  }

  lemma {:induction false} TokensCount(fmt: seq<Directive>, i: nat, toks: seq<string>, c: char)
    requires i <= |fmt| && |toks| == |fmt| - i && IsSeparator(c)
    requires forall k :: 0 <= k < |toks| ==> Fits(fmt[i + k], toks[k])
    ensures CountChar(c, Concat(toks)) == LiteralCount(c, fmt, i)
    decreases |toks|
  {
    if toks != [] {
      CountAppend(c, toks[0], Concat(toks[1..]));
      FitsCount(fmt[i], toks[0], c);
      assert forall k :: 0 <= k < |toks[1..]| ==> fmt[(i + 1) + k] == fmt[i + (k + 1)] && toks[1..][k] == toks[k + 1];
      TokensCount(fmt, i + 1, toks[1..], c);
    }
  }

  /** A text strptime accepts holds exactly as many of each separator as the
      format's literals: the numeric, whitespace and AM/PM fields never
      contain one. */
  lemma AcceptedSeparators(fmt: seq<Directive>, s: string, c: char)
    requires Attempt(fmt, s).Some? && IsSeparator(c)
    ensures CountChar(c, s) == LiteralCount(c, fmt, 0)
  {
    MatchFromShape(fmt, 0, s, 0);
    var m := MatchFrom(fmt, 0, s, 0).value;
    assert s[0..m.end] == s;
    TokensCount(fmt, 0, m.tokens, c);
  }
}

/** The exact-pattern detector `simpleDate` and the three signal scanners
    `maybeYears`, `maybeMonths` and `maybeDays` of dateFinder.php. */
module Scanners {
  import opened Text
  import opened Calendar
  import opened Patterns
  import opened DateState

  // ---------------------------------------------------------------------------
  // simpleDate
  // ---------------------------------------------------------------------------

  /** `array_search(strtolower($text), $names) + 1`, where PHP's `false + 1` is 1. */
  function MonthNumber(names: seq<string>, text: string): int {
    match ArraySearch(names, LowerStr(text))
    case Some(i) => i + 1
    case None => 1
  }

  /** The `DayMonthYear` match at `p` reads as day `day`, month `month` and
      year `year`: the number before the month name, the name's place in the
      calendar, and the four digits after it. */
  predicate SimpleDateReads(s: string, p: nat, day: int, month: int, year: int) {
    && SimpleDateAt(s, p).Some?
    && (SimpleDateAtShape(s, p);
        var g := SimpleDateAt(s, p).value.groups;
        && 1 <= month <= 12 && LowerStr(g[4]) == LongMonthNames[month - 1]
        && day == DigitsValue(g[1]) && year == DigitsValue(g[6]))
  }

  /** Two long month names that are equal are the same month. */
  lemma LongNamesDistinct(i: nat, j: nat)
    requires i < 12 && j < 12 && LongMonthNames[i] == LongMonthNames[j]
    ensures i == j
  {
    MonthPrefixesDistinct(i, j);
  }

  /** `simpleDate`: the leftmost `DayMonthYear` match, accepted when
      `checkdate` holds for what it reads; a rejected leftmost match is not
      followed by a search for a later one. */
  function SimpleDate(s: string): (r: Option<ParsedDate>)
    ensures r.Some? ==> ValidDate(r.value)
    ensures r.Some? ==>
      && Leftmost(DayMonthYear, s, 0).Some?
      && SimpleDateReads(s, Leftmost(DayMonthYear, s, 0).value, r.value.day.value, r.value.month.value, r.value.year.value)
    ensures r.None? ==>
      || Leftmost(DayMonthYear, s, 0).None?
      || forall d, m, y :: SimpleDateReads(s, Leftmost(DayMonthYear, s, 0).value, d, m, y) ==> !CheckDate(m, d, y)
  {
    match FirstMatch(DayMonthYear, s)
    case None => None
    case Some(g) =>
      var month := MonthNumber(LongMonthNames, g.groups[4]);
      var day := IntCast(g.groups[1]);
      var year := IntCast(g.groups[6]);
      SimpleReading(s, Leftmost(DayMonthYear, s, 0).value);
      if CheckDate(month, day, year) then Some(ParsedDate(Some(year), Some(month), Some(day), false))
      else None
  }

  /** The values `simpleDate` computes from a match are its only reading. */
  lemma SimpleReading(s: string, p: nat)
    requires SimpleDateAt(s, p).Some?
    ensures var g := SimpleDateAt(s, p).value.groups;
      SimpleDateReads(s, p, IntCast(g[1]), MonthNumber(LongMonthNames, g[4]), IntCast(g[6]))
    ensures var g := SimpleDateAt(s, p).value.groups;
      forall d, m, y :: SimpleDateReads(s, p, d, m, y) ==>
        d == IntCast(g[1]) && m == MonthNumber(LongMonthNames, g[4]) && y == IntCast(g[6])
  {
    var g := SimpleDateAt(s, p).value.groups;
    SimpleDateAtShape(s, p);
    DigitsCast(g[1]);
    DigitsCast(g[6]);
    var i := ArraySearch(LongMonthNames, LowerStr(g[4])).value;
    forall d, m, y | SimpleDateReads(s, p, d, m, y)
      ensures m == i + 1
    {
      LongNamesDistinct(m - 1, i);
    }
  }

  /** A `SimpleDate` present at `p`, cut at `c` and with its year at `t`,
      reads as the day its digits spell, the month it names and the year
      its four digits spell. */
  lemma SimpleDateFoundReads(s: string, p: nat, c: Cuts, t: nat)
    requires SimpleDateHeadFits(s, p, c)
    requires c.m < t <= |s| && forall j :: c.m <= j < t ==> !IsAlnum(s[j])
    requires t + 4 <= |s| && AllDigits(s[t..t + 4])
    ensures p < c.q <= |s|
    ensures SimpleDateReads(s, p, DigitsValue(s[p..c.q]), c.name + 1, DigitsValue(s[t..t + 4]))
  {
    SimpleDateFound(s, p, c, t);
    SimpleDateHeadReads(s, p, c);
  }

  /** A leftmost match that reads as a valid date is `simpleDate`'s answer. */
  lemma SimpleDateAnswer(s: string, p: nat, d: int, m: int, y: int)
    requires Leftmost(DayMonthYear, s, 0) == Some(p)
    requires SimpleDateReads(s, p, d, m, y) && CheckDate(m, d, y)
    ensures SimpleDate(s) == Some(ParsedDate(Some(y), Some(m), Some(d), false))
  {
    SimpleReading(s, p);
  }

  // ---------------------------------------------------------------------------
  // maybeYears
  // ---------------------------------------------------------------------------

  /** The year string for an apostrophe abbreviation, as the source builds it:
      "190" or "19" followed by the two digits. */
  function ExpandYear(two: string): string {
    if 0 <= IntCast(two) <= 9 then "190" + two else "19" + two
  }

  /** The number that expansion spells: `'63` is 1963, but `'08` is 19008
      because the prefix "190" is glued to both digits. */
  function ApostropheYearValue(n: nat): nat {
    if n <= 9 then 19000 + n else 1900 + n
  }

  lemma ExpandYearValue(two: string)
    requires |two| == 2 && AllDigits(two)
    ensures Truthy(ExpandYear(two))
    ensures IntCast(ExpandYear(two)) == ApostropheYearValue(DigitsValue(two))
  {
    DigitsCast(two);
    var n := DigitsValue(two);
    var prefix := if n <= 9 then "190" else "19";
    assert ExpandYear(two) == prefix + two;
    PrefixValue(prefix, n <= 9);
    DigitsValueAppend(prefix, two);
    DigitsCast(prefix + two);
    assert Pow10(2) == 100;
  }

  lemma PrefixValue(prefix: string, short: bool)
    requires prefix == if short then "190" else "19"
    ensures AllDigits(prefix)
    ensures DigitsValue(prefix) == if short then 190 else 19
  {
    assert "19"[..1] == "1" && "1"[..0] == "";
    if short {
      assert "190"[..2] == "19";
    }
  }

  lemma YearFacts(s: string)
    ensures var four := FirstMatch(FullYear, s);
      four.Some? ==> (|four.value.groups| == 2 && Truthy(four.value.groups[1])
        && IntCast(four.value.groups[1]) == DigitsValue(s[Leftmost(FullYear, s, 0).value..Leftmost(FullYear, s, 0).value + 4]))
    ensures var t := DecodeQuotes(s);
      var abbr := FirstMatch(ApostropheYear, t);
      abbr.Some? ==> (|abbr.value.groups| == 2 && Truthy(ExpandYear(abbr.value.groups[1]))
        && IntCast(ExpandYear(abbr.value.groups[1])) ==
           ApostropheYearValue(DigitsValue(t[Leftmost(ApostropheYear, t, 0).value + 2..Leftmost(ApostropheYear, t, 0).value + 4])))
  {
    var four := FirstMatch(FullYear, s);
    if four.Some? {
      DigitsCast(four.value.groups[1]);
    }
    var abbr := FirstMatch(ApostropheYear, DecodeQuotes(s));
    if abbr.Some? {
      ExpandYearValue(abbr.value.groups[1]);
    }
  }

  /** A text with neither quotes nor entities holds no apostrophe year. */
  lemma NoApostropheYear(s: string)
    requires '&' !in s && '\'' !in s
    ensures Leftmost(ApostropheYear, DecodeQuotes(s), 0).None?
  {
    DecodePlain(s);
    forall q | 0 <= q < |s|
      ensures MatchAt(ApostropheYear, s, q).None?
    {
      if q + 1 < |s| {
        assert s[q + 1] in s;
      }
    }
  }

  /** `maybeYears`: the first stand-alone four-digit number is the year, but
      the first two-digit apostrophe abbreviation after white space (looked
      for in the quote-decoded string) overrides it. */
  function MaybeYears(s: string, st: State): (r: State)
    ensures
      var four := Leftmost(FullYear, s, 0);
      var t := DecodeQuotes(s);
      var abbr := Leftmost(ApostropheYear, t, 0);
      && (r.years <==> four.Some? || abbr.Some?)
      && (abbr.Some? ==> r.date.year == Some(ApostropheYearValue(DigitsValue(t[abbr.value + 2..abbr.value + 4]))))
      && (abbr.None? && four.Some? ==> r.date.year == Some(DigitsValue(s[four.value..four.value + 4])))
      && (!r.years ==> r.date == st.date)
    ensures r.date.(year := st.date.year) == st.date && r.months == st.months && r.days == st.days
  {
    var four := FirstMatch(FullYear, s);
    var abbr := FirstMatch(ApostropheYear, DecodeQuotes(s));
    var year: Option<string> := if four.Some? then Some(four.value.groups[1]) else None;
    var year': Option<string> := if abbr.Some? then Some(ExpandYear(abbr.value.groups[1])) else year;
    YearFacts(s);
    if year'.Some? && Truthy(year'.value) then
      st.(date := st.date.(year := Some(IntCast(year'.value))), years := true)
    else
      st.(years := false)
  }

  // ---------------------------------------------------------------------------
  // maybeMonths
  // ---------------------------------------------------------------------------

  /** The `array_search` place of the name matched first by `pat`, when
      there is a match. */
  function MonthIndex(s: string, pat: Pattern, names: seq<string>): (k: Option<nat>)
    requires (pat == FullMonthWord && names == LongMonthNames) || (pat == ShortMonthWord && names == ShortMonthNames)
    ensures k.Some? <==> Leftmost(pat, s, 0).Some?
    ensures k.Some? ==> k.value < 12 && MatchesCI(s, Leftmost(pat, s, 0).value, names[k.value])
  {
    match FirstMatch(pat, s)
    case None => None
    case Some(g) =>
      MonthWordFacts(s, pat, names);
      ArraySearch(names, LowerStr(g.groups[1]))
  }

  /** Records the month named by the first match of `pat` (a word-bounded
      list of `names`), when `array_search` finds it. */
  function RecordMonth(s: string, st: State, pat: Pattern, names: seq<string>): (r: State)
    requires (pat == FullMonthWord && names == LongMonthNames) || (pat == ShortMonthWord && names == ShortMonthNames)
    ensures var a := Leftmost(pat, s, 0);
      && (a.Some? ==>
            r.months && r.date.month.Some? && 1 <= r.date.month.value <= 12
            && MatchesCI(s, a.value, names[r.date.month.value - 1]))
      && (a.None? ==> r == st)
    ensures r.date.(month := st.date.month) == st.date && r.years == st.years && r.days == st.days
  {
    match MonthIndex(s, pat, names)
    case None => st
    case Some(k) => st.(date := st.date.(month := Some(k + 1)), months := true)
  }

  /** The first word-bounded month match is found by `array_search`, and the
      name found matches at the match position. */
  lemma MonthWordFacts(s: string, pat: Pattern, names: seq<string>)
    requires (pat == FullMonthWord && names == LongMonthNames) || (pat == ShortMonthWord && names == ShortMonthNames)
    requires Leftmost(pat, s, 0).Some?
    ensures var g := FirstMatch(pat, s).value;
      && |g.groups| == 2
      && var k := ArraySearch(names, LowerStr(g.groups[1]));
      && k.Some? && k.value < 12
      && MatchesCI(s, Leftmost(pat, s, 0).value, names[k.value])
  {
    var p := Leftmost(pat, s, 0).value;
    assert MatchAt(pat, s, p) == NameAt(s, p, names, true);
    NameAtReads(s, p, names, true);
    var i := FirstName(s, p, names, 0, true).value;
    var k := ArraySearch(names, names[i]).value;
    assert names[k] == names[i];
  }

  /** `maybeMonths`: the first word-bounded full month name gives the month,
      and the first word-bounded three-letter abbreviation, when there is
      one, overwrites it. */
  function MaybeMonths(s: string, st: State): (r: State)
    ensures
      var full := Leftmost(FullMonthWord, s, 0);
      var short := Leftmost(ShortMonthWord, s, 0);
      && (r.months <==> full.Some? || short.Some?)
      && (short.Some? ==>
            r.date.month.Some? && 1 <= r.date.month.value <= 12
            && MatchesCI(s, short.value, ShortMonthNames[r.date.month.value - 1]))
      && (short.None? && full.Some? ==>
            r.date.month.Some? && 1 <= r.date.month.value <= 12
            && MatchesCI(s, full.value, LongMonthNames[r.date.month.value - 1]))
      && (!r.months ==> r.date == st.date)
    ensures r.date.(month := st.date.month) == st.date && r.years == st.years && r.days == st.days
  {
    var st1 := st.(months := false);
    var st2 := RecordMonth(s, st1, FullMonthWord, LongMonthNames);
    RecordMonth(s, st2, ShortMonthWord, ShortMonthNames)
  }

  /** A text without word-bounded month names sets no month. */
  lemma NoMonthWord(s: string, st: State)
    requires Leftmost(FullMonthWord, s, 0).None? && Leftmost(ShortMonthWord, s, 0).None?
    ensures MaybeMonths(s, st) == st.(months := false)
  {
  }

  // ---------------------------------------------------------------------------
  // maybeDays
  // ---------------------------------------------------------------------------

  /** The number written by the day-number match at `p`. */
  function TokenValue(s: string, p: nat): nat
    requires DayNumberAt(s, p).Some?
  {
    DigitsValue(DayNumberAt(s, p).value.groups[1])
  }

  /** A day-number match at `p` whose number is a possible day of the month. */
  predicate DayCandidate(s: string, p: nat) {
    DayNumberAt(s, p).Some? && 1 <= TokenValue(s, p) <= 31
  }

  /** The integer cast of the day-number token at `p`, if there is one. */
  function CastDayAt(s: string, p: nat): (v: Option<int>)
    ensures v.Some? <==> DayNumberAt(s, p).Some?
    ensures v.Some? ==> v.value == TokenValue(s, p)
  {
    match DayNumberAt(s, p)
    case None => None
    case Some(g) =>
      DigitsCast(g.groups[1]);
      Some(IntCast(g.groups[1]))
  }

  /** Whether each position of `s` starts a day-number token whose cast lies
      in 1..31. */
  function DayHits(s: string): (h: seq<bool>)
    ensures |h| == |s|
    ensures forall q :: 0 <= q < |s| ==> h[q] == DayCandidate(s, q)
  {
    seq(|s|, q requires 0 <= q < |s| => var v := CastDayAt(s, q); v.Some? && 1 <= v.value <= 31)
  }

  /** The first day-number match whose value, cast to an integer, lies in
      1..31; other matches are skipped. */
  function FirstDay(s: string): (r: Option<nat>)
    ensures r.Some? ==> r.value < |s| && DayCandidate(s, r.value)
    ensures r.Some? ==> forall q :: 0 <= q < r.value ==> !DayCandidate(s, q)
    ensures r.None? ==> forall q :: 0 <= q < |s| ==> !DayCandidate(s, q)
  {
    FirstHit(DayHits(s), 0)
  }

  /** `maybeDays`: the first day-number token worth 1..31 is the day. */
  function MaybeDays(s: string, st: State): (r: State)
    ensures r.days <==> exists p :: 0 <= p < |s| && DayCandidate(s, p)
    ensures r.days ==> exists p :: 0 <= p < |s| && DayCandidate(s, p) && r.date.day == Some(TokenValue(s, p))
                                   && forall q :: 0 <= q < p ==> !DayCandidate(s, q)
    ensures r.days ==> r.date.day.Some? && 1 <= r.date.day.value <= 31
    ensures !r.days ==> r.date == st.date
    ensures r.date.(day := st.date.day) == st.date && r.years == st.years && r.months == st.months
  {
    match FirstDay(s)
    case None => st.(days := false)
    case Some(p) =>
      var g := DayNumberAt(s, p).value;
      DigitsCast(g.groups[1]);
      st.(date := st.date.(day := Some(IntCast(g.groups[1]))), days := true)
  }

  /** The first day candidate gives the day. */
  lemma FirstCandidateDay(s: string, p: nat, st: State)
    requires p < |s| && DayCandidate(s, p)
    requires forall q :: 0 <= q < p ==> !DayCandidate(s, q)
    ensures MaybeDays(s, st) == st.(date := st.date.(day := Some(TokenValue(s, p))), days := true)
  {
    var f := FirstDay(s);
    assert f == Some(p);
    DigitsCast(DayNumberAt(s, p).value.groups[1]);
  }

  /** A text without day-number tokens sets no day. */
  lemma NoDayNumber(s: string, st: State)
    requires Leftmost(DayNumber, s, 0).None?
    ensures MaybeDays(s, st) == st.(days := false)
  {
    forall p | 0 <= p < |s|
      ensures !DayCandidate(s, p)
    {
      assert MatchAt(DayNumber, s, p) == DayNumberAt(s, p);
    }
    NoDayCandidate(s, st);
  }

  /** A text whose day-number tokens all lie outside 1..31 sets no day. */
  lemma NoDayCandidate(s: string, st: State)
    requires forall p :: 0 <= p < |s| ==> !DayCandidate(s, p)
    ensures MaybeDays(s, st) == st.(days := false)
  {
    assert FirstDay(s).None?;
  }

  /** The three scanners in source order, starting from an empty array. */
  function Scan(s: string): State {
    MaybeDays(s, MaybeMonths(s, MaybeYears(s, State(NoDate, false, false, false))))
  }
}

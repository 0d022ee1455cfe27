/** `fuzzyLogic` of dateFinder.php: the last resort of `findDate`, trying
    `date_parse`, then `strtotime`, then a reassembly of a month
    abbreviation, an ordinal day and a four-digit year found anywhere. */
module Fuzzy {
  import opened Text
  import opened Calendar
  import opened Patterns
  import opened DateState
  import opened Scanners

  /** `date_parse`'s answer is taken: no errors, no warnings, and a truthy
      month and day. */
  predicate ParseAccepted(dp: DateParse) {
    dp.errorCount == 0 && dp.warningCount == 0 && IntTruthy(dp.month) && IntTruthy(dp.day)
  }

  /** Element 0 of `getdate(strtotime(...))`: a failed `strtotime` gives
      `getdate(false)`, the epoch, whose timestamp 0 is falsy. */
  function Seconds(t: Option<Stamp>): int {
    if t.Some? then t.value.seconds else 0
  }

  /** When the `strtotime` tier replaces the day by 1: the text named no day
      and the timestamp fell on the 1st, or it named a month but neither a
      day nor a year. */
  predicate FirstOfMonth(st: State, mday: int) {
    (!st.days && mday == 1) || (st.months && !st.days && !st.years)
  }

  // ---------------------------------------------------------------------------
  // Manual reassembly
  // ---------------------------------------------------------------------------

  /** Month `m` is the one abbreviated by the leftmost three-letter month
      abbreviation anywhere in `s` (inside words too). */
  predicate ManualMonth(s: string, m: int) {
    && Leftmost(ShortMonthAnywhere, s, 0).Some?
    && 1 <= m <= 12 && MatchesCI(s, Leftmost(ShortMonthAnywhere, s, 0).value, ShortMonthNames[m - 1])
  }

  /** `d` is the number in front of the leftmost `st`/`nd`/`rd`/`th`. */
  predicate ManualDay(s: string, d: int) {
    && Leftmost(OrdinalDay, s, 0).Some?
    && OrdinalDayAt(s, Leftmost(OrdinalDay, s, 0).value).Some?
    && d == DigitsValue(OrdinalDayAt(s, Leftmost(OrdinalDay, s, 0).value).value.groups[1])
  }

  /** `y` is the value of the leftmost run of four digits. */
  predicate ManualYear(s: string, y: int) {
    && Leftmost(FourDigits, s, 0).Some?
    && var p := Leftmost(FourDigits, s, 0).value;
    && p + 4 <= |s| && AllDigits(s[p..p + 4]) && y == DigitsValue(s[p..p + 4])
  }

  predicate ManualReading(s: string, m: int, d: int, y: int) {
    ManualMonth(s, m) && ManualDay(s, d) && ManualYear(s, y)
  }

  /** The month the source reads: the `array_search` place of the first
      abbreviation plus one, or 0 (falsy) when there is none. */
  function ManualMonthValue(s: string): (m: int)
    ensures m == 0 ==> forall k :: !ManualMonth(s, k)
    ensures m != 0 ==> ManualMonth(s, m) && forall k :: ManualMonth(s, k) ==> k == m
  {
    var mm := FirstMatch(ShortMonthAnywhere, s);
    if mm.Some? then
      ManualMonthFacts(s);
      if Truthy(mm.value.groups[0]) then MonthNumber(ShortMonthNames, mm.value.groups[0]) else 0
    else 0
  }

  /** The day the source reads: the digits before the first ordinal suffix,
      or nothing when they are missing or falsy ("0"). */
  function ManualDayValue(s: string): (d: Option<int>)
    ensures d.Some? ==> ManualDay(s, d.value) && forall k :: ManualDay(s, k) ==> k == d.value
    ensures d.None? ==> forall k :: ManualDay(s, k) ==> k == 0
  {
    var dm := FirstMatch(OrdinalDay, s);
    if dm.Some? then
      ManualDayFacts(s);
      if Truthy(dm.value.groups[1]) then Some(IntCast(dm.value.groups[1])) else None
    else None
  }

  /** The year the source reads: the first four digits, or nothing. */
  function ManualYearValue(s: string): (y: Option<int>)
    ensures y.Some? ==> ManualYear(s, y.value) && forall k :: ManualYear(s, k) ==> k == y.value
    ensures y.None? ==> forall k :: !ManualYear(s, k)
  {
    var ym := FirstMatch(FourDigits, s);
    if ym.Some? then
      ManualYearFacts(s);
      if Truthy(ym.value.groups[0]) then Some(IntCast(ym.value.groups[0])) else None
    else None
  }

  /** The third tier: the month from the first abbreviation, the day from the
      first ordinal and the year from the first four digits, all three
      needed and together a real date; other keys of `parsedDate` stay. */
  function Reassemble(s: string, st: State): (r: Option<ParsedDate>)
    ensures r.Some? <==> exists m, d, y :: ManualReading(s, m, d, y) && CheckDate(m, d, y)
    ensures r.Some? ==>
      && r.value.year.Some? && r.value.month.Some? && r.value.day.Some?
      && ManualReading(s, r.value.month.value, r.value.day.value, r.value.year.value)
      && CheckDate(r.value.month.value, r.value.day.value, r.value.year.value)
      && r.value.range == st.date.range
  {
    var month, day, year := ManualMonthValue(s), ManualDayValue(s), ManualYearValue(s);
    if year.Some? && month != 0 && day.Some? && CheckDate(month, day.value, year.value) then
      Some(st.date.(year := Some(year.value), month := Some(month), day := Some(day.value)))
    else None
  }

  lemma ManualMonthFacts(s: string)
    requires Leftmost(ShortMonthAnywhere, s, 0).Some?
    ensures var g := FirstMatch(ShortMonthAnywhere, s).value.groups[0];
      && Truthy(g) && ManualMonth(s, MonthNumber(ShortMonthNames, g))
      && forall m :: ManualMonth(s, m) ==> m == MonthNumber(ShortMonthNames, g)
  {
    var p := Leftmost(ShortMonthAnywhere, s, 0).value;
    assert MatchAt(ShortMonthAnywhere, s, p) == NameAt(s, p, ShortMonthNames, false);
    NameAtReads(s, p, ShortMonthNames, false);
    var i := FirstName(s, p, ShortMonthNames, 0, false).value;
    var g := NameAt(s, p, ShortMonthNames, false).value.groups[0];
    assert FirstMatch(ShortMonthAnywhere, s).value.groups[0] == g;
    AbbreviationNumber(g, i);
    assert MatchesCI(s, p, ShortMonthNames[i]);
    assert ManualMonth(s, i + 1);
    forall m | ManualMonth(s, m) ensures m == i + 1 {
      assert MatchesCI(s, p, ShortMonthNames[m - 1]);
    }
  }

  /** `array_search` places a lower-cased abbreviation at its month. */
  lemma AbbreviationNumber(t: string, i: nat)
    requires i < 12 && LowerStr(t) == ShortMonthNames[i]
    ensures Truthy(t) && MonthNumber(ShortMonthNames, t) == i + 1
  {
    MonthPrefix(ShortMonthNames, i);
    assert |t| >= 3;
    var x := ShortMonthNames[i];
    assert x in ShortMonthNames;
    var k := ArraySearch(ShortMonthNames, x).value;
    ShortNamesDistinct(k, i);
  }

  lemma ManualDayFacts(s: string)
    ensures var dm := FirstMatch(OrdinalDay, s);
      dm.Some? ==>
        && ManualDay(s, DigitsValue(dm.value.groups[1]))
        && IntCast(dm.value.groups[1]) == DigitsValue(dm.value.groups[1])
        && (Truthy(dm.value.groups[1]) || DigitsValue(dm.value.groups[1]) == 0)
  {
    var pd := Leftmost(OrdinalDay, s, 0);
    if pd.Some? {
      assert MatchAt(OrdinalDay, s, pd.value) == OrdinalDayAt(s, pd.value);
      var g := OrdinalDayAt(s, pd.value).value;
      DigitsCast(g.groups[1]);
    }
  }

  lemma ManualYearFacts(s: string)
    ensures var ym := FirstMatch(FourDigits, s);
      ym.Some? ==> Truthy(ym.value.groups[0]) && ManualYear(s, IntCast(ym.value.groups[0]))
  {
    var py := Leftmost(FourDigits, s, 0);
    if py.Some? {
      var p := py.value;
      assert MatchAt(FourDigits, s, p) == FourDigitsAt(s, p);
      DigitsCast(s[p..p + 4]);
    }
  }

  /** Two equal abbreviations are the same month. */
  lemma ShortNamesDistinct(i: nat, j: nat)
    requires i < 12 && j < 12 && ShortMonthNames[i][..3] == ShortMonthNames[j][..3]
    ensures i == j
  {
    MonthPrefix(ShortMonthNames, i);
    MonthPrefix(ShortMonthNames, j);
    MonthPrefixesDistinct(i, j);
  }

  // ---------------------------------------------------------------------------
  // fuzzyLogic
  // ---------------------------------------------------------------------------

  /** `fuzzyLogic`, with `findDate`'s `return false` folded in as `NotFound`.
      The `strtotime` tier does not fall through to the reassembly when its
      `checkdate` fails; only a zero timestamp does. */
  function FuzzyLogic(s: string, env: Env, st: State): (r: Outcome)
    ensures r.stage in {FromDateParse, FromTimestamp, FromManual, NotFound}
    ensures r.result.None? <==> r.stage == NotFound
    ensures r.stage == FromDateParse <==> ParseAccepted(env.dateParse)
    ensures r.stage == FromDateParse ==>
      var d, dp := r.result.value, env.dateParse;
      && d.month == dp.month && d.day == dp.day
      && d.year == Some(if IntTruthy(dp.year) then dp.year.value else env.todayYear)
      && (d.range <==> st.date.range || (!st.days && d.day == Some(1)))
    ensures r.stage == FromTimestamp <==>
      && !ParseAccepted(env.dateParse) && Seconds(env.strtotime) != 0
      && CheckDate(env.strtotime.value.mon, env.strtotime.value.mday, env.strtotime.value.year)
    ensures r.stage == FromTimestamp ==>
      var d, t := r.result.value, env.strtotime.value;
      && d.year == Some(t.year) && d.month == Some(t.mon)
      && d.day == Some(if FirstOfMonth(st, t.mday) then 1 else t.mday)
      && d.range == st.date.range
      && CheckDate(d.month.value, d.day.value, d.year.value)
    ensures r.stage == FromManual <==>
      && !ParseAccepted(env.dateParse) && Seconds(env.strtotime) == 0
      && exists m, d, y :: ManualReading(s, m, d, y) && CheckDate(m, d, y)
    ensures r.stage == FromManual ==>
      var d := r.result.value;
      && d.year.Some? && d.month.Some? && d.day.Some? && d.range == st.date.range
      && ManualReading(s, d.month.value, d.day.value, d.year.value)
      && CheckDate(d.month.value, d.day.value, d.year.value)
  {
    var dp := env.dateParse;
    if ParseAccepted(dp) then
      var date := st.date.(year := Some(if IntTruthy(dp.year) then dp.year.value else env.todayYear),
                           month := dp.month, day := dp.day);
      var date' := if !st.days && date.day == Some(1) then date.(range := true) else date;
      Outcome(Some(date'), FromDateParse)
    else if Seconds(env.strtotime) != 0 then
      var t := env.strtotime.value;
      if CheckDate(t.mon, t.mday, t.year) then
        var date := st.date.(year := Some(t.year), month := Some(t.mon), day := Some(t.mday));
        var date' := if FirstOfMonth(st, t.mday) then date.(day := Some(1)) else date;
        Outcome(Some(date'), FromTimestamp)
      else Outcome(None, NotFound)
    else
      match Reassemble(s, st)
      case Some(date) => Outcome(Some(date), FromManual)
      case None => Outcome(None, NotFound)
  }
}

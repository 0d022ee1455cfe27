/** `findDate` of dateFinder.php: the stages in source order, and what the
    whole pipeline promises. */
module DateFinder {
  import opened Text
  import opened Calendar
  import opened Patterns
  import opened DateState
  import opened Scanners
  import opened FixedFormats
  import opened Fuzzy

  /** `parsedDate` as the two fixed-format checks leave it when both fail:
      emptied if either split gave three pieces, untouched otherwise. */
  function AfterChecks(s: string, st: State): ParsedDate {
    if Splits(s, US) || Splits(s, UK) then NoDate else st.date
  }

  /** `<pre> && checkUSFQD() === false && checkUKFQD() === false` under PHP's
      short-circuit evaluation: the checks run only when the flag test `pre`
      holds, the UK check only when the US one fails, and each may empty
      `parsedDate` on the way. */
  function Guard(s: string, st: State, pre: bool): (r: Step)
    ensures r.ok <==> pre && !Accepts(s, US) && !Accepts(s, UK)
    ensures !pre ==> r.state == st
    ensures r.ok ==> r.state.date == AfterChecks(s, st)
    ensures AfterChecks(s, r.state) == AfterChecks(s, st)
    ensures r.state.date.range ==> st.date.range
    ensures r.state.years == st.years && r.state.months == st.months && r.state.days == st.days
  {
    if !pre then Step(false, st)
    else
      var us := CheckFixed(s, st, US);
      if us.ok then Step(false, us.state)
      else
        var uk := CheckFixed(s, us.state, UK);
        Step(!uk.ok, uk.state)
  }

  /** `findDate`, reporting also which stage answered. */
  function Run(s: string, env: Env): (r: Outcome)
    ensures r.result.None? <==> r.stage == NotFound
  {
    var simple := SimpleDate(s);
    if simple.Some? then Outcome(simple, Simple) else Branches(s, env, Scan(s))
  }

  /** The four granularity branches of `findDate`, each a flag test followed
      by both fixed-format checks failing, then `Finish`. A branch answers
      from `parsedDate` as the checks left it. */
  function Branches(s: string, env: Env, st0: State): (r: Outcome)
    ensures r.result.None? <==> r.stage == NotFound
    ensures var neither := !Accepts(s, US) && !Accepts(s, UK);
      var date := AfterChecks(s, st0);
      && (r.stage == YearOnly <==> st0.years && !st0.months && !st0.days && neither)
      && (r.stage == YearOnly ==> r.result.value == date.(day := Some(1), month := Some(1), range := true))
      && (r.stage == YearMonth <==> st0.years && st0.months && !st0.days && neither)
      && (r.stage == YearMonth ==> r.result.value == date.(day := Some(1), range := true))
      && (r.stage == MonthOnly <==> !st0.years && st0.months && !st0.days && neither)
      && (r.stage == MonthOnly ==> r.result.value == date.(year := Some(env.todayYear), day := Some(1), range := true))
      && (r.stage == DayOnly <==>
            !st0.years && !st0.months && st0.days && neither && env.strtotime.None? && date.day.Some?)
      && (r.stage == DayOnly ==> r.result.value == date.(year := Some(env.todayYear), month := Some(env.todayMonth)))
    ensures r.stage !in {YearOnly, YearMonth, MonthOnly, DayOnly} ==> r == Finish(s, env, st0)
  {
    var g1 := Guard(s, st0, st0.years && !st0.months && !st0.days);
    if g1.ok then
      Outcome(Some(g1.state.date.(day := Some(1), month := Some(1), range := true)), YearOnly)
    else
    var st1 := g1.state;
    var g2 := Guard(s, st1, st1.years && st1.months && !st1.days);
    if g2.ok then
      Outcome(Some(g2.state.date.(day := Some(1), range := true)), YearMonth)
    else
    var st2 := g2.state;
    var g3 := Guard(s, st2, !st2.years && st2.months && !st2.days);
    if g3.ok then
      Outcome(Some(g3.state.date.(year := Some(env.todayYear), day := Some(1), range := true)), MonthOnly)
    else
    var st3 := g3.state;
    var g4 := Guard(s, st3, !st3.years && !st3.months && st3.days);
    if g4.ok && env.strtotime.None? && g4.state.date.day.Some? then
      Outcome(Some(g4.state.date.(year := Some(env.todayYear), month := Some(env.todayMonth))), DayOnly)
    else
      FinishDepends(s, env, st0, g4.state);
      Finish(s, env, g4.state)
  }

  /** The closing lines of `findDate`: `checkUSFQD`, `checkUKFQD`, then
      `fuzzyLogic`, which sees `parsedDate` as the checks left it. */
  function Finish(s: string, env: Env, st: State): (r: Outcome)
    ensures r.result.None? <==> r.stage == NotFound
    ensures r.stage == FixedUS <==> Accepts(s, US)
    ensures r.stage == FixedUK <==> !Accepts(s, US) && Accepts(s, UK)
    ensures r.stage in {FixedUS, FixedUK} ==> ValidDate(r.result.value)
    ensures r.stage == FixedUS ==>
      var f := Explode(s, '-');
      r.result.value == ParsedDate(Some(IntCast(f[2])), Some(IntCast(f[0])), Some(IntCast(f[1])), false)
    ensures r.stage == FixedUK ==>
      var f := Explode(s, '/');
      r.result.value == ParsedDate(Some(IntCast(f[2])), Some(IntCast(f[1])), Some(IntCast(f[0])), false)
    ensures r.stage !in {FixedUS, FixedUK} ==> r == FuzzyLogic(s, env, st.(date := AfterChecks(s, st)))
  {
    var us := CheckFixed(s, st, US);
    if us.ok then Outcome(Some(us.state.date), FixedUS)
    else
    var uk := CheckFixed(s, us.state, UK);
    if uk.ok then Outcome(Some(uk.state.date), FixedUK)
    else FuzzyLogic(s, env, uk.state)
  }

  /** `Finish` depends on the state only through its flags and what the
      checks leave of `parsedDate`. */
  lemma FinishDepends(s: string, env: Env, st: State, st': State)
    requires st'.years == st.years && st'.months == st.months && st'.days == st.days
    requires AfterChecks(s, st') == AfterChecks(s, st)
    ensures Finish(s, env, st') == Finish(s, env, st)
  {
  }

  /** Inside `findDate` the second test of the `strtotime` tier never
      decides: a text that named a month but neither a day nor a year is
      answered by the month-only branch, or by a fixed format, first. The
      tier keeps the timestamp's day unless the text named no day and the
      timestamp fell on the 1st. */
  lemma TimestampDay(s: string, env: Env, st0: State)
    requires Branches(s, env, st0).stage == FromTimestamp
    ensures !(st0.months && !st0.days && !st0.years)
    ensures var t := env.strtotime.value;
      Branches(s, env, st0).result.value.day == Some(if !st0.days && t.mday == 1 then 1 else t.mday)
  {
    var r := Branches(s, env, st0);
    assert r == Finish(s, env, st0);
    assert !Accepts(s, US) && !Accepts(s, UK);
  }

  /** `findDate`: the date found, or None for `false`. */
  function FindDate(s: string, env: Env): (r: Option<ParsedDate>)
    ensures SimpleDate(s).Some? ==> r == SimpleDate(s)
    ensures r.None? ==> SimpleDate(s).None? && !Accepts(s, US) && !Accepts(s, UK)
  {
    FixedWins(s, env);
    Run(s, env).result
  }

  // ---------------------------------------------------------------------------
  // What the pipeline promises
  // ---------------------------------------------------------------------------

  /** The scanners never set `range`. */
  lemma ScanNoRange(s: string)
    ensures !Scan(s).date.range
  {
  }

  /** The fixed formats take over whenever `simpleDate` fails: a string the
      US check accepts is answered by it, and one only the UK check accepts
      is answered by that, whatever the signal scanners found. */
  lemma FixedWins(s: string, env: Env)
    ensures Run(s, env).stage == FixedUS <==> SimpleDate(s).None? && Accepts(s, US)
    ensures Run(s, env).stage == FixedUK <==> SimpleDate(s).None? && !Accepts(s, US) && Accepts(s, UK)
  {
  }

  /** `range` marks a first-of-the-period answer: whenever it is set, the
      day is 1. */
  lemma RangeMeansFirstDay(s: string, env: Env)
    ensures var r := Run(s, env).result;
      r.Some? && r.value.range ==> r.value.day == Some(1)
  {
    if SimpleDate(s).None? {
      var st := Scan(s);
      ScanNoRange(s);
      var r := Branches(s, env, st);
      assert Run(s, env) == r;
      if r.stage !in {YearOnly, YearMonth, MonthOnly, DayOnly} {
        FinishRange(s, env, st);
      } else if r.stage == DayOnly {
        assert !AfterChecks(s, st).range;
      }
    }
  }

  /** Past the granularity branches, `range` again means the 1st: only
      `date_parse` can set it, and only for day 1. */
  lemma FinishRange(s: string, env: Env, st: State)
    requires !st.date.range
    ensures var r := Finish(s, env, st).result;
      r.Some? && r.value.range ==> r.value.day == Some(1)
  {
    var r := Finish(s, env, st);
    if r.stage !in {FixedUS, FixedUK} {
      var st' := st.(date := AfterChecks(s, st));
      assert !st'.date.range;
      assert r == FuzzyLogic(s, env, st');
    }
  }

  /** The stages that check their answer with `checkdate` return a full,
      valid date without `range`. */
  lemma CheckedStagesValid(s: string, env: Env)
    ensures var r := Run(s, env);
      r.stage in {Simple, FixedUS, FixedUK, FromTimestamp, FromManual} ==> ValidDate(r.result.value)
  {
    if SimpleDate(s).None? {
      var st := Scan(s);
      ScanNoRange(s);
      var r := Branches(s, env, st);
      assert Run(s, env) == r;
      if r.stage !in {YearOnly, YearMonth, MonthOnly, DayOnly} {
        FinishValid(s, env, st);
      }
    }
  }

  /** The checked stages of `Finish` return a valid date when `parsedDate`
      comes in without `range`. */
  lemma FinishValid(s: string, env: Env, st: State)
    requires !st.date.range
    ensures var r := Finish(s, env, st);
      r.stage in {FixedUS, FixedUK, FromTimestamp, FromManual} ==> ValidDate(r.result.value)
  {
    var r := Finish(s, env, st);
    if r.stage !in {FixedUS, FixedUK} {
      var st' := st.(date := AfterChecks(s, st));
      assert !st'.date.range;
      assert r == FuzzyLogic(s, env, st');
    }
  }

  /** The granularity branches: a year alone is January 1st of that year, a
      year and a month is the 1st of that month, a month alone is the 1st of
      that month this year; each is marked as a range. They fire only when
      neither fixed format accepts the text. */
  lemma GranularityBranches(s: string, env: Env)
    ensures var r, sc := Run(s, env), Scan(s);
      && (r.stage == YearOnly ==>
            && SimpleDate(s).None? && sc.years && !sc.months && !sc.days
            && r.result.value.month == Some(1) && r.result.value.day == Some(1) && r.result.value.range)
      && (r.stage == YearMonth ==>
            && SimpleDate(s).None? && sc.years && sc.months && !sc.days
            && r.result.value.day == Some(1) && r.result.value.range)
      && (r.stage == MonthOnly ==>
            && SimpleDate(s).None? && !sc.years && sc.months && !sc.days
            && r.result.value.year == Some(env.todayYear) && r.result.value.day == Some(1) && r.result.value.range)
      && (r.stage in {YearOnly, YearMonth, MonthOnly} ==> !Accepts(s, US) && !Accepts(s, UK))
  {
  }

  /** The granularity branches keep what the scanners read, unless a split
      into three pieces on '-' or '/' emptied `parsedDate` first; then the
      scanned year and month are lost. */
  lemma GranularityKeepsScan(s: string, env: Env)
    ensures var r, sc := Run(s, env), Scan(s);
      r.stage in {YearOnly, YearMonth, MonthOnly} ==>
        if Splits(s, US) || Splits(s, UK) then
          && r.result.value.year == (if r.stage == MonthOnly then Some(env.todayYear) else None)
          && r.result.value.month == (if r.stage == YearOnly then Some(1) else None)
        else
          && r.result.value.year == (if r.stage == MonthOnly then Some(env.todayYear) else sc.date.year)
          && r.result.value.month == (if r.stage == YearOnly then Some(1) else sc.date.month)
  {
  }

  /** A day alone, when `strtotime` cannot read the text, is that day of the
      current month and year; since no split emptied the array, the day is
      the scanned one. Nothing checks that the day exists in this month. */
  lemma DayOnlyBranch(s: string, env: Env)
    ensures var r, sc := Run(s, env), Scan(s);
      r.stage == DayOnly ==>
        && SimpleDate(s).None? && !sc.years && !sc.months && sc.days && env.strtotime.None?
        && !Splits(s, US) && !Splits(s, UK)
        && r.result.value == ParsedDate(Some(env.todayYear), Some(env.todayMonth), sc.date.day, false)
  {
    ScanNoRange(s);
  }

  /** When `date_parse` answers, `range` is set exactly when the scanners
      found no day and the parsed day is the 1st. */
  lemma DateParseRange(s: string, env: Env)
    ensures var r := Run(s, env);
      r.stage == FromDateParse ==>
        (r.result.value.range <==> !Scan(s).days && r.result.value.day == Some(1))
  {
    if SimpleDate(s).None? {
      var st := Scan(s);
      ScanNoRange(s);
      var r := Branches(s, env, st);
      assert Run(s, env) == r;
      if r.stage == FromDateParse {
        var st' := st.(date := AfterChecks(s, st));
        assert r == Finish(s, env, st) == FuzzyLogic(s, env, st');
        assert !st'.date.range && st'.days == st.days;
      }
    }
  }

  /** Nothing is found only when `simpleDate` fails, neither fixed format
      accepts, and every tier of the fuzzy fallback fails. */
  lemma NotFoundMeans(s: string, env: Env)
    ensures Run(s, env).stage == NotFound ==>
      && SimpleDate(s).None? && !Accepts(s, US) && !Accepts(s, UK)
      && !ParseAccepted(env.dateParse)
      && (Seconds(env.strtotime) != 0 ==>
            !CheckDate(env.strtotime.value.mon, env.strtotime.value.mday, env.strtotime.value.year))
      && (Seconds(env.strtotime) == 0 ==>
            forall m, d, y :: ManualReading(s, m, d, y) ==> !CheckDate(m, d, y))
  {
  }

  // ---------------------------------------------------------------------------
  // Round trips through the fixed formats
  // ---------------------------------------------------------------------------

  /** A text without letters has no month name, so `simpleDate` fails. */
  lemma NoLettersNoSimpleDate(s: string)
    requires forall i :: 0 <= i < |s| ==> !IsAlpha(s[i])
    ensures SimpleDate(s).None?
  {
    if Leftmost(DayMonthYear, s, 0).Some? {
      var p := Leftmost(DayMonthYear, s, 0).value;
      assert MatchAt(DayMonthYear, s, p) == SimpleDateAt(s, p);
      SimpleDateLetter(s, p);
    }
  }

  /** `simpleDate` needs a letter (the month name) after a digit (the day),
      so a text with no letter after any digit has no simple date. */
  lemma NoLetterAfterDigit(s: string)
    requires forall p, r :: 0 <= p < r < |s| && IsDigit(s[p]) ==> !IsAlpha(s[r])
    ensures SimpleDate(s).None?
  {
    if Leftmost(DayMonthYear, s, 0).Some? {
      var p := Leftmost(DayMonthYear, s, 0).value;
      assert MatchAt(DayMonthYear, s, p) == SimpleDateAt(s, p);
      SimpleDateLetter(s, p);
    }
  }

  /** `simpleDate` needs a digit (the year) after a letter (the month
      name), so a text with no digit after any letter has no simple date. */
  lemma NoDigitAfterLetter(s: string)
    requires forall p, r :: 0 <= p < r < |s| && IsAlpha(s[p]) ==> !IsDigit(s[r])
    ensures SimpleDate(s).None?
  {
    if Leftmost(DayMonthYear, s, 0).Some? {
      var p := Leftmost(DayMonthYear, s, 0).value;
      assert MatchAt(DayMonthYear, s, p) == SimpleDateAt(s, p);
      var r, t := SimpleDateYearDigit(s, p);
    }
  }

  /** When `simpleDate` fails and the US check accepts, the answer is the
      US reading of the three pieces. */
  lemma UsAnswer(s: string, env: Env)
    requires SimpleDate(s).None? && Accepts(s, US)
    ensures var f := Explode(s, '-');
      FindDate(s, env) == Some(ParsedDate(Some(IntCast(f[2])), Some(IntCast(f[0])), Some(IntCast(f[1])), false))
  {
  }

  /** When `simpleDate` and the US check fail and the UK check accepts, the
      answer is the UK reading of the three pieces. */
  lemma UkAnswer(s: string, env: Env)
    requires SimpleDate(s).None? && !Accepts(s, US) && Accepts(s, UK)
    ensures var f := Explode(s, '/');
      FindDate(s, env) == Some(ParsedDate(Some(IntCast(f[2])), Some(IntCast(f[1])), Some(IntCast(f[0])), false))
  {
  }

  /** A year alone, in a text neither split touches, is January 1st of the
      scanned year, marked as a range. */
  lemma YearOnlyAnswer(s: string, env: Env)
    requires SimpleDate(s).None? && !Splits(s, US) && !Splits(s, UK)
    requires Scan(s).years && !Scan(s).months && !Scan(s).days
    ensures FindDate(s, env) == Some(Scan(s).date.(day := Some(1), month := Some(1), range := true))
  {
    var r := Branches(s, env, Scan(s));
    assert Run(s, env) == r;
    assert r.stage == YearOnly;
  }

  /** A year and a month, in a text neither split touches, are the 1st of
      the scanned month, marked as a range. */
  lemma YearMonthAnswer(s: string, env: Env)
    requires SimpleDate(s).None? && !Splits(s, US) && !Splits(s, UK)
    requires Scan(s).years && Scan(s).months && !Scan(s).days
    ensures FindDate(s, env) == Some(Scan(s).date.(day := Some(1), range := true))
  {
    var r := Branches(s, env, Scan(s));
    assert Run(s, env) == r;
    assert r.stage == YearMonth;
  }

  /** A day alone, in a text neither split touches and `strtotime` cannot
      read, is that day of the current month and year. */
  lemma DayOnlyAnswer(s: string, env: Env)
    requires SimpleDate(s).None? && !Splits(s, US) && !Splits(s, UK) && env.strtotime.None?
    requires !Scan(s).years && !Scan(s).months && Scan(s).days
    ensures FindDate(s, env) == Some(Scan(s).date.(year := Some(env.todayYear), month := Some(env.todayMonth)))
  {
    var r := Branches(s, env, Scan(s));
    assert Run(s, env) == r;
    assert r.stage == DayOnly;
  }

  /** Round trip: a valid date written month-day-year with '-' is found as
      exactly that date, whatever the date library and the clock say. */
  lemma RoundTripUS(y: nat, m: nat, d: nat, env: Env)
    requires CheckDate(m, d, y)
    ensures FindDate(Format(US, y, m, d), env) == Some(ParsedDate(Some(y), Some(m), Some(d), false))
  {
    var s := Format(US, y, m, d);
    NoLettersNoSimpleDate(s);
    FormatFields(US, y, m, d);
    UsAnswer(s, env);
  }

  /** Round trip: a valid date written day/month/year with '/' is found as
      exactly that date, whatever the date library and the clock say. */
  lemma RoundTripUK(y: nat, m: nat, d: nat, env: Env)
    requires CheckDate(m, d, y)
    ensures FindDate(Format(UK, y, m, d), env) == Some(ParsedDate(Some(y), Some(m), Some(d), false))
  {
    var s := Format(UK, y, m, d);
    NoLettersNoSimpleDate(s);
    FormatFields(UK, y, m, d);
    OtherLayoutIgnores(UK, y, m, d, Scan(s));
    UkAnswer(s, env);
  }
}

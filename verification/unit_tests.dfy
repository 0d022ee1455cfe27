/** Entries of the `unitTests` table of dateFinder.php. Those whose answer
    depends on the clock or the date library take that answer as a
    hypothesis. Inputs are as `FILTER_SANITIZE_STRING` leaves them. Each
    entry takes its input as a parameter equal to the literal, and small
    facts about the literal are proved separately. */
module UnitTests {
  import opened Text
  import opened Calendar
  import opened Patterns
  import opened DateState
  import opened Scanners
  import opened FixedFormats
  import opened Fuzzy
  import opened DateFinder

  /** `t` is the shortest spelling of `n`, so PHP reads it as `n`. */
  lemma Reads(t: string, n: nat)
    requires NatToDigits(n) == t
    ensures IsNumeric(t) && IntCast(t) == n
  {
    DigitsCast(t);
  }

  /** PHP reads a two-digit string digit by digit, a leading zero included. */
  lemma ReadsTwoDigits(t: string)
    requires |t| == 2 && IsDigit(t[0]) && IsDigit(t[1])
    ensures IsNumeric(t) && IntCast(t) == 10 * DigitValue(t[0]) + DigitValue(t[1])
  {
    DigitsCast(t);
    TwoDigitsValue(t);
  }

  /** PHP reads a four-digit string digit by digit. */
  lemma ReadsFourDigits(t: string)
    requires |t| == 4 && AllDigits(t)
    ensures IsNumeric(t) && IntCast(t) == DigitsValue(t)
    ensures DigitsValue(t) == 1000 * DigitValue(t[0]) + 100 * DigitValue(t[1]) + 10 * DigitValue(t[2]) + DigitValue(t[3])
  {
    DigitsCast(t);
    FourDigitsValue(t);
    TwoDigitsValue(t[..2]);
  }

  /** A text of three digit runs joined by `dl` splits into those runs. */
  lemma Pieces(s: string, a: string, b: string, c: string, dl: char)
    requires AllDigits(a) && AllDigits(b) && AllDigits(c) && !IsDigit(dl)
    requires s == a + ([dl] + (b + ([dl] + c)))
    ensures Explode(s, dl) == [a, b, c]
  {
    var f := SplitThree(a, b, c, dl);
  }

  /** A text with neither '-' nor '/' is split by neither fixed format. */
  lemma NoDelimiters(s: string)
    requires '-' !in s && '/' !in s
    ensures !Splits(s, US) && !Splits(s, UK)
  {
    ExplodeFree(s, '-');
    ExplodeFree(s, '/');
  }

  /** A stand-alone four-digit year and a day number worth 1..31 set both
      flags of the scan. */
  lemma ScanYearsAndDays(s: string, y: nat, d: nat)
    requires MatchAt(FullYear, s, y).Some? && d < |s| && DayCandidate(s, d)
    ensures Scan(s).years && Scan(s).days
  {
    assert Leftmost(FullYear, s, 0).Some?;
  }

  /** Without quotes or entities, the first four-digit year is the year the
      scan reads. */
  lemma PlainYear(s: string, p: nat, y: nat)
    requires Leftmost(FullYear, s, 0) == Some(p) && p + 4 <= |s| && DigitsValue(s[p..p + 4]) == y
    requires '&' !in s && '\'' !in s
    ensures MaybeYears(s, State(NoDate, false, false, false)) == State(NoDate.(year := Some(y)), true, false, false)
  {
    NoApostropheYear(s);
  }

  /** A text that neither fixed format accepts, holds no simple date and no
      month abbreviation, and has both a year and a day, is rejected when
      the date library rejects it and `strtotime` gives no timestamp. */
  lemma NothingFound(s: string, env: Env)
    requires !Accepts(s, US) && !Accepts(s, UK)
    requires SimpleDate(s).None? && Leftmost(ShortMonthAnywhere, s, 0).None?
    requires Scan(s).years && Scan(s).days
    requires !ParseAccepted(env.dateParse) && Seconds(env.strtotime) == 0
    ensures FindDate(s, env).None?
  {
    var r := Branches(s, env, Scan(s));
    assert Run(s, env) == r;
    assert r.stage !in {YearOnly, YearMonth, MonthOnly, DayOnly};
    assert r.stage != FromManual;
  }

  // ---------------------------------------------------------------------------
  // '02-31-1972': an impossible US date
  // ---------------------------------------------------------------------------

  lemma InvalidPieces(s: string)
    requires s == "02-31-1972"
    ensures Explode(s, '-') == ["02", "31", "1972"]
  {
    Pieces(s, "02", "31", "1972", '-');
  }

  lemma ReadsZeroTwo()
    ensures IntCast("02") == 2
  {
    ReadsTwoDigits("02");
  }

  lemma ReadsThirtyOne()
    ensures IntCast("31") == 31
  {
    ReadsTwoDigits("31");
  }

  /** No year has a February 31st. */
  lemma NoFebruaryThirtyFirst(s: string, l: Layout)
    requires Splits(s, l)
    requires var f := Explode(s, Delimiter(l)); IntCast(f[MonthField(l)]) == 2 && IntCast(f[DayField(l)]) == 31
    ensures !Accepts(s, l)
  {
  }

  /** February 31st does not exist, so the US check rejects the text; its
      split still empties `parsedDate`. */
  lemma InvalidNotUs(s: string)
    requires s == "02-31-1972"
    ensures Splits(s, US) && !Accepts(s, US)
  {
    InvalidPieces(s);
    ReadsZeroTwo();
    ReadsThirtyOne();
    NoFebruaryThirtyFirst(s, US);
  }

  lemma InvalidNotUk(s: string)
    requires s == "02-31-1972"
    ensures !Splits(s, UK)
  {
    assert '/' !in s;
    ExplodeFree(s, '/');
  }

  lemma InvalidNoLetters(s: string)
    requires s == "02-31-1972"
    ensures SimpleDate(s).None? && Leftmost(ShortMonthAnywhere, s, 0).None?
  {
    forall i | 0 <= i < |s| ensures !IsAlpha(s[i]) {
      assert s[i] in "0123456789-";
    }
    NoLettersNoSimpleDate(s);
    LetterFreeNoName(s, ShortMonthAnywhere);
  }

  /** "1972" is a stand-alone year and "02" a day number worth 2. */
  lemma InvalidScan(s: string)
    requires s == "02-31-1972"
    ensures Scan(s).years && Scan(s).days
  {
    var t := s[6..10];
    forall i | 0 <= i < |t| ensures IsDigit(t[i]) {
      assert t[i] in "0123456789";
    }
    DigitsAtSlice(s, 6, 4);
    assert MatchAt(FullYear, s, 6).Some?;
    var g := DayNumberAt(s, 0).value.groups[1];
    assert g == s[0..2];
    TwoDigitsValue(g);
    ScanYearsAndDays(s, 6, 0);
  }

  /** '02-31-1972' is rejected when the date library rejects it too and
      `strtotime` gives no timestamp. */
  lemma InvalidDate(s: string, env: Env)
    requires s == "02-31-1972"
    requires !ParseAccepted(env.dateParse) && Seconds(env.strtotime) == 0
    ensures FindDate(s, env).None?
  {
    InvalidNotUs(s);
    InvalidNotUk(s);
    InvalidNoLetters(s);
    InvalidScan(s);
    NothingFound(s, env);
  }

  // ---------------------------------------------------------------------------
  // '12-08-1980': a US date
  // ---------------------------------------------------------------------------

  lemma UsPieces(s: string)
    requires s == "12-08-1980"
    ensures Explode(s, '-') == ["12", "08", "1980"]
  {
    Pieces(s, "12", "08", "1980", '-');
  }

  lemma ReadsZeroEight()
    ensures IntCast("08") == 8
  {
    ReadsTwoDigits("08");
  }

  lemma ReadsTwelve()
    ensures IntCast("12") == 12
  {
    ReadsTwoDigits("12");
  }

  lemma Reads1980(t: string)
    requires t == "1980"
    ensures IsNumeric(t) && IntCast(t) == 1980
  {
    forall i | 0 <= i < |t| ensures IsDigit(t[i]) {
      assert t[i] in "0123456789";
    }
    ReadsFourDigits(t);
  }

  lemma UsFields(s: string)
    requires s == "12-08-1980"
    ensures Accepts(s, US)
    ensures var f := Explode(s, '-'); IntCast(f[0]) == 12 && IntCast(f[1]) == 8 && IntCast(f[2]) == 1980
  {
    UsPieces(s);
    ReadsZeroEight();
    ReadsTwelve();
    Reads1980(Explode(s, '-')[2]);
  }

  lemma UsNoLetters(s: string)
    requires s == "12-08-1980"
    ensures SimpleDate(s).None?
  {
    forall i | 0 <= i < |s| ensures !IsAlpha(s[i]) {
      assert s[i] in "0123456789-";
    }
    NoLettersNoSimpleDate(s);
  }

  /** '12-08-1980' is December 8th, 1980, whatever the library says. */
  lemma UsDate(s: string, env: Env)
    requires s == "12-08-1980"
    ensures FindDate(s, env) == Some(ParsedDate(Some(1980), Some(12), Some(8), false))
  {
    UsFields(s);
    UsNoLetters(s);
    UsAnswer(s, env);
  }

  // ---------------------------------------------------------------------------
  // '7th December, 1969': a simple date
  // ---------------------------------------------------------------------------

  lemma DecemberDay(s: string)
    requires s == "7th December, 1969"
    ensures DigitsAt(s, 0, 1) && !DigitsAt(s, 0, 2) && SuffixAt(s, 1, true)
    ensures NonAlnumEnd(s, 3) == 4 && NonAlnumEnd(s, 12) == 14
  {
    assert s[1..3] == "th";
    assert NonAlnumEnd(s, 4) == 4 && NonAlnumEnd(s, 14) == 14;
  }

  lemma DecemberName(s: string)
    requires s == "7th December, 1969"
    ensures LongNameAt(s, 4) == Some(11)
  {
    assert MatchesCI(s, 4, LongMonthNames[11]);
    LongNameAtFits(s, 4, 11);
  }

  lemma DecemberHead(s: string)
    requires s == "7th December, 1969"
    ensures var c := SimpleDateHead(s, 0);
      c.Some? && c.value.q == 1 && c.value.k == 3 && c.value.r == 4 && c.value.name == 11
  {
    DecemberDay(s);
    DecemberName(s);
    SimpleDateHeadCuts(s, 0, 1, 3, 4, 11);
  }

  lemma DecemberYearDigits(s: string)
    requires s == "7th December, 1969"
    ensures DigitsAt(s, 14, 4) && AllDigits(s[14..18]) && DigitsValue(s[14..18]) == 1969
  {
    var t := s[14..18];
    forall i | 0 <= i < |t| ensures IsDigit(t[i]) {
      assert t[i] in "0123456789";
    }
    DigitsAtSlice(s, 14, 4);
    FourDigitsValue(t);
    TwoDigitsValue(t[..2]);
  }

  /** The match at 0 cuts "7", "th", " ", "December", ", " and "1969". */
  lemma DecemberMatch(s: string)
    requires s == "7th December, 1969"
    ensures SimpleDateAt(s, 0).Some?
    ensures var g := SimpleDateAt(s, 0).value.groups;
      g[1] == s[0..1] && g[4] == s[4..12] && g[6] == s[14..18]
  {
    DecemberHead(s);
    DecemberDay(s);
    DecemberYearDigits(s);
    var c := SimpleDateHead(s, 0).value;
    SimpleDateHeadReads(s, 0, c);
  }

  lemma DecemberReads(s: string)
    requires s == "7th December, 1969"
    ensures SimpleDateReads(s, 0, 7, 12, 1969)
  {
    DecemberMatch(s);
    DecemberYearDigits(s);
    var c := SimpleDateHead(s, 0).value;
    DecemberHead(s);
    SimpleDateHeadReads(s, 0, c);
    var g := SimpleDateAt(s, 0).value.groups;
    assert DigitsValue(g[1]) == 7 by {
      assert g[1] == [s[0]] && [s[0]][..0] == [];
    }
  }

  /** '7th December, 1969' is December 7th, 1969. */
  lemma DecemberDate(s: string, env: Env)
    requires s == "7th December, 1969"
    ensures FindDate(s, env) == Some(ParsedDate(Some(1969), Some(12), Some(7), false))
  {
    DecemberMatch(s);
    LeftmostIs(DayMonthYear, s, 0, 0);
    DecemberReads(s);
    SimpleDateAnswer(s, 0, 7, 12, 1969);
  }

  // ---------------------------------------------------------------------------
  // '7/12/69': a UK date with a two-digit year
  // ---------------------------------------------------------------------------

  lemma UkPieces(s: string)
    requires s == "7/12/69"
    ensures Explode(s, '/') == ["7", "12", "69"]
  {
    Pieces(s, "7", "12", "69", '/');
  }

  lemma ReadsSeven()
    ensures IntCast("7") == 7
  {
    Reads("7", 7);
  }

  lemma Reads69()
    ensures IsNumeric("69") && IntCast("69") == 69
  {
    ReadsTwoDigits("69");
  }

  lemma UkNotUs(s: string)
    requires s == "7/12/69"
    ensures !Splits(s, US)
  {
    ExplodeFree(s, '-');
  }

  lemma UkFields(s: string)
    requires s == "7/12/69"
    ensures Accepts(s, UK)
    ensures var f := Explode(s, '/'); |f| == 3 && IntCast(f[0]) == 7 && IntCast(f[1]) == 12 && IntCast(f[2]) == 69
  {
    UkPieces(s);
    ReadsSeven();
    ReadsTwelve();
    Reads69();
    var f := Explode(s, '/');
    assert MonthField(UK) == 1 && DayField(UK) == 0;
    assert Splits(s, UK) && IsNumeric(f[2]);
    assert CheckDate(IntCast(f[1]), IntCast(f[0]), IntCast(f[2]));
  }

  lemma UkNoLetters(s: string)
    requires s == "7/12/69"
    ensures SimpleDate(s).None?
  {
    forall i | 0 <= i < |s| ensures !IsAlpha(s[i]) {
      assert s[i] in "0123456789/";
    }
    NoLettersNoSimpleDate(s);
  }

  /** '7/12/69' is 7 December of the year 69: the two-digit year is taken
      literally, whatever the library says. */
  lemma UkDate(s: string, env: Env)
    requires s == "7/12/69"
    ensures FindDate(s, env) == Some(ParsedDate(Some(69), Some(12), Some(7), false))
  {
    UkFields(s);
    UkNotUs(s);
    UkNoLetters(s);
    UkAnswer(s, env);
  }

  /** The leftmost match from `i` on is at `q` when `pat` matches there and
      nowhere between. */
  lemma LeftmostIs(pat: Pattern, s: string, i: nat, q: nat)
    requires i <= q < |s| && MatchAt(pat, s, q).Some?
    requires forall j :: i <= j < q ==> MatchAt(pat, s, j).None?
    ensures Leftmost(pat, s, i) == Some(q)
  {
  }

  /** A text of digits only has no letters, no delimiter of either fixed
      format and nothing to decode, so no split applies. */
  lemma DigitsOnly(s: string)
    requires AllDigits(s)
    ensures forall i :: 0 <= i < |s| ==> !IsAlpha(s[i])
    ensures '&' !in s && '\'' !in s
    ensures !Splits(s, US) && !Splits(s, UK)
  {
    assert forall c :: c in s ==> IsDigit(c);
    ExplodeFree(s, '-');
    ExplodeFree(s, '/');
  }

  /** The value of a two-digit string. */
  lemma TwoDigitsValue(t: string)
    requires |t| == 2 && AllDigits(t)
    ensures DigitsValue(t) == 10 * DigitValue(t[0]) + DigitValue(t[1])
  {
    var a := t[..1];
    assert a[..0] == [] && a[0] == t[0];
    assert DigitsValue(a) == DigitValue(t[0]);
  }

  /** The value of a four-digit string. */
  lemma FourDigitsValue(t: string)
    requires |t| == 4 && AllDigits(t)
    ensures DigitsValue(t) == 100 * DigitsValue(t[..2]) + 10 * DigitValue(t[2]) + DigitValue(t[3])
  {
    var a := t[..3];
    assert a[..2] == t[..2] && a[2] == t[2];
  }

  /** A month name starts on a letter, and on a word boundary when the
      pattern is bounded. */
  lemma NameStartAt(s: string, q: nat, pat: Pattern)
    requires pat == FullMonthWord || pat == ShortMonthWord
    ensures MatchAt(pat, s, q).Some? ==> q < |s| && IsAlpha(s[q]) && Boundary(s, q)
  {
    if MatchAt(pat, s, q).Some? {
      NameStart(s, q, pat);
    }
  }

  // ---------------------------------------------------------------------------
  // '1914': a year alone
  // ---------------------------------------------------------------------------

  lemma YearFacts(s: string)
    requires s == "1914"
    ensures Leftmost(FullYear, s, 0) == Some(0)
    ensures DigitsValue(s[0..4]) == 1914
  {
    assert MatchAt(FullYear, s, 0).Some?;
    LeftmostIs(FullYear, s, 0, 0);
    YearDigits(s);
    assert s[0..4] == s;
    FourDigitsValue(s);
    TwoDigitsValue(s[..2]);
  }

  lemma YearNoDay(s: string)
    requires s == "1914"
    ensures Leftmost(DayNumber, s, 0).None?
  {
    assert DayNumberAt(s, 0).None?;
    assert !Boundary(s, 1) && !Boundary(s, 2) && !Boundary(s, 3);
    forall j | 0 <= j < |s| ensures MatchAt(DayNumber, s, j).None? {
      assert MatchAt(DayNumber, s, j) == DayNumberAt(s, j);
    }
  }

  lemma YearDigits(s: string)
    requires s == "1914"
    ensures AllDigits(s)
  {
    forall i | 0 <= i < |s| ensures IsDigit(s[i]) {
      assert s[i] in "0123456789";
    }
  }

  lemma YearScanYears(s: string)
    requires s == "1914"
    ensures MaybeYears(s, State(NoDate, false, false, false)) == State(NoDate.(year := Some(1914)), true, false, false)
  {
    YearFacts(s);
    NoApostropheYear(s);
  }

  lemma YearNoName(s: string)
    requires s == "1914"
    ensures Leftmost(FullMonthWord, s, 0).None? && Leftmost(ShortMonthWord, s, 0).None?
  {
    LetterFreeNoName(s, FullMonthWord);
    LetterFreeNoName(s, ShortMonthWord);
  }

  lemma YearScan(s: string)
    requires s == "1914"
    ensures Scan(s) == State(NoDate.(year := Some(1914)), true, false, false)
  {
    YearScanYears(s);
    YearNoName(s);
    YearNoDay(s);
    var y := State(NoDate.(year := Some(1914)), true, false, false);
    NoMonthWord(s, y);
    NoDayNumber(s, y);
  }

  /** '1914' is January 1st, 1914, marked as a range. */
  lemma YearAlone(s: string, env: Env)
    requires s == "1914"
    ensures FindDate(s, env) == Some(ParsedDate(Some(1914), Some(1), Some(1), true))
  {
    YearScan(s);
    YearDigits(s);
    DigitsOnly(s);
    NoLettersNoSimpleDate(s);
    YearOnlyAnswer(s, env);
  }

  // ---------------------------------------------------------------------------
  // 'aug 2012': a month abbreviation and a year
  // ---------------------------------------------------------------------------

  lemma AugYearDigits(s: string)
    requires s == "aug 2012"
    ensures AllDigits(s[4..8]) && DigitsValue(s[4..8]) == 2012
  {
    var t := s[4..8];
    forall i | 0 <= i < |t| ensures IsDigit(t[i]) {
      assert t[i] in "0123456789";
    }
    FourDigitsValue(t);
    TwoDigitsValue(t[..2]);
  }

  lemma AugYearAt(s: string)
    requires s == "aug 2012"
    ensures Leftmost(FullYear, s, 0) == Some(4)
  {
    assert MatchAt(FullYear, s, 4).Some?;
    forall j | 0 <= j < 4 ensures MatchAt(FullYear, s, j).None? {
      assert !IsDigit(s[j]);
    }
    LeftmostIs(FullYear, s, 0, 4);
  }

  /** No long name fits at the start: the only one sharing the prefix of
      "aug" is "august", which the space cuts short. */
  lemma AugNotLongAtStart(s: string)
    requires s == "aug 2012"
    ensures MatchAt(FullMonthWord, s, 0).None?
  {
    if MatchAt(FullMonthWord, s, 0).Some? {
      assert MatchAt(FullMonthWord, s, 0) == NameAt(s, 0, LongMonthNames, true);
      var i := FirstName(s, 0, LongMonthNames, 0, true).value;
      AugShortName(s);
      MonthPrefix(LongMonthNames, i);
      MonthPrefix(ShortMonthNames, 7);
      SamePrefix(s, 0, LongMonthNames[i], ShortMonthNames[7]);
      MonthPrefixesDistinct(i, 7);
    }
  }

  lemma AugShortName(s: string)
    requires s == "aug 2012"
    ensures MatchesCI(s, 0, ShortMonthNames[7])
  {
  }

  lemma AugNoLong(s: string)
    requires s == "aug 2012"
    ensures Leftmost(FullMonthWord, s, 0).None?
  {
    AugNotLongAtStart(s);
    forall j | 0 < j < |s| ensures MatchAt(FullMonthWord, s, j).None? {
      NameStartAt(s, j, FullMonthWord);
      if j < 3 {
        assert IsWord(s[j - 1]) && IsWord(s[j]);
      } else {
        assert !IsAlpha(s[j]);
      }
    }
  }

  lemma AugShort(s: string)
    requires s == "aug 2012"
    ensures Leftmost(ShortMonthWord, s, 0) == Some(0)
    ensures MatchesCI(s, 0, ShortMonthNames[7])
  {
    AugShortName(s);
    assert MatchAt(ShortMonthWord, s, 0).Some?;
    LeftmostIs(ShortMonthWord, s, 0, 0);
  }

  lemma AugNoDay(s: string)
    requires s == "aug 2012"
    ensures Leftmost(DayNumber, s, 0).None?
  {
    assert DayNumberAt(s, 4).None?;
    forall j | 0 <= j < |s| ensures MatchAt(DayNumber, s, j).None? {
      assert MatchAt(DayNumber, s, j) == DayNumberAt(s, j);
      if j != 4 {
        assert !Boundary(s, j) || !IsDigit(s[j]);
      }
    }
  }

  lemma AugScanYears(s: string)
    requires s == "aug 2012"
    ensures MaybeYears(s, State(NoDate, false, false, false)) == State(NoDate.(year := Some(2012)), true, false, false)
  {
    AugYearAt(s);
    AugYearDigits(s);
    assert '&' !in s && '\'' !in s;
    NoApostropheYear(s);
  }

  lemma AugScanMonths(s: string)
    requires s == "aug 2012"
    ensures var st := State(NoDate.(year := Some(2012)), true, false, false);
      MaybeMonths(s, st) == st.(date := st.date.(month := Some(8)), months := true)
  {
    var st := State(NoDate.(year := Some(2012)), true, false, false);
    AugNoLong(s);
    AugShort(s);
    var r := MaybeMonths(s, st);
    OnlyMonthName(s, 0, ShortMonthNames, 7, r.date.month.value - 1);
  }

  lemma AugScan(s: string)
    requires s == "aug 2012"
    ensures Scan(s) == State(ParsedDate(Some(2012), Some(8), None, false), true, true, false)
  {
    AugScanYears(s);
    AugScanMonths(s);
    AugNoDay(s);
    NoDayNumber(s, State(ParsedDate(Some(2012), Some(8), None, false), true, true, false));
  }

  lemma AugNoSplit(s: string)
    requires s == "aug 2012"
    ensures !Splits(s, US) && !Splits(s, UK)
  {
    NoDelimiters(s);
  }

  lemma AugNoSimple(s: string)
    requires s == "aug 2012"
    ensures SimpleDate(s).None?
  {
    forall p, r | 0 <= p < r < |s| && IsDigit(s[p]) ensures !IsAlpha(s[r]) {
      assert 4 <= p;
    }
    NoLetterAfterDigit(s);
  }

  /** 'aug 2012' is August 1st, 2012, marked as a range. */
  lemma YearAndMonth(s: string, env: Env)
    requires s == "aug 2012"
    ensures FindDate(s, env) == Some(ParsedDate(Some(2012), Some(8), Some(1), true))
  {
    AugNoSplit(s);
    AugScan(s);
    AugNoSimple(s);
    YearMonthAnswer(s, env);
  }

  // ---------------------------------------------------------------------------
  // '16th': a day alone
  // ---------------------------------------------------------------------------

  lemma SixteenthNoYear(s: string)
    requires s == "16th"
    ensures Leftmost(FullYear, s, 0).None?
  {
    forall j | 0 <= j < |s| ensures MatchAt(FullYear, s, j).None? {
      assert !DigitsAt(s, j, 4);
    }
  }

  lemma SixteenthNoName(s: string, pat: Pattern)
    requires s == "16th"
    requires pat == FullMonthWord || pat == ShortMonthWord
    ensures Leftmost(pat, s, 0).None?
  {
    forall j | 0 <= j < |s| ensures MatchAt(pat, s, j).None? {
      NameStartAt(s, j, pat);
      if j < 2 {
        assert !IsAlpha(s[j]);
      } else {
        assert IsWord(s[j - 1]) && IsWord(s[j]);
      }
    }
  }

  lemma SixteenthDay(s: string)
    requires s == "16th"
    ensures DayCandidate(s, 0) && TokenValue(s, 0) == 16
  {
    var g := DayNumberAt(s, 0).value.groups[1];
    assert g == s[0..2];
    TwoDigitsValue(g);
  }

  lemma SixteenthScan(s: string)
    requires s == "16th"
    ensures Scan(s) == State(ParsedDate(None, None, Some(16), false), false, false, true)
  {
    SixteenthNoYear(s);
    assert '&' !in s && '\'' !in s;
    NoApostropheYear(s);
    SixteenthNoName(s, FullMonthWord);
    SixteenthNoName(s, ShortMonthWord);
    var st := State(NoDate, false, false, false);
    NoMonthWord(s, st);
    SixteenthDay(s);
    FirstCandidateDay(s, 0, st);
  }

  lemma SixteenthNoSplit(s: string)
    requires s == "16th"
    ensures !Splits(s, US) && !Splits(s, UK)
  {
    NoDelimiters(s);
  }

  lemma SixteenthNoSimple(s: string)
    requires s == "16th"
    ensures SimpleDate(s).None?
  {
    forall j | 0 <= j < |s| ensures MatchAt(DayMonthYear, s, j).None? {
      assert MatchAt(DayMonthYear, s, j) == SimpleDateAt(s, j);
      if j < 2 {
        assert NonAlnumEnd(s, 4) == 4;
      } else {
        assert !DigitsAt(s, j, 1);
      }
    }
  }

  /** '16th' is the 16th of the current month and year when `strtotime`
      cannot read it. */
  lemma DayAlone(s: string, env: Env)
    requires s == "16th" && env.strtotime.None?
    ensures FindDate(s, env) == Some(ParsedDate(Some(env.todayYear), Some(env.todayMonth), Some(16), false))
  {
    SixteenthNoSplit(s);
    SixteenthScan(s);
    SixteenthNoSimple(s);
    DayOnlyAnswer(s, env);
  }

  // ---------------------------------------------------------------------------
  // Shared facts about month names
  // ---------------------------------------------------------------------------

  /** An abbreviation that runs on into more word characters is no
      word-bounded match. */
  lemma AbbreviationRunsOn(s: string, p: nat, i: nat)
    requires i < 12 && MatchesCI(s, p, ShortMonthNames[i]) && !Boundary(s, p + 3)
    ensures MatchAt(ShortMonthWord, s, p).None?
  {
    assert |ShortMonthNames[i]| == 3;
    forall j | 0 <= j < 12 ensures !NameFits(s, p, ShortMonthNames[j], true) {
      if MatchesCI(s, p, ShortMonthNames[j]) {
        OnlyMonthName(s, p, ShortMonthNames, j, i);
      }
    }
    assert MatchAt(ShortMonthWord, s, p) == NameAt(s, p, ShortMonthNames, true);
  }

  /** A long month name at `p`, with word boundaries on both sides, is a
      match of the full-name pattern there. */
  lemma LongNameMatch(s: string, p: nat, i: nat)
    requires i < 12 && MatchesCI(s, p, LongMonthNames[i])
    requires Boundary(s, p) && Boundary(s, p + |LongMonthNames[i]|)
    ensures MatchAt(FullMonthWord, s, p).Some?
  {
    FirstNameFits(s, p, LongMonthNames, i, true);
    assert MatchAt(FullMonthWord, s, p) == NameAt(s, p, LongMonthNames, true);
  }

  // ---------------------------------------------------------------------------
  // '64/08/1960': no month has a 64th day
  // ---------------------------------------------------------------------------

  lemma SixtyFourPieces(s: string)
    requires s == "64/08/1960"
    ensures Explode(s, '/') == ["64", "08", "1960"]
  {
    Pieces(s, "64", "08", "1960", '/');
  }

  lemma ReadsSixtyFour()
    ensures IntCast("64") == 64
  {
    ReadsTwoDigits("64");
  }

  /** No month has more than 31 days. */
  lemma DayPastThirtyFirst(s: string, l: Layout)
    requires Splits(s, l)
    requires var f := Explode(s, Delimiter(l)); IntCast(f[DayField(l)]) > 31
    ensures !Accepts(s, l)
  {
    var f := Explode(s, Delimiter(l));
    CheckDateBounds(IntCast(f[MonthField(l)]), IntCast(f[DayField(l)]), IntCast(f[2]));
  }

  /** There is no 64th of August, so the UK check rejects the text. */
  lemma SixtyFourNotUk(s: string)
    requires s == "64/08/1960"
    ensures !Accepts(s, UK)
  {
    SixtyFourPieces(s);
    ReadsSixtyFour();
    DayPastThirtyFirst(s, UK);
  }

  lemma SixtyFourNotUs(s: string)
    requires s == "64/08/1960"
    ensures !Splits(s, US)
  {
    ExplodeFree(s, '-');
  }

  lemma SixtyFourNoLetters(s: string)
    requires s == "64/08/1960"
    ensures SimpleDate(s).None? && Leftmost(ShortMonthAnywhere, s, 0).None?
  {
    forall i | 0 <= i < |s| ensures !IsAlpha(s[i]) {
      assert s[i] in "0123456789/";
    }
    NoLettersNoSimpleDate(s);
    LetterFreeNoName(s, ShortMonthAnywhere);
  }

  /** "1960" is a stand-alone year and "08" a day number worth 8. */
  lemma SixtyFourScan(s: string)
    requires s == "64/08/1960"
    ensures Scan(s).years && Scan(s).days
  {
    var t := s[6..10];
    forall i | 0 <= i < |t| ensures IsDigit(t[i]) {
      assert t[i] in "0123456789";
    }
    DigitsAtSlice(s, 6, 4);
    assert MatchAt(FullYear, s, 6).Some?;
    var g := DayNumberAt(s, 3).value.groups[1];
    assert g == s[3..5];
    TwoDigitsValue(g);
    ScanYearsAndDays(s, 6, 3);
  }

  /** '64/08/1960' is rejected when the date library rejects it too and
      `strtotime` gives no timestamp. */
  lemma SixtyFourDate(s: string, env: Env)
    requires s == "64/08/1960"
    requires !ParseAccepted(env.dateParse) && Seconds(env.strtotime) == 0
    ensures FindDate(s, env).None?
  {
    SixtyFourNotUs(s);
    SixtyFourNotUk(s);
    SixtyFourNoLetters(s);
    SixtyFourScan(s);
    NothingFound(s, env);
  }

  // ---------------------------------------------------------------------------
  // '1969 december': a year, then a month name
  // ---------------------------------------------------------------------------

  lemma LateYearAt(s: string)
    requires s == "1969 december"
    ensures Leftmost(FullYear, s, 0) == Some(0) && DigitsValue(s[0..4]) == 1969
  {
    var t := s[0..4];
    forall i | 0 <= i < |t| ensures IsDigit(t[i]) {
      assert t[i] in "0123456789";
    }
    DigitsAtSlice(s, 0, 4);
    assert MatchAt(FullYear, s, 0).Some?;
    LeftmostIs(FullYear, s, 0, 0);
    FourDigitsValue(t);
    TwoDigitsValue(t[..2]);
  }

  lemma LateScanYears(s: string)
    requires s == "1969 december"
    ensures MaybeYears(s, State(NoDate, false, false, false)) == State(NoDate.(year := Some(1969)), true, false, false)
  {
    LateYearAt(s);
    LatePlain(s);
    PlainYear(s, 0, 1969);
  }

  lemma LatePlain(s: string)
    requires s == "1969 december"
    ensures '&' !in s && '\'' !in s
  {
  }

  lemma LateName(s: string)
    requires s == "1969 december"
    ensures MatchesCI(s, 5, LongMonthNames[11])
  {
  }

  lemma LateNoLongBefore(s: string, j: nat)
    requires s == "1969 december" && j < 5
    ensures MatchAt(FullMonthWord, s, j).None?
  {
    NameStartAt(s, j, FullMonthWord);
    assert !IsAlpha(s[j]);
  }

  lemma LateLongName(s: string)
    requires s == "1969 december"
    ensures Leftmost(FullMonthWord, s, 0) == Some(5) && MatchesCI(s, 5, LongMonthNames[11])
  {
    LateName(s);
    assert Boundary(s, 5) && Boundary(s, 13);
    LongNameMatch(s, 5, 11);
    forall j | 0 <= j < 5 ensures MatchAt(FullMonthWord, s, j).None? {
      LateNoLongBefore(s, j);
    }
    LeftmostIs(FullMonthWord, s, 0, 5);
  }

  /** "dec" at the start of "december" is no abbreviation: no word boundary
      follows it. */
  lemma LateDecRunsOn(s: string)
    requires s == "1969 december"
    ensures MatchAt(ShortMonthWord, s, 5).None?
  {
    assert MatchesCI(s, 5, ShortMonthNames[11]) && !Boundary(s, 8);
    AbbreviationRunsOn(s, 5, 11);
  }

  lemma LateNoShort(s: string)
    requires s == "1969 december"
    ensures Leftmost(ShortMonthWord, s, 0).None?
  {
    LateDecRunsOn(s);
    forall j | 0 <= j < |s| && j != 5 ensures MatchAt(ShortMonthWord, s, j).None? {
      NameStartAt(s, j, ShortMonthWord);
      if j < 5 {
        assert !IsAlpha(s[j]);
      } else {
        assert IsWord(s[j - 1]) && IsWord(s[j]);
      }
    }
  }

  lemma LateNoDayAtStart(s: string)
    requires s == "1969 december"
    ensures MatchAt(DayNumber, s, 0).None?
  {
    assert MatchAt(DayNumber, s, 0) == DayNumberAt(s, 0);
    assert !Boundary(s, 1) && !Boundary(s, 2) && !SuffixAt(s, 1, false) && !SuffixAt(s, 2, false);
  }

  lemma LateNoDayInYear(s: string, j: nat)
    requires s == "1969 december" && 0 < j < 4
    ensures MatchAt(DayNumber, s, j).None?
  {
    assert MatchAt(DayNumber, s, j) == DayNumberAt(s, j);
    assert !Boundary(s, j);
  }

  lemma LateNoDay(s: string)
    requires s == "1969 december"
    ensures Leftmost(DayNumber, s, 0).None?
  {
    LateNoDayAtStart(s);
    forall j | 0 < j < |s| ensures MatchAt(DayNumber, s, j).None? {
      if j < 4 {
        LateNoDayInYear(s, j);
      } else {
        assert MatchAt(DayNumber, s, j) == DayNumberAt(s, j);
        assert !IsDigit(s[j]);
      }
    }
  }

  lemma LateScan(s: string)
    requires s == "1969 december"
    ensures Scan(s) == State(ParsedDate(Some(1969), Some(12), None, false), true, true, false)
  {
    LateScanYears(s);
    var st := State(NoDate.(year := Some(1969)), true, false, false);
    LateLongName(s);
    LateNoShort(s);
    var r := MaybeMonths(s, st);
    OnlyMonthName(s, 5, LongMonthNames, 11, r.date.month.value - 1);
    LateNoDay(s);
    NoDayNumber(s, State(ParsedDate(Some(1969), Some(12), None, false), true, true, false));
  }

  lemma LateNoSplit(s: string)
    requires s == "1969 december"
    ensures !Splits(s, US) && !Splits(s, UK)
  {
    NoDelimiters(s);
  }

  lemma LateNoSimple(s: string)
    requires s == "1969 december"
    ensures SimpleDate(s).None?
  {
    forall p, r | 0 <= p < r < |s| && IsAlpha(s[p]) ensures !IsDigit(s[r]) {
      assert 5 <= p;
    }
    NoDigitAfterLetter(s);
  }

  /** '1969 december' is December 1st, 1969, marked as a range: "dec"
      inside "december" is no abbreviation, and the year before the month
      name makes no simple date. */
  lemma YearThenMonth(s: string, env: Env)
    requires s == "1969 december"
    ensures FindDate(s, env) == Some(ParsedDate(Some(1969), Some(12), Some(1), true))
  {
    LateNoSplit(s);
    LateScan(s);
    LateNoSimple(s);
    YearMonthAnswer(s, env);
  }

  // ---------------------------------------------------------------------------
  // "December '61": an apostrophe year, quote-encoded by the sanitiser
  // ---------------------------------------------------------------------------

  /** The sanitiser turns the apostrophe into its numeric entity. */
  lemma QuotedEncoding()
    ensures EncodeQuotes("December '61") == "December &#39;61"
  {
    assert "December '61" == "December " + "'61";
    EncodeAfterPlain("December ", "'61");
    EncodeAfterPlain("61", "");
    assert "'61"[1..] == "61" + "";
  }

  /** Decoding gives the apostrophe back. */
  lemma QuotedText(s: string)
    requires s == "December &#39;61"
    ensures DecodeQuotes(s) == "December '61"
  {
    assert s == "December " + "&#39;61";
    DecodeAfterPlain("December ", "&#39;61");
    var x := "&#39;61";
    assert x[..5] == "&#39;" && x[5..] == "61";
    DecodePlain("61");
  }

  /** In the decoded text, " '61" is the first apostrophe year. */
  lemma QuotedYearAt(t: string)
    requires t == "December '61"
    ensures Leftmost(ApostropheYear, t, 0) == Some(8)
    ensures DigitsValue(t[10..12]) == 61
  {
    assert MatchAt(ApostropheYear, t, 8).Some?;
    forall j | 0 <= j < 8 ensures MatchAt(ApostropheYear, t, j).None? {
      assert t[j + 1] != '\'';
    }
    LeftmostIs(ApostropheYear, t, 0, 8);
    TwoDigitsValue(t[10..12]);
  }

  lemma QuotedScanYears(s: string)
    requires s == "December &#39;61"
    ensures MaybeYears(s, State(NoDate, false, false, false)) == State(NoDate.(year := Some(1961)), true, false, false)
  {
    QuotedText(s);
    QuotedYearAt(DecodeQuotes(s));
  }

  lemma QuotedLongName(s: string)
    requires s == "December &#39;61"
    ensures Leftmost(FullMonthWord, s, 0) == Some(0) && MatchesCI(s, 0, LongMonthNames[11])
  {
    assert MatchesCI(s, 0, LongMonthNames[11]);
    LongNameMatch(s, 0, 11);
    LeftmostIs(FullMonthWord, s, 0, 0);
  }

  /** "dec" at the start of "December" is no abbreviation: no word boundary
      follows it. */
  lemma QuotedDecRunsOn(s: string)
    requires s == "December &#39;61"
    ensures MatchAt(ShortMonthWord, s, 0).None?
  {
    assert MatchesCI(s, 0, ShortMonthNames[11]) && !Boundary(s, 3);
    AbbreviationRunsOn(s, 0, 11);
  }

  lemma QuotedNoShortInName(s: string, j: nat)
    requires s == "December &#39;61" && 0 < j < 8
    ensures MatchAt(ShortMonthWord, s, j).None?
  {
    NameStartAt(s, j, ShortMonthWord);
    assert IsWord(s[j - 1]) && IsWord(s[j]);
  }

  lemma QuotedNoShortAfter(s: string, j: nat)
    requires s == "December &#39;61" && 8 <= j < |s|
    ensures MatchAt(ShortMonthWord, s, j).None?
  {
    NameStartAt(s, j, ShortMonthWord);
    assert !IsAlpha(s[j]);
  }

  lemma QuotedNoShort(s: string)
    requires s == "December &#39;61"
    ensures Leftmost(ShortMonthWord, s, 0).None?
  {
    QuotedDecRunsOn(s);
    forall j | 0 < j < |s| ensures MatchAt(ShortMonthWord, s, j).None? {
      if j < 8 {
        QuotedNoShortInName(s, j);
      } else {
        QuotedNoShortAfter(s, j);
      }
    }
  }

  /** The day numbers "39" and "61" are no days of the month. */
  lemma QuotedNoDay(s: string)
    requires s == "December &#39;61"
    ensures forall p :: 0 <= p < |s| ==> !DayCandidate(s, p)
  {
    forall p | 0 <= p < |s| ensures !DayCandidate(s, p) {
      if p == 11 || p == 14 {
        var g := DayNumberAt(s, p).value.groups[1];
        assert g == s[p..p + 2];
        TwoDigitsValue(g);
      } else if p == 12 || p == 15 {
        assert !Boundary(s, p);
      } else {
        assert !IsDigit(s[p]);
      }
    }
  }

  lemma QuotedScan(s: string)
    requires s == "December &#39;61"
    ensures Scan(s) == State(ParsedDate(Some(1961), Some(12), None, false), true, true, false)
  {
    QuotedScanYears(s);
    var st := State(NoDate.(year := Some(1961)), true, false, false);
    QuotedLongName(s);
    QuotedNoShort(s);
    var r := MaybeMonths(s, st);
    OnlyMonthName(s, 0, LongMonthNames, 11, r.date.month.value - 1);
    QuotedNoDay(s);
    NoDayCandidate(s, State(ParsedDate(Some(1961), Some(12), None, false), true, true, false));
  }

  lemma QuotedNoSplit(s: string)
    requires s == "December &#39;61"
    ensures !Splits(s, US) && !Splits(s, UK)
  {
    NoDelimiters(s);
  }

  lemma QuotedNoSimple(s: string)
    requires s == "December &#39;61"
    ensures SimpleDate(s).None?
  {
    forall p, r | 0 <= p < r < |s| && IsDigit(s[p]) ensures !IsAlpha(s[r]) {
      assert 11 <= p;
    }
    NoLetterAfterDigit(s);
  }

  /** "December '61", as the sanitiser encodes it, is December 1st, 1961,
      marked as a range: the year is found in the decoded text. */
  lemma QuotedYear(s: string, env: Env)
    requires s == EncodeQuotes("December '61")
    ensures FindDate(s, env) == Some(ParsedDate(Some(1961), Some(12), Some(1), true))
  {
    QuotedEncoding();
    QuotedNoSplit(s);
    QuotedScan(s);
    QuotedNoSimple(s);
    YearMonthAnswer(s, env);
  }

  // ---------------------------------------------------------------------------
  // A sentence with two dates: the first one wins
  // ---------------------------------------------------------------------------

  lemma LennonDay(s: string)
    requires s == "John Lennon was born on the " + "9th October, 1940" + ". He was murdered on the 8th December, 1980."
    ensures s[28] == '9' && s[29..31] == "th" && s[31] == ' '
  {
  }

  lemma LennonMonth(s: string)
    requires s == "John Lennon was born on the " + "9th October, 1940" + ". He was murdered on the 8th December, 1980."
    ensures MatchesCI(s, 32, LongMonthNames[9])
  {
  }

  lemma LennonHead(s: string)
    requires s == "John Lennon was born on the " + "9th October, 1940" + ". He was murdered on the 8th December, 1980."
    ensures SimpleDateHeadFits(s, 28, Cuts(29, 31, 32, 9, 39))
  {
    LennonDay(s);
    LennonMonth(s);
  }

  lemma LennonYear(s: string)
    requires s == "John Lennon was born on the " + "9th October, 1940" + ". He was murdered on the 8th December, 1980."
    ensures AllDigits(s[41..45]) && DigitsValue(s[41..45]) == 1940
    ensures forall j :: 39 <= j < 41 ==> !IsAlnum(s[j])
  {
    var t := s[41..45];
    forall i | 0 <= i < |t| ensures IsDigit(t[i]) {
      assert t[i] in "0123456789";
    }
    FourDigitsValue(t);
    TwoDigitsValue(t[..2]);
    assert s[39] == ',' && s[40] == ' ';
  }

  lemma LennonReads(s: string)
    requires s == "John Lennon was born on the " + "9th October, 1940" + ". He was murdered on the 8th December, 1980."
    ensures SimpleDateReads(s, 28, 9, 10, 1940)
  {
    LennonHead(s);
    LennonYear(s);
    SimpleDateFoundReads(s, 28, Cuts(29, 31, 32, 9, 39), 41);
    OneDigitValue(s, 28);
  }

  lemma OneDigitValue(s: string, p: nat)
    requires p < |s| && IsDigit(s[p])
    ensures DigitsValue(s[p..p + 1]) == DigitValue(s[p])
  {
    assert s[p..p + 1] == [s[p]] && [s[p]][..0] == [];
  }

  /** A simple date starts with a digit, so one that has no digit before
      it is the leftmost. */
  lemma FirstDigitDate(s: string, p: nat)
    requires SimpleDateAt(s, p).Some?
    requires forall j :: 0 <= j < p ==> !IsDigit(s[j])
    ensures Leftmost(DayMonthYear, s, 0) == Some(p)
  {
    assert MatchAt(DayMonthYear, s, p) == SimpleDateAt(s, p);
    forall j | 0 <= j < p ensures MatchAt(DayMonthYear, s, j).None? {
      assert MatchAt(DayMonthYear, s, j) == SimpleDateAt(s, j);
    }
    LeftmostIs(DayMonthYear, s, 0, p);
  }

  lemma LennonNoDigitBefore(s: string, j: nat)
    requires s == "John Lennon was born on the " + "9th October, 1940" + ". He was murdered on the 8th December, 1980."
    requires j < 28
    ensures !IsDigit(s[j])
  {
  }

  /** No digit comes before the first date, so no match starts earlier. */
  lemma LennonFirst(s: string)
    requires s == "John Lennon was born on the " + "9th October, 1940" + ". He was murdered on the 8th December, 1980."
    ensures Leftmost(DayMonthYear, s, 0) == Some(28)
  {
    LennonReads(s);
    forall j | 0 <= j < 28 ensures !IsDigit(s[j]) {
      LennonNoDigitBefore(s, j);
    }
    FirstDigitDate(s, 28);
  }

  /** Of the two dates in the sentence, the first is the answer: October
      9th, 1940. */
  lemma FirstOfTwoDates(s: string, env: Env)
    requires s == "John Lennon was born on the " + "9th October, 1940" + ". He was murdered on the 8th December, 1980."
    ensures FindDate(s, env) == Some(ParsedDate(Some(1940), Some(10), Some(9), false))
  {
    LennonFirst(s);
    LennonReads(s);
    SimpleDateAnswer(s, 28, 9, 10, 1940);
  }
}

# dateFinder in Dafny

A model of the PHP class `dateFinder`. The class takes one string, such as
`'7th December, 1969'`, `'12-08-1980'` or `'aug 2012'`, and finds a calendar
date in it. It returns an array with `year`, `month` and `day`. A `range`
key is added when the date lacks day granularity. When nothing is found it
returns `false`.

`findDate` tries its stages in a fixed order:

1. `simpleDate`: an exact day/month-name/year pattern, checked with
   `checkdate`.
2. The signal scanners. `maybeYears`, `maybeMonths` and `maybeDays` fill
   `parsedDate` and set three flags.
3. Four granularity branches:
   - a year alone;
   - a year and a month;
   - a month alone;
   - a day alone.
   Each branch fires only when both fixed-format checks fail.
4. The fixed formats. `checkUSFQD` reads `m-d-y`; `checkUKFQD` reads
   `d/m/y`.
5. `fuzzyLogic`, which has three tiers:
   - the `date_parse` result;
   - the `strtotime` result;
   - a manual reassembly from the first month abbreviation, the first
     ordinal day and the first four digits.

## Modules

Each module is one file:

- `Text` (text.dfy): character classes, `strtolower`, PHP's `(int)` cast,
  `is_numeric`, `explode`, truthiness, and the quote entities.
- `Calendar` (calendar.dfy): `checkdate`.
- `Patterns` (patterns.dfy): every regular expression of the class, as a
  matcher at one position. Also the leftmost search that `preg_match`
  performs.
- `DateState` (state.dfy): `parsedDate`, the three flags, and the outside
  world.
- `Scanners` (scanners.dfy): `simpleDate` and the three scanners.
- `FixedFormats` (fixed.dfy): `checkUSFQD` and `checkUKFQD`.
- `Fuzzy` (fuzzy.dfy): `fuzzyLogic`.
- `DateFinder` (finder.dfy): `findDate` and the properties of the whole
  pipeline.
- `UnitTests` (unit_tests.dfy): entries of the class's own `unitTests`
  table, proved about the model.

## The outside world

Everything the class asks of the outside world about one input is a
parameter, the `Env` datatype:

- `date('Y')` and `date('n')`;
- the record returned by `date_parse`;
- the result of `getdate(strtotime(...))`, where None stands for a failed
  `strtotime`.

The proofs hold for every value of these parameters. A property that
depends on them takes them as a hypothesis.

## Code versus description

Where the class's prose description and its code differ, the model follows
the code:

- An apostrophe year (`'63`) overrides a four-digit year found earlier.
- `'05` becomes 19005 and not 1905, because the prefix `"190"` is glued to
  both digits.
- A month abbreviation found by `maybeMonths` overwrites a full month name
  found before it.
- `checkUSFQD` and `checkUKFQD` empty `parsedDate` whenever the split gives
  three pieces, even when they then fail. They run inside the granularity
  branches too, so a failed check there can erase what the scanners found.
- The range tests on the first two fields (`< 1 && > 12`) can never hold, so
  they reject nothing. Only `is_numeric` on the year and `checkdate` decide.
- A timestamp that fails `checkdate` ends `fuzzyLogic` with `false`. It does
  not fall through to the manual reassembly; only a zero timestamp does.

## Model

| member | source | states |
|---|---|---|
| Text.DecodeQuotes | dateFinder.php:102 | decoding never lengthens the string |
| Text.DecodeEncodeQuotes | dateFinder.php:102 | `html_entity_decode` undoes the quote encoding of the string sanitiser on any string without `&` |
| Text.DecodePlain | dateFinder.php:102 | a string without `&` is left alone by the decoding |
| Text.DecodeAfterPlain | dateFinder.php:102 | a prefix without `&` comes through the decoding unchanged, whatever follows it |
| Text.EncodeAfterPlain | dateFinder.php:38 | a prefix without quotes comes through the sanitiser's quote encoding unchanged, whatever follows it |
| Text.Explode | dateFinder.php:152 | `explode` gives one more piece than there are delimiters, and no piece contains the delimiter |
| Text.JoinExplode | dateFinder.php:152 | joining the pieces of `explode` with the delimiter gives the original string back |
| Text.ExplodeJoin | dateFinder.php:152 | exploding delimiter-free pieces joined by the delimiter gives the pieces back |
| Text.DigitsCast | dateFinder.php:160 | a digit string is `is_numeric`, and `(int)` reads it as its decimal value |
| Calendar.DaysInMonth | dateFinder.php:160 | months have 28 to 31 days; February has 29 exactly in leap years; April, June, September and November have 30 |
| Calendar.CheckDateBounds | dateFinder.php:90 | `checkdate` accepts only months 1..12, days 1..31 and years 1..32767; February 29th only in leap years; the 31st only in the seven long months |
| Patterns.ArraySearch | dateFinder.php:89 | `array_search` returns the first index holding the value, and fails exactly when the value is absent |
| Patterns.FirstName | dateFinder.php:87 | the alternation `(january\|...)` takes the first listed name that fits, and none before it fits |
| Patterns.FirstNameFits | dateFinder.php:87 | any month name that fits at a position is the one the alternation picks |
| Patterns.OnlyMonthName | dateFinder.php:121 | at most one month name of a list matches at a position |
| Patterns.MonthPrefix | dateFinder.php:36 | each abbreviation is the first three letters of its long name |
| Patterns.MonthPrefixesDistinct | dateFinder.php:33-36 | no two months share their first three letters, so `array_search` on the abbreviations is unambiguous |
| Patterns.NameStart | dateFinder.php:121 | a month-name match starts on a letter, at a word boundary when the pattern has `\b` |
| Patterns.LetterFreeNoName | dateFinder.php:228 | a text without letters holds no month name, bounded or not |
| Patterns.SimpleDateAt | dateFinder.php:87 | a match of the `simpleDate` pattern spans from its start to its end, has seven groups, and group 0 is the matched text |
| Patterns.SimpleDateAtShape | dateFinder.php:87 | a match has one or two day digits in group 1, a long month name in group 4 and four digits in group 6 |
| Patterns.SimpleDateLetter | dateFinder.php:87 | every `simpleDate` match contains a letter, the first of its month name |
| Patterns.SimpleDateHeadCuts | dateFinder.php:87 | the pattern takes two day digits when there are two, and the suffix when there is one |
| Patterns.SimpleDateFound | dateFinder.php:87 | whenever the text holds day digits, an optional suffix, a separator, a long month name, a separator and four digits, `simpleDate` reports exactly that match |
| Patterns.SimpleDateFoundHead | dateFinder.php:87 | any way of cutting the text into day digits, suffix, separator and month name is the one the pattern takes |
| Patterns.SimpleDateTailFound | dateFinder.php:87 | a separator followed by four digits after the month name completes the match, ending after the digits |
| Patterns.NonAlnumEndIs | dateFinder.php:87 | a `[^A-Za-z0-9]+` run stops at the first letter or digit |
| Patterns.SimpleDateYearDigit | dateFinder.php:87 | every `simpleDate` match has a letter with a digit somewhere after it |
| Patterns.LongNameAtFits | dateFinder.php:87 | a long month name present at a position is the one the alternation reports |
| Patterns.FullYearAt | dateFinder.php:101 | `\b(\d{4})\b` matches exactly four digits with a word boundary on each side |
| Patterns.ApostropheYearAt | dateFinder.php:103 | the apostrophe pattern matches white space, a quote and two digits followed by a word boundary |
| Patterns.NameAt | dateFinder.php:121 | a month-word match is the first listed name that fits, at a boundary when the pattern is bounded |
| Patterns.NameAtReads | dateFinder.php:121-122 | the matched text, lower-cased, is the name found, and no other listed name matches there |
| Patterns.DayNumberAt | dateFinder.php:138 | a day-number match starts at a word boundary with one or two digits, an optional suffix and a closing boundary; and whenever the text at a word boundary holds one or two digits closed by a boundary, directly or after a lower-case suffix, a match is reported |
| Patterns.DayNumbersDisjoint | dateFinder.php:138 | day-number matches never overlap, so trying every position finds the same list as `preg_match_all` |
| Patterns.OrdinalDayAt | dateFinder.php:232 | the ordinal-day pattern reads one or two digits followed by a lower-case suffix, and it matches exactly when such digits and a suffix start there |
| Patterns.FourDigitsAt | dateFinder.php:234 | `[0-9]{4}` matches exactly where four digits start |
| Patterns.Leftmost | dateFinder.php:87 | `preg_match` reports the leftmost match: there is a match there, none before it, and none at all when it fails |
| Patterns.FirstMatch | dateFinder.php:87 | the first match exists exactly when the pattern matches somewhere, and it is the match at the leftmost position |
| Scanners.SimpleDate | dateFinder.php:85-96 | a found date is valid and is the reading of the leftmost match; a failure means no match, or a leftmost match that `checkdate` rejects |
| Scanners.SimpleReading | dateFinder.php:89-93 | the cast day, the month's place plus one and the cast year are the one reading of a match |
| Scanners.SimpleDateFoundReads | dateFinder.php:87-93 | day digits, a month name and four year digits laid out as the pattern wants are read as the day's value, the month's place plus one and the year's value |
| Scanners.SimpleDateAnswer | dateFinder.php:85-96 | a leftmost match reading as a valid date is exactly the answer |
| Scanners.ExpandYearValue | dateFinder.php:107 | an expanded apostrophe year is truthy and casts to 19000 + n for n <= 9, else 1900 + n |
| Scanners.NoApostropheYear | dateFinder.php:102-103 | a text without quotes or entities holds no apostrophe year |
| Scanners.MaybeYears | dateFinder.php:99-116 | `years` is set exactly when a four-digit year or an apostrophe year exists; the apostrophe year wins; nothing but the year changes |
| Scanners.MonthIndex | dateFinder.php:121-123 | `array_search` finds the matched name whenever the month pattern matches, at a place below 12 whose name matches there |
| Scanners.RecordMonth | dateFinder.php:121-127 | a month-word match sets the month to the matched name's month and the flag; no match changes nothing |
| Scanners.MaybeMonths | dateFinder.php:119-135 | `months` is set exactly when a full name or an abbreviation is found; the abbreviation's month wins over the full name's |
| Scanners.NoMonthWord | dateFinder.php:119-135 | without month words `maybeMonths` only clears the flag |
| Scanners.CastDayAt | dateFinder.php:142 | the `(int)` cast of a day token is its decimal value |
| Scanners.FirstDay | dateFinder.php:140-147 | the chosen token is the first whose value lies in 1..31; none before it qualifies; no choice means none qualifies |
| Scanners.MaybeDays | dateFinder.php:137-149 | `days` is set exactly when some token is worth 1..31, and then the day is the first such token's value |
| Scanners.FirstCandidateDay | dateFinder.php:141-145 | the first token worth 1..31 gives the day |
| Scanners.NoDayNumber | dateFinder.php:138-140 | without day tokens `maybeDays` only clears the flag |
| Scanners.NoDayCandidate | dateFinder.php:137-149 | when no day token is worth 1..31, `maybeDays` only clears the flag |
| FixedFormats.CheckFixed | dateFinder.php:151-199 | a check succeeds exactly when the split has three pieces, the year is numeric and `checkdate` holds; it then returns that date; a three-way split always empties `parsedDate`, any other split changes nothing |
| FixedFormats.Format | dateFinder.php:152 | a date written in a layout uses only digits and that layout's delimiter |
| FixedFormats.FormatFields | dateFinder.php:152-163 | a written date splits back into its three numbers |
| FixedFormats.FixedRoundTrip | dateFinder.php:151-174 | a valid date written in a layout is read back exactly by that layout's check |
| FixedFormats.OtherLayoutIgnores | dateFinder.php:176-180 | the other layout's check fails on it and changes nothing |
| Fuzzy.ManualMonthValue | dateFinder.php:228-231 | the month is the first abbreviation's place plus one, the only month the text names that way, or 0 when there is none |
| Fuzzy.ManualMonthFacts | dateFinder.php:228-231 | the first abbreviation is truthy and names exactly one month |
| Fuzzy.AbbreviationNumber | dateFinder.php:231 | `array_search` of a lower-cased abbreviation, plus one, is its month number |
| Fuzzy.ShortNamesDistinct | dateFinder.php:36 | two equal abbreviations belong to the same month |
| Fuzzy.ManualDayValue | dateFinder.php:232-233 | the day is the number before the first ordinal suffix, or nothing when it is missing or "0" |
| Fuzzy.ManualDayFacts | dateFinder.php:232-233 | the ordinal digits cast to their value, which is truthy unless it is 0 |
| Fuzzy.ManualYearValue | dateFinder.php:234-235 | the year is the value of the first four digits, or nothing |
| Fuzzy.ManualYearFacts | dateFinder.php:234-235 | the first four digits are truthy and cast to the manual year |
| Fuzzy.Reassemble | dateFinder.php:227-247 | the reassembly succeeds exactly when month, day and year are all found and form a valid date, and it returns exactly those |
| Fuzzy.FuzzyLogic | dateFinder.php:201-254 | which tier answers, as an if-and-only-if on the inputs, and what each tier returns: the `date_parse` fields with `range` for an undated 1st; a checked timestamp with the day forced to 1 in the source's two cases; a checked reassembly |
| DateFinder.Guard | dateFinder.php:54 | the short-circuit condition holds exactly when the flag test passes and both checks fail; the checks then leave `parsedDate` as a failed check leaves it |
| DateFinder.Run | dateFinder.php:45-83 | nothing is found exactly when the stage is `NotFound` |
| DateFinder.Branches | dateFinder.php:54-77 | each granularity branch fires exactly on its flag pattern when both checks fail, and returns its date; otherwise the closing lines answer |
| DateFinder.Finish | dateFinder.php:79-82 | the US check answers exactly when it accepts, then the UK one, then `fuzzyLogic` |
| DateFinder.FinishDepends | dateFinder.php:79-81 | the closing lines see the state only through the flags and what the checks leave of it |
| DateFinder.FindDate | dateFinder.php:45-83 | a simple date is always the answer; `false` means no simple date and neither fixed format |
| DateFinder.ScanNoRange | dateFinder.php:99-149 | the scanners never set `range` |
| DateFinder.FixedWins | dateFinder.php:79-80 | once `simpleDate` fails, the US check answers exactly when it accepts, and then the UK check, whatever the scanners found |
| DateFinder.RangeMeansFirstDay | dateFinder.php:55-70 | whenever `range` is set, the day is 1 |
| DateFinder.FinishRange | dateFinder.php:207 | past the granularity branches, `range` is only set on a 1st |
| DateFinder.CheckedStagesValid | dateFinder.php:45-83 | every stage that calls `checkdate` returns a full, valid date without `range` |
| DateFinder.FinishValid | dateFinder.php:79-81 | the checked stages of the closing lines return valid dates |
| DateFinder.GranularityBranches | dateFinder.php:54-71 | a year alone is January 1st, a year and a month is the 1st of the month, a month alone is its 1st this year; all marked as ranges and only when neither check accepts |
| DateFinder.GranularityKeepsScan | dateFinder.php:54-71 | the granularity branches keep the scanned year and month unless a three-way split emptied `parsedDate` |
| DateFinder.DayOnlyBranch | dateFinder.php:73-77 | a day alone is the scanned day in today's month and year, only when `strtotime` fails and nothing was split |
| DateFinder.DateParseRange | dateFinder.php:207 | a `date_parse` answer has `range` exactly when the scanners found no day and the day is 1 |
| DateFinder.NotFoundMeans | dateFinder.php:82 | `false` means every stage failed: no simple date, no fixed format, no usable `date_parse`, a timestamp failing `checkdate` or no valid reassembly |
| DateFinder.NoLettersNoSimpleDate | dateFinder.php:87 | a text without letters has no simple date |
| DateFinder.NoLetterAfterDigit | dateFinder.php:87 | a text with no letter after any digit has no simple date |
| DateFinder.NoDigitAfterLetter | dateFinder.php:87 | a text with no digit after any letter has no simple date |
| DateFinder.TimestampDay | dateFinder.php:216-221 | inside `findDate` the second test for the 1st (a month but no day and no year) never holds when the `strtotime` tier answers, because the month-only branch or a fixed format answers first; the day is forced to 1 only when no day was found and the timestamp fell on the 1st |
| DateFinder.UsAnswer | dateFinder.php:79 | once `simpleDate` fails, an accepted US text is answered with its three fields |
| DateFinder.UkAnswer | dateFinder.php:80 | once `simpleDate` and the US check fail, an accepted UK text is answered with its three fields |
| DateFinder.YearOnlyAnswer | dateFinder.php:54-58 | a year alone in an unsplit text is January 1st of that year, as a range |
| DateFinder.YearMonthAnswer | dateFinder.php:60-64 | a year and a month in an unsplit text are the 1st of that month, as a range |
| DateFinder.DayOnlyAnswer | dateFinder.php:73-77 | a day alone that `strtotime` cannot read is that day of the current month and year |
| DateFinder.RoundTripUS | dateFinder.php:151-164 | any valid date written `m-d-y` is found as exactly that date, whatever the library and the clock say |
| DateFinder.RoundTripUK | dateFinder.php:176-189 | any valid date written `d/m/y` is found as exactly that date |
| UnitTests.InvalidDate | dateFinder.php:263 | '02-31-1972' gives `false` when the date library rejects it too |
| UnitTests.UsDate | dateFinder.php:264 | '12-08-1980' is December 8th, 1980 |
| UnitTests.DecemberDate | dateFinder.php:265 | '7th December, 1969' is December 7th, 1969 |
| UnitTests.UkDate | dateFinder.php:266 | '7/12/69' is December 7th of year 69 |
| UnitTests.SixtyFourDate | dateFinder.php:267 | '64/08/1960' gives `false` when the date library rejects it too, because no month has a 64th day |
| UnitTests.YearAndMonth | dateFinder.php:268 | 'aug 2012' is August 1st, 2012, as a range |
| UnitTests.YearThenMonth | dateFinder.php:269 | '1969 december' is December 1st, 1969, as a range; "dec" inside "december" is no abbreviation |
| UnitTests.FirstOfTwoDates | dateFinder.php:292 | of two dates in one sentence the first, October 9th, 1940, is the answer |
| UnitTests.YearAlone | dateFinder.php:297 | '1914' is January 1st, 1914, as a range |
| UnitTests.DayAlone | dateFinder.php:299 | '16th' is the 16th of the current month and year |
| UnitTests.QuotedYear | dateFinder.php:302 | "December '61", with its apostrophe encoded by the sanitiser, is December 1st, 1961, as a range |

## Left out

- The constructor, `ini_set` and the empty-string guard are not modelled. The model starts from the string `findDate` reads.
- `FILTER_SANITIZE_STRING` is not modelled. Inputs are taken as the filter leaves them; only its quote encoding (`'` to `&#39;`, `"` to `&#34;`) appears, as `Text.EncodeQuotes`.
- `html_entity_decode` is reduced to the two quote entities that the sanitiser produces.
- The apostrophe class of `maybeYears` also lists the bytes of a mis-encoded right quote. The model has only `'`.
- Characters are modelled as single code points. PCRE without `/u` works on bytes, so multibyte input is not modelled.
- `date_parse`, `strtotime`, `getdate` and `date` are parameters (`Env`). Nothing is said about how PHP computes them.
- PHP's `(int)` cast is unbounded here: the 64-bit limit and saturation are not modelled, and neither are hexadecimal or exponent forms.
- `is_numeric` is modelled for integers with optional leading white space and sign and optional trailing white space. Decimal points and exponents are not modelled.
- `unitTests` and `unitTestHelper` only print, so they are not modelled. The entries of its table at lines 263 to 269, 292, 297, 299 and 302 are proved as lemmas of `UnitTests`. The other entries are not; many of them take their answer from `strtotime` or `date_parse`, which are parameters here.
- Patterns.SimpleDateAtShape: describes groups 1, 4 and 6 only, the groups `simpleDate` reads. It says nothing of the suffix and separator groups 2, 3 and 5.

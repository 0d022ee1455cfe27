/** The data the date finder threads through its stages, and the values it
    takes from PHP's date library and the clock. */
module DateState {
  import opened Text
  import opened Calendar

  /** The `parsedDate` array: keys `year`, `month` and `day` when set, and
      `range` (set only ever to true; false stands for the absent key). */
  datatype ParsedDate = ParsedDate(year: Option<int>, month: Option<int>, day: Option<int>, range: bool)

  /** The empty array. */
  const NoDate := ParsedDate(None, None, None, false)

  /** The object while `findDate` runs: the accumulator and the three signal
      flags written by `maybeYears`, `maybeMonths` and `maybeDays`. */
  datatype State = State(date: ParsedDate, years: bool, months: bool, days: bool)

  /** A full `{year, month, day}` array without `range` that passes `checkdate`. */
  predicate ValidDate(d: ParsedDate) {
    && d.year.Some? && d.month.Some? && d.day.Some? && !d.range
    && CheckDate(d.month.value, d.day.value, d.year.value)
  }

  /** What `date_parse` reports: error and warning counts, and each field as
      an integer or `false` (None). */
  datatype DateParse = DateParse(errorCount: int, warningCount: int, year: Option<int>, month: Option<int>, day: Option<int>)

  /** `getdate(strtotime(...))` for a string `strtotime` resolves: the
      timestamp (element 0) and the calendar fields `year`, `mon`, `mday`. */
  datatype Stamp = Stamp(seconds: int, year: int, mon: int, mday: int)

  /** Everything the date finder asks of the outside world about one input:
      today's year and month (`date('Y')`, `date('n')`), the result of
      `date_parse` and that of `strtotime` (None for `false`). */
  datatype Env = Env(todayYear: int, todayMonth: int, dateParse: DateParse, strtotime: Option<Stamp>)

  /** PHP truthiness of an integer-or-false field. */
  predicate IntTruthy(v: Option<int>) {
    v.Some? && v.value != 0
  }

  /** Which stage of `findDate` produced the answer. */
  datatype Stage =
    | Simple          // simpleDate
    | YearOnly        // first granularity branch
    | YearMonth       // second granularity branch
    | MonthOnly       // third granularity branch
    | DayOnly         // fourth granularity branch
    | FixedUS         // checkUSFQD
    | FixedUK         // checkUKFQD
    | FromDateParse   // fuzzyLogic, date_parse tier
    | FromTimestamp   // fuzzyLogic, strtotime tier
    | FromManual      // fuzzyLogic, manual reassembly tier
    | NotFound        // findDate returns false

  /** The answer of `findDate` (None for `false`) and the stage that gave it. */
  datatype Outcome = Outcome(result: Option<ParsedDate>, stage: Stage)

  /** A stage that may leave `parsedDate` changed and reports success. */
  datatype Step = Step(ok: bool, state: State)
}

/** The fixed-format detectors `checkUSFQD` (month-day-year split on '-')
    and `checkUKFQD` (day/month/year split on '/') of dateFinder.php. */
module FixedFormats {
  import opened Text
  import opened Calendar
  import opened DateState

  /** The two fixed layouts. */
  datatype Layout = US | UK

  function Delimiter(l: Layout): char {
    if l == US then '-' else '/'
  }

  /** Which of the first two fields holds the month; the other holds the day. */
  function MonthField(l: Layout): nat {
    if l == US then 0 else 1
  }

  function DayField(l: Layout): nat {
    if l == US then 1 else 0
  }

  /** The upper bound the source's range test uses for field `i` (0 or 1). */
  function FieldHigh(l: Layout, i: nat): int {
    if i == MonthField(l) then 12 else 31
  }

  /** The source's per-field range test `(v < low) && (v > high)`: written to
      reject a value outside low..high, it holds for no value at all when
      low <= high, so it never counts an error. */
  predicate RangeGuard(v: int, low: int, high: int) {
    v < low && v > high
  }

  /** The split of `s` on the layout's delimiter has exactly three pieces,
      which is when the check empties `parsedDate`. */
  predicate Splits(s: string, l: Layout) {
    |Explode(s, Delimiter(l))| == 3
  }

  /** The split of `s` on the layout's delimiter has exactly three pieces,
      the last is numeric, and the casts of the pieces form a real date. */
  predicate Accepts(s: string, l: Layout) {
    var f := Explode(s, Delimiter(l));
    && Splits(s, l) && IsNumeric(f[2])
    && CheckDate(IntCast(f[MonthField(l)]), IntCast(f[DayField(l)]), IntCast(f[2]))
  }

  /** `checkUSFQD` / `checkUKFQD`. Splitting into three pieces empties
      `parsedDate` whether or not the check then succeeds; any other split
      leaves everything as it was. The range tests on the first two fields
      never reject anything, so only `is_numeric` on the year and `checkdate`
      decide. */
  function CheckFixed(s: string, st: State, l: Layout): (r: Step)
    ensures r.ok <==> Accepts(s, l)
    ensures r.ok ==>
      var f := Explode(s, Delimiter(l));
      && ValidDate(r.state.date)
      && r.state.date.year == Some(IntCast(f[2]))
      && r.state.date.month == Some(IntCast(f[MonthField(l)]))
      && r.state.date.day == Some(IntCast(f[DayField(l)]))
    ensures !r.ok && Splits(s, l) ==> r.state.date == NoDate
    ensures !Splits(s, l) ==> r.state == st
    ensures r.state.date.range ==> st.date.range
    ensures r.state.years == st.years && r.state.months == st.months && r.state.days == st.days
  {
    var f := Explode(s, Delimiter(l));
    if |f| == 3 then
      var cleared := st.(date := NoDate);
      var errors :=
        (if RangeGuard(IntCast(f[0]), 1, FieldHigh(l, 0)) then 1 else 0)
        + (if RangeGuard(IntCast(f[1]), 1, FieldHigh(l, 1)) then 1 else 0)
        + (if !IsNumeric(f[2]) then 1 else 0);
      var month, day, year := IntCast(f[MonthField(l)]), IntCast(f[DayField(l)]), IntCast(f[2]);
      if errors == 0 && CheckDate(month, day, year) then
        Step(true, cleared.(date := ParsedDate(Some(year), Some(month), Some(day), false)))
      else
        Step(false, cleared)
    else
      Step(false, st)
  }

  /** How a date is written in layout `l`: undecorated decimal numbers
      joined by the delimiter, month first in the US layout and day first in
      the UK one. */
  function Format(l: Layout, y: nat, m: nat, d: nat): (r: string)
    ensures forall i :: 0 <= i < |r| ==> IsDigit(r[i]) || r[i] == Delimiter(l)
  {
    var first := if l == US then m else d;
    var second := if l == US then d else m;
    NatToDigits(first) + ([Delimiter(l)] + (NatToDigits(second) + ([Delimiter(l)] + NatToDigits(y))))
  }

  /** A formatted date splits back into its three numbers. */
  lemma FormatFields(l: Layout, y: nat, m: nat, d: nat)
    ensures var f := Explode(Format(l, y, m, d), Delimiter(l));
      && |f| == 3 && IsNumeric(f[2])
      && IntCast(f[MonthField(l)]) == m && IntCast(f[DayField(l)]) == d && IntCast(f[2]) == y
  {
    var dl := Delimiter(l);
    var first := if l == US then m else d;
    var second := if l == US then d else m;
    var a, b, c := NatToDigits(first), NatToDigits(second), NatToDigits(y);
    var f := SplitThree(a, b, c, dl);
    assert Format(l, y, m, d) == a + ([dl] + (b + ([dl] + c)));
    DigitsCast(a);
    DigitsCast(b);
    DigitsCast(c);
  }

  /** Three digit strings joined by a non-digit split back into themselves. */
  lemma SplitThree(a: string, b: string, c: string, dl: char) returns (f: seq<string>)
    requires AllDigits(a) && AllDigits(b) && AllDigits(c) && !IsDigit(dl)
    ensures f == Explode(a + ([dl] + (b + ([dl] + c))), dl) == [a, b, c]
  {
    DigitsNoDelimiter(a, dl);
    DigitsNoDelimiter(b, dl);
    DigitsNoDelimiter(c, dl);
    ExplodeFree(c, dl);
    ExplodePrefix(b, c, dl);
    ExplodePrefix(a, b + ([dl] + c), dl);
    f := [a, b, c];
  }

  lemma DigitsNoDelimiter(a: string, dl: char)
    requires AllDigits(a) && !IsDigit(dl)
    ensures dl !in a
  {
  }

  /** Round trip: a valid date written in layout `l` is read back by that
      layout's check, exactly. */
  lemma FixedRoundTrip(l: Layout, y: nat, m: nat, d: nat, st: State)
    requires CheckDate(m, d, y)
    ensures CheckFixed(Format(l, y, m, d), st, l)
         == Step(true, st.(date := ParsedDate(Some(y), Some(m), Some(d), false)))
  {
    FormatFields(l, y, m, d);
  }

  /** A date written in one layout contains no delimiter of the other, so
      the other layout's check fails and leaves the state alone. */
  lemma OtherLayoutIgnores(l: Layout, y: nat, m: nat, d: nat, st: State)
    ensures var o := if l == US then UK else US;
      CheckFixed(Format(l, y, m, d), st, o) == Step(false, st)
  {
    var o := if l == US then UK else US;
    var s := Format(l, y, m, d);
    assert Delimiter(o) !in s;
    ExplodeFree(s, Delimiter(o));
  }
}

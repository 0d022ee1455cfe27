/** PHP's `checkdate($month, $day, $year)`: the proleptic Gregorian validity
    test, with years limited to 1..32767. */
module Calendar {

  predicate IsLeapYear(y: int) {
    (y % 4 == 0 && y % 100 != 0) || y % 400 == 0
  }

  /** Days in month `m` (1..12) of year `y`. */
  function DaysInMonth(m: int, y: int): (n: int)
    requires 1 <= m <= 12
    ensures 28 <= n <= 31
    ensures m == 2 ==> (n == 29 <==> IsLeapYear(y))
    ensures m != 2 ==> (n == 30 <==> m in {4, 6, 9, 11})
  {
    if m == 2 then (if IsLeapYear(y) then 29 else 28)
    else if m == 4 || m == 6 || m == 9 || m == 11 then 30
    else 31
  }

  predicate CheckDate(m: int, d: int, y: int) {
    1 <= m <= 12 && 1 <= y <= 32767 && 1 <= d <= DaysInMonth(m, y)
  }

  /** A valid date has its month in 1..12, its day in 1..31 and its year in
      1..32767; February 29th is valid exactly in leap years, and the 31st
      exists only in the seven long months. */
  lemma CheckDateBounds(m: int, d: int, y: int)
    ensures CheckDate(m, d, y) ==> 1 <= m <= 12 && 1 <= d <= 31 && 1 <= y <= 32767
    ensures 1 <= y <= 32767 ==> (CheckDate(2, 29, y) <==> IsLeapYear(y))
    ensures 1 <= y <= 32767 && 1 <= m <= 12 ==> (CheckDate(m, 31, y) <==> m in {1, 3, 5, 7, 8, 10, 12})
    ensures CheckDate(m, d, y) ==> CheckDate(m, 1, y)
  {
  }
}

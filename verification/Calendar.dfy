/** The terminal's day numbers and the web backend's weekday formula, over the
    Gregorian calendar from year 1 on. */
module Calendar {
  datatype Date = Date(year: int, month: int, day: int)

  predicate Leap(year: int) {
    year % 4 == 0 && (year % 100 != 0 || year % 400 == 0)
  }

  function DaysIn(year: int, month: int): int {
    if month == 2 then (if Leap(year) then 29 else 28)
    else if month == 4 || month == 6 || month == 9 || month == 11 then 30
    else 31
  }

  predicate Valid(d: Date) {
    d.year >= 1 && 1 <= d.month <= 12 && 1 <= d.day <= DaysIn(d.year, d.month)
  }

  function Next(d: Date): Date {
    if d.day < DaysIn(d.year, d.month) then d.(day := d.day + 1)
    else if d.month < 12 then Date(d.year, d.month + 1, 1)
    else Date(d.year + 1, 1, 1)
  }

  predicate Earlier(a: Date, b: Date) {
    a.year < b.year || (a.year == b.year && (a.month < b.month || (a.month == b.month && a.day < b.day)))
  }

  // The year that starts in March, and the months since then.
  function MarchYear(d: Date): int { if d.month <= 2 then d.year - 1 else d.year }

  function MarchMonth(d: Date): int { d.month + (if d.month > 2 then -3 else 9) }

  /** `daysFromCivil`; the division truncates, which the source's test for a
      negative year turns into a floor. */
  function DayNumber(d: Date): int {
    var year := MarchYear(d);
    var era := (if year >= 0 then year else year - 399) / 400;
    var yearOfEra := year - era * 400;
    var dayOfYear := (153 * MarchMonth(d) + 2) / 5 + d.day - 1;
    var dayOfEra := yearOfEra * 365 + yearOfEra / 4 - yearOfEra / 100 + dayOfYear;
    era * 146097 + dayOfEra - 719468
  }

  /** `calendarWeekday`: 0 is Sunday. */
  function Weekday(d: Date): int {
    var month := if d.month < 3 then d.month + 12 else d.month;
    var year := if d.month < 3 then d.year - 1 else d.year;
    var yearOfCentury := year % 100;
    var century := year / 100;
    var zeller := (d.day + 13 * (month + 1) / 5 + yearOfCentury + yearOfCentury / 4 + century / 4 + 5 * century) % 7;
    (zeller + 6) % 7
  }

  // Days before the March of a year.
  function DaysBefore(year: int): int { 365 * year + year / 4 - year / 100 + year / 400 }

  lemma {:induction false} ErasAddUp(year: int)
    requires year >= 0
    ensures var era := year / 400;
      var rest := year - era * 400;
      era * 146097 + rest * 365 + rest / 4 - rest / 100 == DaysBefore(year)
  {
    var era := year / 400;
    var rest := year - era * 400;
    assert year == 400 * era + rest && 0 <= rest < 400;
    assert year / 4 == 100 * era + rest / 4;
    assert year / 100 == 4 * era + rest / 100;
  }

  lemma {:induction false} DayNumberFromMarch(d: Date)
    requires Valid(d)
    ensures DayNumber(d) == DaysBefore(MarchYear(d)) + (153 * MarchMonth(d) + 2) / 5 + d.day - 1 - 719468
  {
    ErasAddUp(MarchYear(d));
  }

  lemma {:induction false} Divides(n: int, k: int, j: int)
    requires k > 0 && j > 0 && n % (k * j) == 0
    ensures n % k == 0
  {
    var q := n / (k * j);
    assert n == q * (k * j) + n % (k * j);
    assert n == (q * j) * k + 0;
    Quotient(n, k, q * j, 0);
  }

  lemma {:induction false} LeapStep(year: int)
    requires year >= 1
    ensures DaysBefore(year) - DaysBefore(year - 1) == if Leap(year) then 366 else 365
  {
    var by4, by100, by400 := year % 4 == 0, year % 100 == 0, year % 400 == 0;
    FloorStep(year, 4);
    FloorStep(year, 100);
    FloorStep(year, 400);
    if by400 { Divides(year, 100, 4); }
    if by100 { Divides(year, 4, 25); }
  }

  lemma {:induction false} FloorStep(n: int, k: int)
    requires k > 0
    ensures n / k - (n - 1) / k == if n % k == 0 then 1 else 0
  {
    var q, r := n / k, n % k;
    assert n == q * k + r;
    if r == 0 {
      assert n - 1 == (q - 1) * k + (k - 1);
      Quotient(n - 1, k, q - 1, k - 1);
    } else {
      assert n - 1 == q * k + (r - 1);
      Quotient(n - 1, k, q, r - 1);
    }
  }

  lemma {:induction false} Multiple(a: int, k: int)
    requires k > 0
    ensures a >= 1 ==> a * k >= k
    ensures a <= -1 ==> a * k <= -k
  {
  }

  lemma {:induction false} Quotient(n: int, k: int, q: int, r: int)
    requires k > 0 && n == q * k + r && 0 <= r < k
    ensures n / k == q && n % k == r
  {
    var a := n / k - q;
    assert n == (n / k) * k + n % k;
    assert a * k == (n / k) * k - q * k;
    Multiple(a, k);
  }

  lemma {:induction false} EpochIsZero()
    ensures DayNumber(Date(1970, 1, 1)) == 0
  {
  }

  /** The first of January 1970 has number 0, and each date's number is one more than
      that of the date before. */
  lemma {:induction false} NextDayNumber(d: Date)
    requires Valid(d)
    ensures DayNumber(Date(1970, 1, 1)) == 0
    ensures Valid(Next(d)) && DayNumber(Next(d)) == DayNumber(d) + 1
  {
    EpochIsZero();
    hide DayNumber, DaysBefore;
    var n := Next(d);
    assert Valid(n);
    DayNumberFromMarch(d);
    DayNumberFromMarch(n);
    if d.month == 2 && n.month == 3 { LeapStep(d.year); }
  }

  /** Earlier dates have smaller numbers, so no two dates share one. */
  lemma {:induction false} DayNumbersAreOrdered(a: Date, b: Date)
    requires Valid(a) && Valid(b)
    ensures DayNumber(a) < DayNumber(b) <==> Earlier(a, b)
    ensures DayNumber(a) == DayNumber(b) <==> a == b
  {
    if Earlier(a, b) { EarlierIsSmaller(a, b); }
    if Earlier(b, a) { EarlierIsSmaller(b, a); }
  }

  lemma {:induction false} EarlierIsSmaller(a: Date, b: Date)
    requires Valid(a) && Valid(b) && Earlier(a, b)
    ensures DayNumber(a) < DayNumber(b)
    decreases 372 * (b.year - a.year) + 31 * (b.month - a.month) + b.day - a.day
  {
    hide DayNumber;
    NextDayNumber(a);
    var n := Next(a);
    if n != b {
      assert Earlier(n, b);
      EarlierIsSmaller(n, b);
    }
  }

  lemma {:induction false} CenturyWeeks(year: int)
    requires year >= 0
    ensures var k, j := year % 100, year / 100;
      DaysBefore(year) == 365 * 100 * j + 365 * k + 25 * j + k / 4 - j + j / 4
  {
    var k, j := year % 100, year / 100;
    assert year == 100 * j + k;
    assert year / 4 == 25 * j + k / 4;
    Nested(year);
  }

  lemma {:induction false} Nested(year: int)
    requires year >= 0
    ensures year / 400 == year / 100 / 4
  {
    var j := year / 100;
    var q := j / 4;
    assert year == 100 * j + year % 100 && j == 4 * q + j % 4;
    Quotient(year, 400, q, 100 * (j % 4) + year % 100);
  }

  lemma {:induction false} MonthWeeks(m: int)
    requires 0 <= m <= 11
    ensures (153 * m + 2) / 5 == 30 * m + (3 * m + 2) / 5
    ensures 13 * (m + 4) / 5 == 2 * m + 10 + (3 * m + 2) / 5
  {
  }

  lemma {:induction false} SameWeekday(a: int, b: int, weeks: int)
    requires a == b + 7 * weeks
    ensures a % 7 == b % 7
  {
  }

  /** The weekday formula agrees with the day numbers: number 0 is a Thursday. */
  lemma {:induction false} WeekdayFromDayNumber(d: Date)
    requires Valid(d)
    ensures Weekday(d) == (DayNumber(d) + 4) % 7
  {
    hide DayNumber, DaysBefore, Weekday;
    var year, m := MarchYear(d), MarchMonth(d);
    var k, j := year % 100, year / 100;
    DayNumberFromMarch(d);
    CenturyWeeks(year);
    MonthWeeks(m);
    WeekdaySum(d);
    var sum := d.day + 2 * m + 10 + (3 * m + 2) / 5 + k + k / 4 + j / 4 + 5 * j;
    SameWeekday(DayNumber(d) + 4, sum + 6, 5217 * j + 52 * k + 4 * m - 102783);
  }

  lemma {:induction false} WeekdaySum(d: Date)
    requires Valid(d)
    ensures var m, k, j := MarchMonth(d), MarchYear(d) % 100, MarchYear(d) / 100;
      Weekday(d) == (d.day + 2 * m + 10 + (3 * m + 2) / 5 + k + k / 4 + j / 4 + 5 * j + 6) % 7
  {
    MonthWeeks(MarchMonth(d));
    var m, k, j := MarchMonth(d), MarchYear(d) % 100, MarchYear(d) / 100;
    var sum := d.day + 2 * m + 10 + (3 * m + 2) / 5 + k + k / 4 + j / 4 + 5 * j;
    ModOfSum(sum);
  }

  lemma {:induction false} ModOfSum(sum: int)
    ensures (sum % 7 + 6) % 7 == (sum + 6) % 7
  {
    SameWeekday(sum + 6, sum % 7 + 6, sum / 7);
  }
}

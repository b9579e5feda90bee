/** Days since the Unix epoch to a civil date (crates/ward-bench/src/lib.rs). */
module Calendar {

  const I64_MIN: int := -0x8000_0000_0000_0000
  const I64_MAX: int := 0x7FFF_FFFF_FFFF_FFFF

  /** The source's division truncates toward zero. */
  function Truncated(a: int, b: int): int
    requires b > 0
  {
    if a >= 0 then a / b else -((-a) / b)
  }

  datatype Date = Date(year: int, month: int, day: int)

  /** Days since 0000-03-01. */
  function Shifted(days: int): int {
    days + 719_468
  }

  function EraOf(z: int): int {
    Truncated(if z >= 0 then z else z - 146_096, 146_097)
  }

  function DayOfEra(z: int): int {
    z - EraOf(z) * 146_097
  }

  function YearOfEra(doe: int): int {
    (doe - doe / 1460 + doe / 36_524 - doe / 146_096) / 365
  }

  function DayOfYear(doe: int): int {
    var yoe := YearOfEra(doe);
    doe - (365 * yoe + yoe / 4 - yoe / 100)
  }

  function MonthIndex(doy: int): int {
    (5 * doy + 2) / 153
  }

  function CivilFromDays(days: int): Date {
    var z := Shifted(days);
    var doe := DayOfEra(z);
    var y := YearOfEra(doe) + EraOf(z) * 400;
    var doy := DayOfYear(doe);
    var mp := MonthIndex(doy);
    var d := doy - (153 * mp + 2) / 5 + 1;
    var m := if mp < 10 then mp + 3 else mp - 9;
    Date(if m <= 2 then y + 1 else y, m, d)
  }

  // -------------------------------------------------------------------------------------------
  // The calendar, defined on its own

  predicate IsLeap(year: int) {
    year % 4 == 0 && (year % 100 != 0 || year % 400 == 0)
  }

  function DaysInMonth(year: int, month: int): int {
    if month == 2 then (if IsLeap(year) then 29 else 28)
    else if month in {4, 6, 9, 11} then 30
    else 31
  }

  predicate ValidDate(date: Date) {
    1 <= date.month <= 12 && 1 <= date.day <= DaysInMonth(date.year, date.month)
  }

  function NextDay(date: Date): Date {
    if date.day < DaysInMonth(date.year, date.month) then date.(day := date.day + 1)
    else if date.month < 12 then Date(date.year, date.month + 1, 1)
    else Date(date.year + 1, 1, 1)
  }

  /** Days from 0001-01-01 to the first of January. */
  function DaysBeforeYear(year: int): int {
    var n := year - 1;
    365 * n + n / 4 - n / 100 + n / 400
  }

  function DaysBeforeMonth(year: int, month: int): int
    requires 1 <= month
  {
    if month == 1 then 0 else DaysBeforeMonth(year, month - 1) + DaysInMonth(year, month - 1)
  }

  /** The proleptic Gregorian day count with 1970-01-01 as day 0. */
  function DayNumber(date: Date): int
    requires 1 <= date.month
  {
    DaysBeforeYear(date.year) + DaysBeforeMonth(date.year, date.month) + date.day - 1 - 719_162
  }

  lemma QuarterStep(n: int)
    ensures (n + 1) / 4 == n / 4 + (if (n + 1) % 4 == 0 then 1 else 0)
  {
  }

  lemma CenturyStep(n: int)
    ensures (n + 1) / 100 == n / 100 + (if (n + 1) % 100 == 0 then 1 else 0)
  {
  }

  lemma EraStep(n: int)
    ensures (n + 1) / 400 == n / 400 + (if (n + 1) % 400 == 0 then 1 else 0)
  {
  }

  lemma Multiples(n: int)
    ensures n % 400 == 0 ==> n % 100 == 0
    ensures n % 100 == 0 ==> n % 4 == 0
  {
    if n % 400 == 0 {
      QuotientIs(n, 100, 4 * (n / 400), 0);
    }
    if n % 100 == 0 {
      QuotientIs(n, 4, 25 * (n / 100), 0);
    }
  }

  lemma YearLength(year: int)
    ensures DaysBeforeYear(year + 1) - DaysBeforeYear(year) == (if IsLeap(year) then 366 else 365)
  {
    QuarterStep(year - 1);
    CenturyStep(year - 1);
    EraStep(year - 1);
    Multiples(year);
  }

  lemma QuotientIs(n: int, k: int, q: int, r: int)
    requires k > 0 && n == q * k + r && 0 <= r < k
    ensures n / k == q && n % k == r
  {
    var d := n / k - q;
    assert d * k == r - n % k;
    assert d >= 1 ==> d * k >= k;
    assert d <= -1 ==> d * k <= -k;
  }

  lemma MonthTable(year: int, month: int)
    requires 1 <= month <= 13
    ensures var leap := if IsLeap(year) then 1 else 0;
            DaysBeforeMonth(year, month) ==
              [0, 31, 59 + leap, 90 + leap, 120 + leap, 151 + leap, 181 + leap,
               212 + leap, 243 + leap, 273 + leap, 304 + leap, 334 + leap, 365 + leap][month - 1]
  {
    assert DaysBeforeMonth(year, 1) == 0;
    assert DaysBeforeMonth(year, 2) == 31;
    assert DaysBeforeMonth(year, 3) == 31 + DaysInMonth(year, 2);
    assert DaysBeforeMonth(year, 4) == DaysBeforeMonth(year, 3) + 31;
    assert DaysBeforeMonth(year, 5) == DaysBeforeMonth(year, 4) + 30;
    assert DaysBeforeMonth(year, 6) == DaysBeforeMonth(year, 5) + 31;
    assert DaysBeforeMonth(year, 7) == DaysBeforeMonth(year, 6) + 30;
    assert DaysBeforeMonth(year, 8) == DaysBeforeMonth(year, 7) + 31;
    assert DaysBeforeMonth(year, 9) == DaysBeforeMonth(year, 8) + 31;
    assert DaysBeforeMonth(year, 10) == DaysBeforeMonth(year, 9) + 30;
    assert DaysBeforeMonth(year, 11) == DaysBeforeMonth(year, 10) + 31;
    assert DaysBeforeMonth(year, 12) == DaysBeforeMonth(year, 11) + 30;
    assert DaysBeforeMonth(year, 13) == DaysBeforeMonth(year, 12) + 31;
  }

  /** The day count counts days: tomorrow's number is today's plus one. */
  lemma NextDayCounts(date: Date)
    requires ValidDate(date)
    ensures ValidDate(NextDay(date)) && DayNumber(NextDay(date)) == DayNumber(date) + 1
  {
    if date.day == DaysInMonth(date.year, date.month) && date.month == 12 {
      MonthTable(date.year, 12);
      YearLength(date.year);
    }
  }

  lemma {:induction false} YearsGrow(a: int, b: int)
    requires a <= b
    ensures DaysBeforeYear(a) <= DaysBeforeYear(b)
    decreases b - a
  {
    if a < b {
      YearsGrow(a, b - 1);
      YearLength(b - 1);
    }
  }

  lemma {:induction false} MonthsGrow(year: int, a: int, b: int)
    requires 1 <= a <= b
    ensures DaysBeforeMonth(year, a) <= DaysBeforeMonth(year, b)
    decreases b - a
  {
    if a < b {
      MonthsGrow(year, a, b - 1);
    }
  }

  /** Earlier dates have smaller numbers, so a number belongs to one date. */
  lemma DayNumberIsInjective(a: Date, b: Date)
    requires ValidDate(a) && ValidDate(b) && DayNumber(a) == DayNumber(b)
    ensures a == b
  {
    WithinYear(a);
    WithinYear(b);
    if a.year < b.year {
      YearsGrow(a.year + 1, b.year);
    } else if b.year < a.year {
      YearsGrow(b.year + 1, a.year);
    } else if a.month < b.month {
      MonthsGrow(a.year, a.month + 1, b.month);
    } else if b.month < a.month {
      MonthsGrow(a.year, b.month + 1, a.month);
    }
  }

  lemma WithinYear(date: Date)
    requires ValidDate(date)
    ensures DaysBeforeYear(date.year) <= DayNumber(date) + 719_162 < DaysBeforeYear(date.year + 1)
  {
    MonthTable(date.year, date.month);
    MonthTable(date.year, date.month + 1);
    YearLength(date.year);
  }

  // -------------------------------------------------------------------------------------------
  // The formula, piece by piece

  /** Truncating the shifted numerator is flooring. */
  lemma EraIsFloor(z: int)
    ensures EraOf(z) == z / 146_097
    ensures 0 <= DayOfEra(z) <= 146_096
  {
    if z < 0 {
      var n := -(z - 146_096);
      var q := n / 146_097;
      assert 146_097 * q <= n < 146_097 * q + 146_097;
      QuotientIs(z, 146_097, -q, z + 146_097 * q);
    }
  }

  /** A day of an era lies in century c, four-year cycle q of it, year t of that, on day u. */
  predicate Places(doe: int, c: int, q: int, t: int, u: int) {
    && 0 <= c <= 3 && 0 <= q <= 24 && 0 <= t <= 3 && 0 <= u <= 365
    && doe == 36_524 * c + 1461 * q + 365 * t + u
    && (u == 365 ==> t == 3 && (q == 24 ==> c == 3))
  }

  lemma Place(doe: int) returns (c: int, q: int, t: int, u: int)
    requires 0 <= doe <= 146_096
    ensures Places(doe, c, q, t, u)
  {
    c := if doe / 36_524 > 3 then 3 else doe / 36_524;
    var r := doe - 36_524 * c;
    assert 0 <= r <= 36_524 && (c < 3 ==> r < 36_524);
    q := r / 1461;
    var s := r - 1461 * q;
    t := if s / 365 > 3 then 3 else s / 365;
    u := s - 365 * t;
  }

  /** The divisions by 1460, 36524 and 146096 cancel to the year and the day. */
  lemma YearOfPlace(doe: int, c: int, q: int, t: int, u: int)
    requires Places(doe, c, q, t, u)
    ensures YearOfEra(doe) == 100 * c + 4 * q + t
    ensures DayOfYear(doe) == u
  {
    assert doe / 36_524 - doe / 146_096 == c by {
      if doe == 146_096 {
      } else {
        QuotientIs(doe, 36_524, c, doe - 36_524 * c);
        QuotientIs(doe, 146_096, 0, doe);
      }
    }
    var rest := 24 * c + q + 365 * t + u;
    var carry := if rest >= 1460 then 1 else 0;
    QuotientIs(doe, 1460, 25 * c + q + carry, rest - 1460 * carry);
    var n := 100 * c + 4 * q + t;
    QuotientIs(doe - doe / 1460 + c, 365, n, u - carry);
    QuotientIs(n, 4, 25 * c + q, t);
    QuotientIs(n, 100, c, 4 * q + t);
  }

  /** Every bound the source notes beside its intermediates. */
  lemma IntermediateBounds(days: int)
    ensures var doe := DayOfEra(Shifted(days));
            var doy := DayOfYear(doe);
            var mp := MonthIndex(doy);
            && 0 <= doe <= 146_096
            && 0 <= YearOfEra(doe) <= 399
            && 0 <= doy <= 365
            && 0 <= mp <= 11
            && 1 <= CivilFromDays(days).day <= 31
            && 1 <= CivilFromDays(days).month <= 12
  {
    EraIsFloor(Shifted(days));
    var doe := DayOfEra(Shifted(days));
    var c, q, t, u := Place(doe);
    YearOfPlace(doe, c, q, t, u);
  }

  /** Days from 0001-01-01 to the first of March of year 400e + n, minus 306 days. */
  lemma MarchFirst(e: int, c: int, q: int, t: int)
    requires 0 <= c <= 3 && 0 <= q <= 24 && 0 <= t <= 3
    ensures var y := 400 * e + 100 * c + 4 * q + t;
            DaysBeforeYear(y + 1) == 146_097 * e + 36_524 * c + 1461 * q + 365 * t
  {
    var y := 400 * e + 100 * c + 4 * q + t;
    QuotientIs(y, 4, 100 * e + 25 * c + q, t);
    QuotientIs(y, 100, 4 * e + c, 4 * q + t);
    QuotientIs(y, 400, e, 100 * c + 4 * q + t);
  }

  /** A March year whose last day is its 366th ends in the February of a leap year. */
  lemma LeapPlace(e: int, c: int, q: int)
    requires 0 <= c <= 3 && 0 <= q <= 24 && (q == 24 ==> c == 3)
    ensures IsLeap(400 * e + 100 * c + 4 * q + 4)
  {
    var y := 400 * e + 100 * c + 4 * q + 4;
    QuotientIs(y, 4, 100 * e + 25 * c + q + 1, 0);
    if q == 24 {
      QuotientIs(y, 400, e + 1, 0);
    } else {
      QuotientIs(y, 100, 4 * e + c, 4 * q + 4);
    }
  }

  /** Days from the first of March to the first day of month index `mp`. */
  function MonthOffset(mp: int): int {
    (153 * mp + 2) / 5
  }

  lemma MonthIndexBrackets(u: int)
    requires 0 <= u <= 365
    ensures 0 <= MonthIndex(u) <= 11
    ensures MonthOffset(MonthIndex(u)) <= u < MonthOffset(MonthIndex(u) + 1)
  {
  }

  /** From March to February the offsets are the calendar's month lengths summed up. */
  lemma OffsetsAreMonths(y: int, mp: int)
    requires 0 <= mp <= 11
    ensures mp < 10 ==> DaysBeforeMonth(y, mp + 3) == DaysBeforeMonth(y, 3) + MonthOffset(mp)
    ensures mp >= 10 ==> DaysBeforeMonth(y + 1, mp - 9) == MonthOffset(mp) - 306
    ensures mp < 10 ==> DaysInMonth(y, mp + 3) == MonthOffset(mp + 1) - MonthOffset(mp)
    ensures mp == 10 ==> DaysInMonth(y + 1, 1) == MonthOffset(11) - MonthOffset(10)
  {
    if mp < 10 {
      MonthTable(y, mp + 3);
      MonthTable(y, 3);
    } else {
      MonthTable(y + 1, mp - 9);
    }
  }

  function DateOf(y: int, u: int): Date {
    var mp := MonthIndex(u);
    var m := if mp < 10 then mp + 3 else mp - 9;
    Date(if m <= 2 then y + 1 else y, m, u - MonthOffset(mp) + 1)
  }

  /** The month formula on day `u` of the March year `y` agrees with the calendar. */
  lemma MonthOfDay(y: int, u: int)
    requires 0 <= u <= 365 && (u == 365 ==> IsLeap(y + 1))
    ensures ValidDate(DateOf(y, u)) && DayNumber(DateOf(y, u)) == DaysBeforeYear(y + 1) + u - 719_468
  {
    MonthIndexBrackets(u);
    OffsetsAreMonths(y, MonthIndex(u));
    YearLength(y);
    MonthTable(y, 3);
  }

  // -------------------------------------------------------------------------------------------
  // The theorems

  /** For every day number the result is a real date, and that date has this number. */
  lemma CivilHasItsNumber(days: int)
    ensures ValidDate(CivilFromDays(days)) && DayNumber(CivilFromDays(days)) == days
  {
    var z := Shifted(days);
    EraIsFloor(z);
    var doe := DayOfEra(z);
    var c, q, t, u := Place(doe);
    YearOfPlace(doe, c, q, t, u);
    MarchFirst(EraOf(z), c, q, t);
    var y := 400 * EraOf(z) + 100 * c + 4 * q + t;
    if u == 365 {
      LeapPlace(EraOf(z), c, q);
    }
    MonthOfDay(y, u);
    assert CivilFromDays(days) == DateOf(y, u);
  }

  /** Conversion inverts the day count on every date, and the number after a date's is the next
      calendar day's. */
  lemma CivilInvertsDayNumber(date: Date, days: int)
    requires ValidDate(date) && DayNumber(date) == days
    ensures CivilFromDays(days) == date
    ensures CivilFromDays(days + 1) == NextDay(date)
  {
    CivilHasItsNumber(days);
    DayNumberIsInjective(CivilFromDays(days), date);
    NextDayCounts(date);
    CivilHasItsNumber(days + 1);
    DayNumberIsInjective(CivilFromDays(days + 1), NextDay(date));
  }

  lemma CivilStepsByDay(days: int)
    ensures CivilFromDays(days + 1) == NextDay(CivilFromDays(days))
  {
    CivilHasItsNumber(days);
    CivilInvertsDayNumber(CivilFromDays(days), days);
  }

  predicate FitsI64(n: int) {
    I64_MIN <= n <= I64_MAX
  }

  /** Every signed 64-bit value the source computes, in order. */
  function SignedIntermediates(days: int): seq<int> {
    var z := Shifted(days);
    var era := EraOf(z);
    var y := YearOfEra(DayOfEra(z)) + era * 400;
    [z, if z >= 0 then z else z - 146_096, era, era * 146_097, DayOfEra(z), era * 400, y, y + 1]
  }

  /** The conversion is announced for the whole 64-bit range. It overflows, in its first addition,
      on the last 719468 day numbers and nowhere else. */
  lemma OverflowsExactlyAtTheTop(days: int)
    requires FitsI64(days)
    ensures (forall n | n in SignedIntermediates(days) :: FitsI64(n)) <==> days <= I64_MAX - 719_468
  {
    var z := Shifted(days);
    EraIsFloor(z);
    var c, q, t, u := Place(DayOfEra(z));
    YearOfPlace(DayOfEra(z), c, q, t, u);
    var all := SignedIntermediates(days);
    assert all[0] == z && all[0] in all;
    if days <= I64_MAX - 719_468 {
      assert -0x4000_0000_0000 <= z / 146_097 <= 0x4000_0000_0000;
      assert forall i | 0 <= i < |all| :: FitsI64(all[i]);
    }
  }
}

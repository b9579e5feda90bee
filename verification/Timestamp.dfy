/** The report's RFC 3339 timestamp (crates/ward-bench/src/lib.rs). */
module Timestamps {
  import opened Ordering
  import opened Decimals
  import opened Calendar

  /** `{n:0width}`: the numeral, padded with zeros on the left up to `width`. */
  function Padded(n: nat, width: nat): (s: string)
    ensures AllDigits(s)
  {
    var digits := Digits(n);
    if |digits| >= width then digits else seq(width - |digits|, _ => '0') + digits
  }

  function TimeOfDay(secs: nat): (nat, nat, nat) {
    var tod := secs % 86_400;
    (tod / 3600, (tod % 3600) / 60, tod % 60)
  }

  function Assemble(y: string, mo: string, d: string, h: string, mi: string, s: string): string {
    y + "-" + mo + "-" + d + "T" + h + ":" + mi + ":" + s + "Z"
  }

  function Render(date: Date, time: (nat, nat, nat)): string
    requires ValidDate(date) && date.year >= 0
  {
    Assemble(Padded(date.year, 4), Padded(date.month, 2), Padded(date.day, 2),
             Padded(time.0, 2), Padded(time.1, 2), Padded(time.2, 2))
  }

  function Timestamp(secs: nat): string {
    CivilHasItsNumber(secs / 86_400);
    YearIsPositive(CivilFromDays(secs / 86_400));
    Render(CivilFromDays(secs / 86_400), TimeOfDay(secs))
  }

  lemma YearIsPositive(date: Date)
    requires ValidDate(date) && DayNumber(date) >= 0
    ensures date.year >= 1970
  {
    WithinYear(date);
    if date.year < 1970 {
      YearsGrow(date.year + 1, 1970);
    }
  }

  /** The first second of the year 10000. */
  const YEAR_10000: nat := 253_402_300_800

  // -------------------------------------------------------------------------------------------
  // Fixed-width numerals

  function Pow10(width: nat): nat {
    if width == 0 then 1 else 10 * Pow10(width - 1)
  }

  /** Exactly `width` digits. */
  function Fixed(n: nat, width: nat): (s: string)
    ensures |s| == width && AllDigits(s)
  {
    if width == 0 then [] else Fixed(n / 10, width - 1) + [DigitChar(n % 10)]
  }

  lemma {:induction false} PaddedIsFixed(n: nat, width: nat)
    requires n < Pow10(width) && width > 0
    ensures Padded(n, width) == Fixed(n, width)
  {
    if width > 1 {
      if n >= 10 {
        PaddedIsFixed(n / 10, width - 1);
      } else {
        ZerosAreFixed(width - 1);
        assert n / 10 == 0;
      }
    } else {
      assert Fixed(n / 10, 0) == [];
    }
  }

  lemma {:induction false} ZerosAreFixed(width: nat)
    ensures Fixed(0, width) == seq(width, _ => '0')
  {
    if width > 0 {
      ZerosAreFixed(width - 1);
    }
  }

  lemma {:induction false} ValueOfFixed(n: nat, width: nat)
    requires n < Pow10(width)
    ensures Value(Fixed(n, width)) == n
  {
    if width > 0 {
      ValueOfFixed(n / 10, width - 1);
      assert Fixed(n, width)[..width - 1] == Fixed(n / 10, width - 1);
    }
  }

  lemma {:induction false} FixedKeepsOrder(a: nat, b: nat, width: nat)
    requires a < b < Pow10(width)
    ensures TextLess(Fixed(a, width), Fixed(b, width))
  {
    if a / 10 < b / 10 {
      FixedKeepsOrder(a / 10, b / 10, width - 1);
      TextLessBeforeSuffix(Fixed(a / 10, width - 1), Fixed(b / 10, width - 1),
                           [DigitChar(a % 10)], [DigitChar(b % 10)]);
    } else {
      TextLessAfterPrefix(Fixed(a / 10, width - 1), [DigitChar(a % 10)], [DigitChar(b % 10)]);
    }
  }

  /** Two numerals of one width, each followed by some text: the numbers decide first. */
  lemma FieldDecides(a: nat, b: nat, width: nat, afterA: string, afterB: string)
    requires 0 < width && a < Pow10(width) && b < Pow10(width)
    requires a < b || (a == b && TextLess(afterA, afterB))
    ensures TextLess(Padded(a, width) + afterA, Padded(b, width) + afterB)
  {
    PaddedIsFixed(a, width);
    PaddedIsFixed(b, width);
    if a < b {
      FixedKeepsOrder(a, b, width);
      TextLessBeforeSuffix(Fixed(a, width), Fixed(b, width), afterA, afterB);
    } else {
      TextLessAfterPrefix(Fixed(a, width), afterA, afterB);
    }
  }

  // -------------------------------------------------------------------------------------------
  // Order of dates and times

  predicate DateLess(a: Date, b: Date) {
    || a.year < b.year
    || (a.year == b.year && (a.month < b.month || (a.month == b.month && a.day < b.day)))
  }

  lemma EarlierNumberEarlierDate(a: Date, b: Date)
    requires ValidDate(a) && ValidDate(b) && DayNumber(a) < DayNumber(b)
    ensures DateLess(a, b)
  {
    WithinYear(a);
    WithinYear(b);
    if b.year < a.year {
      YearsGrow(b.year + 1, a.year);
    } else if a.year == b.year && b.month < a.month {
      MonthsGrow(a.year, b.month + 1, a.month);
    }
  }

  predicate TimeLess(a: (nat, nat, nat), b: (nat, nat, nat)) {
    a.0 < b.0 || (a.0 == b.0 && (a.1 < b.1 || (a.1 == b.1 && a.2 < b.2)))
  }

  predicate ClockTime(t: (nat, nat, nat)) {
    t.0 < 24 && t.1 < 60 && t.2 < 60
  }

  lemma TimeSplits(secs: nat)
    ensures ClockTime(TimeOfDay(secs))
    ensures var t := TimeOfDay(secs); t.0 * 3600 + t.1 * 60 + t.2 == secs % 86_400
  {
  }

  function ClockText(t: (nat, nat, nat)): string {
    "T" + (Padded(t.0, 2) + (":" + (Padded(t.1, 2) + (":" + (Padded(t.2, 2) + "Z")))))
  }

  lemma ClockTextKeepsOrder(a: (nat, nat, nat), b: (nat, nat, nat))
    requires ClockTime(a) && ClockTime(b) && TimeLess(a, b)
    ensures TextLess(ClockText(a), ClockText(b))
  {
    assert Pow10(2) == 100;
    var ra, rb := ":" + (Padded(a.2, 2) + "Z"), ":" + (Padded(b.2, 2) + "Z");
    var qa, qb := ":" + (Padded(a.1, 2) + ra), ":" + (Padded(b.1, 2) + rb);
    if a.0 == b.0 {
      if a.1 == b.1 {
        FieldDecides(a.2, b.2, 2, "Z", "Z");
        TextLessAfterPrefix(":", Padded(a.2, 2) + "Z", Padded(b.2, 2) + "Z");
      }
      FieldDecides(a.1, b.1, 2, ra, rb);
      TextLessAfterPrefix(":", Padded(a.1, 2) + ra, Padded(b.1, 2) + rb);
    }
    FieldDecides(a.0, b.0, 2, qa, qb);
    TextLessAfterPrefix("T", Padded(a.0, 2) + qa, Padded(b.0, 2) + qb);
  }

  lemma DateTextKeepsOrder(a: Date, b: Date, restA: string, restB: string)
    requires ValidDate(a) && ValidDate(b) && 0 <= a.year <= 9999 && 0 <= b.year <= 9999
    requires DateLess(a, b) || (a == b && TextLess(restA, restB))
    ensures TextLess(Padded(a.year, 4) + ("-" + (Padded(a.month, 2) + ("-" + (Padded(a.day, 2) + restA)))),
                     Padded(b.year, 4) + ("-" + (Padded(b.month, 2) + ("-" + (Padded(b.day, 2) + restB)))))
  {
    assert Pow10(2) == 100 && Pow10(4) == 10_000;
    var da, db := "-" + (Padded(a.day, 2) + restA), "-" + (Padded(b.day, 2) + restB);
    var ma, mb := "-" + (Padded(a.month, 2) + da), "-" + (Padded(b.month, 2) + db);
    if a.year == b.year {
      if a.month == b.month {
        FieldDecides(a.day, b.day, 2, restA, restB);
        TextLessAfterPrefix("-", Padded(a.day, 2) + restA, Padded(b.day, 2) + restB);
      }
      FieldDecides(a.month, b.month, 2, da, db);
      TextLessAfterPrefix("-", Padded(a.month, 2) + da, Padded(b.month, 2) + db);
    }
    FieldDecides(a.year, b.year, 4, ma, mb);
  }

  lemma AssembleNested(y: string, mo: string, d: string, h: string, mi: string, s: string)
    ensures Assemble(y, mo, d, h, mi, s) ==
              y + ("-" + (mo + ("-" + (d + ("T" + (h + (":" + (mi + (":" + (s + "Z"))))))))))
  {
  }

  lemma DateOfSecond(secs: nat)
    ensures var date := CivilFromDays(secs / 86_400);
            ValidDate(date) && DayNumber(date) == secs / 86_400 && date.year >= 1970
  {
    CivilHasItsNumber(secs / 86_400);
    YearIsPositive(CivilFromDays(secs / 86_400));
  }

  lemma RenderKeepsOrder(a: Date, b: Date, s: (nat, nat, nat), t: (nat, nat, nat))
    requires ValidDate(a) && ValidDate(b) && 0 <= a.year <= 9999 && 0 <= b.year <= 9999
    requires ClockTime(s) && ClockTime(t)
    requires DateLess(a, b) || (a == b && TimeLess(s, t))
    ensures TextLess(Render(a, s), Render(b, t))
  {
    AssembleNested(Padded(a.year, 4), Padded(a.month, 2), Padded(a.day, 2),
                   Padded(s.0, 2), Padded(s.1, 2), Padded(s.2, 2));
    AssembleNested(Padded(b.year, 4), Padded(b.month, 2), Padded(b.day, 2),
                   Padded(t.0, 2), Padded(t.1, 2), Padded(t.2, 2));
    if a == b {
      ClockTextKeepsOrder(s, t);
    }
    DateTextKeepsOrder(a, b, ClockText(s), ClockText(t));
  }

  /** The year has four digits exactly before the year 10000. */
  lemma FourDigitYears(secs: nat)
    ensures CivilFromDays(secs / 86_400).year <= 9999 <==> secs < YEAR_10000
  {
    var date := CivilFromDays(secs / 86_400);
    CivilHasItsNumber(secs / 86_400);
    WithinYear(date);
    assert DaysBeforeYear(10_000) - 719_162 == 2_932_896 + 1;
    if date.year <= 9999 {
      YearsGrow(date.year + 1, 10_000);
    } else {
      YearsGrow(10_000, date.year);
    }
  }

  lemma LaterReadsLater(a: nat, b: nat)
    requires a < b < YEAR_10000
    ensures TextLess(Timestamp(a), Timestamp(b))
  {
    var da, db := CivilFromDays(a / 86_400), CivilFromDays(b / 86_400);
    FourDigitYears(a);
    FourDigitYears(b);
    DateOfSecond(a);
    DateOfSecond(b);
    TimeSplits(a);
    TimeSplits(b);
    if a / 86_400 < b / 86_400 {
      EarlierNumberEarlierDate(da, db);
    } else {
      SameDayLater(a, b);
    }
    RenderKeepsOrder(da, db, TimeOfDay(a), TimeOfDay(b));
  }

  lemma SameDayLater(a: nat, b: nat)
    requires a < b && a / 86_400 == b / 86_400
    ensures ClockTime(TimeOfDay(a)) && ClockTime(TimeOfDay(b)) && TimeLess(TimeOfDay(a), TimeOfDay(b))
  {
    TimeSplits(a);
    TimeSplits(b);
  }

  /** Sorting the texts sorts the instants, up to any last second N, exactly when N lies before the
      year 10000. */
  lemma TextOrderIsTimeOrderExactlyBefore(last: nat)
    ensures (forall a: nat, b: nat | a < b <= last :: TextLess(Timestamp(a), Timestamp(b))) <==> last < YEAR_10000
  {
    if last < YEAR_10000 {
      forall a: nat, b: nat | a < b <= last ensures TextLess(Timestamp(a), Timestamp(b)) {
        LaterReadsLater(a, b);
      }
    } else {
      YearTenThousandSortsFirst();
    }
  }

  lemma FirstDigitIsTheYears(secs: nat, date: Date)
    requires ValidDate(date) && date.year >= 1970 && DayNumber(date) == secs / 86_400
    ensures Timestamp(secs) != [] && Padded(date.year, 4) != [] && Timestamp(secs)[0] == Padded(date.year, 4)[0]
  {
    CivilInvertsDayNumber(date, secs / 86_400);
  }

  lemma NinesBegin()
    ensures Padded(9999, 4) != [] && Padded(9999, 4)[0] == '9'
  {
    assert Digits(9999) == Digits(999) + [DigitChar(9)] && Digits(999) == Digits(99) + [DigitChar(9)];
    assert Digits(99)[0] == '9' && |Digits(99)| == 2;
  }

  lemma TenThousandBegins()
    ensures Padded(10_000, 4) != [] && Padded(10_000, 4)[0] == '1'
  {
    assert Digits(10_000) == Digits(1000) + [DigitChar(0)] && Digits(1000) == Digits(100) + [DigitChar(0)];
    assert Digits(100)[0] == '1' && |Digits(100)| == 3;
  }

  lemma EveOfTenThousand()
    ensures var eve, day := Date(9999, 12, 31), Date(10_000, 1, 1);
            && ValidDate(eve) && DayNumber(eve) == (YEAR_10000 - 1) / 86_400
            && ValidDate(day) && DayNumber(day) == YEAR_10000 / 86_400
  {
    MonthTable(9999, 12);
    MonthTable(10_000, 1);
  }

  lemma YearTenThousandSortsFirst()
    ensures !TextLess(Timestamp(YEAR_10000 - 1), Timestamp(YEAR_10000))
  {
    EveOfTenThousand();
    FirstDigitIsTheYears(YEAR_10000 - 1, Date(9999, 12, 31));
    FirstDigitIsTheYears(YEAR_10000, Date(10_000, 1, 1));
    NinesBegin();
    TenThousandBegins();
    LargerFirstCharacter(Timestamp(YEAR_10000 - 1), Timestamp(YEAR_10000));
  }

  lemma LargerFirstCharacter(a: string, b: string)
    requires a != [] && b != [] && b[0] < a[0]
    ensures !TextLess(a, b)
  {
  }

  // -------------------------------------------------------------------------------------------
  // Reading a timestamp back

  /** A number written in digits, 0 for anything else. */
  function ReadNumber(s: string): nat {
    if AllDigits(s) then Value(s) else 0
  }

  /** The second denoted by `YYYY-MM-DDThh:mm:ssZ`. */
  function ReadTimestamp(text: string): int
    requires |text| == 20
  {
    var month := ReadNumber(text[5..7]);
    var date := Date(ReadNumber(text[..4]), if month == 0 then 1 else month, ReadNumber(text[8..10]));
    86_400 * DayNumber(date)
    + 3600 * ReadNumber(text[11..13]) + 60 * ReadNumber(text[14..16]) + ReadNumber(text[17..19])
  }

  /** `YYYY-MM-DDThh:mm:ssZ`, with two digits where two are written. */
  predicate FullDateTime(text: string) {
    && |text| == 20
    && text[4] == '-' && text[7] == '-' && text[10] == 'T' && text[13] == ':' && text[16] == ':' && text[19] == 'Z'
    && AllDigits(text[..4]) && AllDigits(text[5..7]) && AllDigits(text[8..10])
    && AllDigits(text[11..13]) && AllDigits(text[14..16]) && AllDigits(text[17..19])
  }

  lemma PaddedReads(n: nat, width: nat)
    requires n < Pow10(width) && width > 0
    ensures |Padded(n, width)| == width && ReadNumber(Padded(n, width)) == n
  {
    PaddedIsFixed(n, width);
    ValueOfFixed(n, width);
  }

  lemma Slices(y: string, mo: string, d: string, h: string, mi: string, s: string)
    requires |y| == 4 && |mo| == |d| == |h| == |mi| == |s| == 2
    ensures var text := Assemble(y, mo, d, h, mi, s);
            && |text| == 20
            && text[..4] == y && text[5..7] == mo && text[8..10] == d
            && text[11..13] == h && text[14..16] == mi && text[17..19] == s
            && text[4] == '-' && text[7] == '-' && text[10] == 'T'
            && text[13] == ':' && text[16] == ':' && text[19] == 'Z'
  {
  }

  lemma RenderReads(date: Date, t: (nat, nat, nat))
    requires ValidDate(date) && 0 <= date.year <= 9999 && ClockTime(t)
    ensures FullDateTime(Render(date, t))
    ensures ReadTimestamp(Render(date, t)) == 86_400 * DayNumber(date) + 3600 * t.0 + 60 * t.1 + t.2
  {
    assert Pow10(2) == 100 && Pow10(4) == 10_000;
    PaddedReads(date.year, 4);
    PaddedReads(date.month, 2);
    PaddedReads(date.day, 2);
    PaddedReads(t.0, 2);
    PaddedReads(t.1, 2);
    PaddedReads(t.2, 2);
    Slices(Padded(date.year, 4), Padded(date.month, 2), Padded(date.day, 2),
           Padded(t.0, 2), Padded(t.1, 2), Padded(t.2, 2));
  }

  /** Before the year 10000 the text has the form of section 5.6 of RFC 3339, and reading it back
      gives the second it was made from. */
  lemma TimestampRoundTrip(secs: nat)
    requires secs < YEAR_10000
    ensures FullDateTime(Timestamp(secs)) && ReadTimestamp(Timestamp(secs)) == secs
  {
    FourDigitYears(secs);
    DateOfSecond(secs);
    TimeSplits(secs);
    RenderReads(CivilFromDays(secs / 86_400), TimeOfDay(secs));
  }
}

/** The calendar arithmetic of `clift-core/src/calendar.rs`: days since 1970-01-01 to a proleptic Gregorian
    date and back, checked against the calendar itself (leap years, month lengths, the day after a date). */
module Calendar {
  import opened Prelude
  import opened Decimal

  datatype Date = Date(year: int, month: U32, day: U32)

  /** Division that truncates toward zero, for a positive divisor. */
  function TruncDiv(a: int, b: int): int
    requires b > 0
  {
    if a >= 0 then a / b else -(-a / b)
  }

  /** `u32::try_from(x).unwrap_or(1)` */
  function ToU32Or1(x: int): U32 {
    if 0 <= x < 0x1_0000_0000 then x else 1
  }

  function DaysFromCivil(date: Date): int {
    var year := if date.month <= 2 then date.year - 1 else date.year;
    var era := TruncDiv(if year >= 0 then year else year - 399, 400);
    var yearOfEra := year - era * 400;
    var dayOfYear := TruncDiv(153 * (date.month + if date.month > 2 then -3 else 9) + 2, 5) + date.day - 1;
    var dayOfEra := yearOfEra * 365 + TruncDiv(yearOfEra, 4) - TruncDiv(yearOfEra, 100) + dayOfYear;
    era * 146_097 + dayOfEra - 719_468
  }

  /** The March-based coordinates `civil_from_days` computes on the way. */
  datatype Parts = Parts(era: int, yearOfEra: int, dayOfYear: int, monthPrime: int)

  function YearOfEra(dayOfEra: int): int {
    TruncDiv(dayOfEra - TruncDiv(dayOfEra, 1460) + TruncDiv(dayOfEra, 36_524) - TruncDiv(dayOfEra, 146_096), 365)
  }

  function PartsFromDays(days: int): Parts {
    var days := days + 719_468;
    var era := TruncDiv(if days >= 0 then days else days - 146_096, 146_097);
    var dayOfEra := days - era * 146_097;
    var yearOfEra := YearOfEra(dayOfEra);
    var dayOfYear := dayOfEra - (365 * yearOfEra + TruncDiv(yearOfEra, 4) - TruncDiv(yearOfEra, 100));
    Parts(era, yearOfEra, dayOfYear, TruncDiv(5 * dayOfYear + 2, 153))
  }

  /** The day and the month before their conversion to `u32`. */
  function RawDay(p: Parts): int {
    p.dayOfYear - TruncDiv(153 * p.monthPrime + 2, 5) + 1
  }

  function RawMonth(p: Parts): int {
    p.monthPrime + if p.monthPrime < 10 then 3 else -9
  }

  function CivilFromDays(days: int): Date {
    var p := PartsFromDays(days);
    var year := p.yearOfEra + p.era * 400;
    var day := ToU32Or1(RawDay(p));
    var month := ToU32Or1(RawMonth(p));
    Date(if month <= 2 then year + 1 else year, month, day)
  }

  // ---------- The calendar the arithmetic has to agree with ----------

  predicate IsLeap(year: int) {
    year % 4 == 0 && (year % 100 != 0 || year % 400 == 0)
  }

  function DaysInMonth(year: int, month: int): int {
    if month == 2 then (if IsLeap(year) then 29 else 28)
    else if month in {4, 6, 9, 11} then 30
    else 31
  }

  predicate IsDate(date: Date) {
    1 <= date.month <= 12 && 1 <= date.day <= DaysInMonth(date.year, date.month)
  }

  function NextDate(date: Date): Date
    requires IsDate(date)
  {
    if date.day < DaysInMonth(date.year, date.month) then date.(day := date.day + 1)
    else if date.month < 12 then Date(date.year, date.month + 1, 1)
    else Date(date.year + 1, 1, 1)
  }

  predicate Before(a: Date, b: Date) {
    a.year < b.year || (a.year == b.year && (a.month < b.month || (a.month == b.month && a.day < b.day)))
  }

  // ---------- Years within an era ----------

  /** Days before March-based year `y` of an era. */
  function DaysBeforeYear(y: int): int {
    365 * y + y / 4 - y / 100
  }

  /** How many days the March-based year `y` has: it ends with the February of `y + 1`. */
  function YearLength(y: int): int {
    if IsLeap(y + 1) then 366 else 365
  }

  lemma DaysBeforeNextYear(y: int)
    requires 0 <= y < 399
    ensures DaysBeforeYear(y + 1) == DaysBeforeYear(y) + YearLength(y)
  {
    NextQuotients(y);
  }

  lemma NextQuotients(y: int)
    requires y >= 0
    ensures (y + 1) / 4 == y / 4 + if (y + 1) % 4 == 0 then 1 else 0
    ensures (y + 1) / 100 == y / 100 + if (y + 1) % 100 == 0 then 1 else 0
  {
  }

  /** Year `100c + 4q + r` of an era, day `d`: every quotient in `YearOfEra` is known exactly. */
  lemma YearOfEraAt(c: int, q: int, r: int, d: int)
    requires 0 <= c < 4 && 0 <= q < 25 && 0 <= r < 4 && 0 <= d < 366
    requires d == 365 ==> r == 3 && (q == 24 ==> c == 3)
    ensures YearOfEra(36_524 * c + 1461 * q + 365 * r + d) == 100 * c + 4 * q + r
  {
    var e := 1461 * q + 365 * r + d;
    var doe := 36_524 * c + e;
    assert e <= 36_524 && (e == 36_524 ==> c == 3);
    assert doe / 36_524 == if e == 36_524 then c + 1 else c;
    assert doe / 146_096 == if e == 36_524 then 1 else 0;
    var t := q + 24 * c + 365 * r + d;
    var carry := if t >= 1460 then 1 else 0;
    assert doe == 1460 * (25 * c + q + carry) + (t - 1460 * carry);
    assert doe / 1460 == 25 * c + q + carry;
    assert d - 364 <= carry <= d;
    var n := doe - doe / 1460 + doe / 36_524 - doe / 146_096;
    assert n == 365 * (100 * c + 4 * q + r) + (d - carry);
  }

  lemma YearOfEraIsExact(y: int, d: int)
    requires 0 <= y < 400 && 0 <= d < YearLength(y)
    ensures 0 <= DaysBeforeYear(y) + d < 146_097
    ensures YearOfEra(DaysBeforeYear(y) + d) == y
  {
    var c := y / 100;
    var q := (y - 100 * c) / 4;
    var r := y - 100 * c - 4 * q;
    assert y / 4 == 25 * c + q;
    assert d == 365 ==> (y + 1) % 4 == 0 && ((y + 1) % 100 == 0 ==> y + 1 == 400);
    YearOfEraAt(c, q, r, d);
  }

  /** Every day of an era lies in exactly one of its years. */
  lemma FindYear(dayOfEra: int, y: int) returns (year: int, d: int)
    requires 0 <= y < 400 && DaysBeforeYear(y) <= dayOfEra < 146_097
    ensures 0 <= year < 400 && 0 <= d < YearLength(year)
    ensures dayOfEra == DaysBeforeYear(year) + d
    decreases 400 - y
  {
    if dayOfEra < DaysBeforeYear(y) + YearLength(y) {
      year, d := y, dayOfEra - DaysBeforeYear(y);
    } else {
      assert y < 399;
      DaysBeforeNextYear(y);
      year, d := FindYear(dayOfEra, y + 1);
    }
  }

  // ---------- From dates to days and back ----------

  lemma RemainderBy4(x: int, k: int)
    ensures (x + 4 * k) % 4 == x % 4
  {
  }

  lemma RemainderBy100(x: int, k: int)
    ensures (x + 100 * k) % 100 == x % 100
  {
  }

  lemma RemainderBy400(x: int, k: int)
    ensures (x + 400 * k) % 400 == x % 400
  {
  }

  lemma LeapYearsRepeat(year: int, era: int)
    ensures IsLeap(year + 400 * era) == IsLeap(year)
  {
    RemainderBy4(year, 100 * era);
    RemainderBy100(year, 4 * era);
    RemainderBy400(year, era);
  }

  lemma EraIsExact(era: int, y: int)
    requires 0 <= y < 400
    ensures var year := y + era * 400; TruncDiv(if year >= 0 then year else year - 399, 400) == era
  {
    if y + era * 400 < 0 {
      assert -(y + era * 400 - 399) == 400 * -era + (399 - y);
    }
  }

  lemma EraOfDayIsExact(era: int, doe: int)
    requires 0 <= doe < 146_097
    ensures var days := era * 146_097 + doe;
            TruncDiv(if days >= 0 then days else days - 146_096, 146_097) == era
  {
    if era * 146_097 + doe < 0 {
      assert -(era * 146_097 + doe - 146_096) == 146_097 * -era + (146_096 - doe);
    }
  }

  /** The date of month `mp` after March, in March-based year `y` of an era. */
  function MarchDate(era: int, y: int, mp: int, day: U32): Date
    requires 0 <= mp < 12
  {
    var month := mp + if mp < 10 then 3 else -9;
    Date(era * 400 + y + if mp < 10 then 0 else 1, month, day)
  }

  lemma MonthLengths(era: int, y: int, mp: int)
    requires 0 <= y < 400 && 0 <= mp < 12
    ensures var date := MarchDate(era, y, mp, 1);
            DaysInMonth(date.year, date.month)
            == (if mp == 11 then YearLength(y) - 337 else (153 * (mp + 1) + 2) / 5 - (153 * mp + 2) / 5)
  {
    LeapYearsRepeat(y + 1, era);
  }

  lemma MonthIsExact(mp: int, day: int)
    requires 0 <= mp < 12
    requires 1 <= day <= if mp == 11 then 29 else (153 * (mp + 1) + 2) / 5 - (153 * mp + 2) / 5
    ensures (5 * ((153 * mp + 2) / 5 + day - 1) + 2) / 153 == mp
  {
  }

  lemma DaysOfMarchDate(era: int, y: int, mp: int, day: U32)
    requires 0 <= y < 400 && 0 <= mp < 12
    ensures DaysFromCivil(MarchDate(era, y, mp, day))
         == era * 146_097 + DaysBeforeYear(y) + ((153 * mp + 2) / 5 + day - 1) - 719_468
  {
    EraIsExact(era, y);
  }

  lemma PartsOfDays(era: int, y: int, d: int)
    requires 0 <= y < 400 && 0 <= d < YearLength(y)
    ensures PartsFromDays(era * 146_097 + DaysBeforeYear(y) + d - 719_468) == Parts(era, y, d, (5 * d + 2) / 153)
  {
    YearOfEraIsExact(y, d);
    EraOfDayIsExact(era, DaysBeforeYear(y) + d);
  }

  /** Both conversions, on the date of day `day` of month `mp` of March-based year `y`. */
  lemma BothWays(era: int, y: int, mp: int, day: U32)
    requires 0 <= y < 400 && 0 <= mp < 12
    requires IsDate(MarchDate(era, y, mp, day))
    ensures var date := MarchDate(era, y, mp, day);
            var dayOfYear := (153 * mp + 2) / 5 + day - 1;
            && 0 <= dayOfYear < YearLength(y)
            && DaysFromCivil(date) == era * 146_097 + DaysBeforeYear(y) + dayOfYear - 719_468
            && PartsFromDays(DaysFromCivil(date)) == Parts(era, y, dayOfYear, mp)
            && CivilFromDays(DaysFromCivil(date)) == date
  {
    hide DaysFromCivil, PartsFromDays, CivilFromDays, DaysBeforeYear;
    var dayOfYear := (153 * mp + 2) / 5 + day - 1;
    MonthLengths(era, y, mp);
    MonthIsExact(mp, day);
    DaysOfMarchDate(era, y, mp, day);
    PartsOfDays(era, y, dayOfYear);
    CivilOfParts(era, y, mp, day, DaysFromCivil(MarchDate(era, y, mp, day)));
  }

  lemma CivilOfParts(era: int, y: int, mp: int, day: U32, days: int)
    requires 0 <= y < 400 && 0 <= mp < 12 && day > 0
    requires PartsFromDays(days) == Parts(era, y, (153 * mp + 2) / 5 + day - 1, mp)
    ensures CivilFromDays(days) == MarchDate(era, y, mp, day)
  {
    hide PartsFromDays;
  }

  lemma FindMarchDate(date: Date) returns (era: int, y: int, mp: int)
    requires IsDate(date)
    ensures 0 <= y < 400 && 0 <= mp < 12
    ensures MarchDate(era, y, mp, date.day) == date
  {
    var year := if date.month <= 2 then date.year - 1 else date.year;
    era := year / 400;
    y := year - 400 * era;
    mp := date.month + if date.month > 2 then -3 else 9;
  }

  lemma CivilAfterDays(date: Date)
    requires IsDate(date)
    ensures CivilFromDays(DaysFromCivil(date)) == date
  {
    var era, y, mp := FindMarchDate(date);
    BothWays(era, y, mp, date.day);
  }

  /** Day `d` of a March-based year lies in exactly one month. */
  lemma FindMonth(era: int, y: int, d: int) returns (mp: int, day: U32)
    requires 0 <= y < 400 && 0 <= d < YearLength(y)
    ensures 0 <= mp < 12 && d == (153 * mp + 2) / 5 + day - 1
    ensures IsDate(MarchDate(era, y, mp, day))
  {
    mp := (5 * d + 2) / 153;
    day := d - (153 * mp + 2) / 5 + 1;
    MonthLengths(era, y, mp);
  }

  /** Every day has a date: a valid one, found without either conversion falling back to 1. */
  lemma EveryDayHasADate(days: int)
    ensures IsDate(CivilFromDays(days))
    ensures DaysFromCivil(CivilFromDays(days)) == days
    ensures var p := PartsFromDays(days); 1 <= RawDay(p) <= 31 && 1 <= RawMonth(p) <= 12
  {
    hide DaysFromCivil, CivilFromDays, PartsFromDays, YearLength;
    var shifted := days + 719_468;
    var era := shifted / 146_097;
    var y, d := FindYear(shifted - 146_097 * era, 0);
    var mp, day := FindMonth(era, y, d);
    BothWays(era, y, mp, day);
  }

  // ---------- The calendar's own order ----------

  /** The next day, in March-based coordinates. */
  lemma NextMarchDate(era: int, y: int, mp: int, day: U32) returns (era': int, y': int, mp': int, day': U32)
    requires 0 <= y < 400 && 0 <= mp < 12
    requires IsDate(MarchDate(era, y, mp, day))
    ensures 0 <= y' < 400 && 0 <= mp' < 12
    ensures IsDate(MarchDate(era', y', mp', day'))
    ensures MarchDate(era', y', mp', day') == NextDate(MarchDate(era, y, mp, day))
    ensures era' * 146_097 + DaysBeforeYear(y') + (153 * mp' + 2) / 5 + day'
         == era * 146_097 + DaysBeforeYear(y) + (153 * mp + 2) / 5 + day + 1
  {
    MonthLengths(era, y, mp);
    var date := MarchDate(era, y, mp, day);
    if day < DaysInMonth(date.year, date.month) {
      era', y', mp', day' := era, y, mp, day + 1;
    } else if mp < 11 {
      era', y', mp', day' := era, y, mp + 1, 1;
      MonthLengths(era, y, mp + 1);
    } else if y < 399 {
      era', y', mp', day' := era, y + 1, 0, 1;
      DaysBeforeNextYear(y);
    } else {
      era', y', mp', day' := era + 1, 0, 0, 1;
    }
  }

  lemma DayAfter(date: Date, days: int)
    requires IsDate(date) && DaysFromCivil(date) == days
    ensures CivilFromDays(days + 1) == NextDate(date)
  {
    hide DaysFromCivil, CivilFromDays, IsDate, NextDate, MarchDate, DaysBeforeYear;
    var era, y, mp := FindMarchDate(date);
    var era', y', mp', day' := NextMarchDate(era, y, mp, date.day);
    DayNumbers(era, y, mp, date.day, era', y', mp', day');
  }

  lemma DayNumbers(era: int, y: int, mp: int, day: U32, era': int, y': int, mp': int, day': U32)
    requires 0 <= y < 400 && 0 <= mp < 12 && 0 <= y' < 400 && 0 <= mp' < 12
    requires IsDate(MarchDate(era', y', mp', day'))
    requires era' * 146_097 + DaysBeforeYear(y') + (153 * mp' + 2) / 5 + day'
          == era * 146_097 + DaysBeforeYear(y) + (153 * mp + 2) / 5 + day + 1
    ensures CivilFromDays(DaysFromCivil(MarchDate(era, y, mp, day)) + 1) == MarchDate(era', y', mp', day')
  {
    hide DaysFromCivil, CivilFromDays, PartsFromDays, IsDate, DaysBeforeYear;
    DaysOfMarchDate(era, y, mp, day);
    BothWays(era', y', mp', day');
  }

  /** Day n + 1 is the calendar's successor of day n; with day 0 being 1970-01-01 that settles every day. */
  lemma SuccessorOfADay(days: int)
    ensures IsDate(CivilFromDays(days)) && CivilFromDays(days + 1) == NextDate(CivilFromDays(days))
  {
    EveryDayHasADate(days);
    DayAfter(CivilFromDays(days), days);
  }

  lemma DayZero()
    ensures CivilFromDays(0) == Date(1970, 1, 1)
  {
    BothWays(4, 369, 10, 1);
  }

  lemma BeforeIsTransitive(a: Date, b: Date, c: Date)
    requires Before(a, b) && Before(b, c)
    ensures Before(a, c)
  {
  }

  lemma BeforeItsSuccessor(a: Date)
    requires IsDate(a)
    ensures Before(a, NextDate(a))
  {
  }

  lemma {:induction false} LaterDaysAreLaterDates(n: int, m: int)
    requires n < m
    ensures Before(CivilFromDays(n), CivilFromDays(m))
    decreases m - n
  {
    SuccessorOfADay(m - 1);
    BeforeItsSuccessor(CivilFromDays(m - 1));
    if n < m - 1 {
      LaterDaysAreLaterDates(n, m - 1);
      BeforeIsTransitive(CivilFromDays(n), CivilFromDays(m - 1), CivilFromDays(m));
    }
  }

  lemma DateOrderIsDayOrder(n: int, m: int)
    ensures Before(CivilFromDays(n), CivilFromDays(m)) <==> n < m
  {
    if n < m {
      LaterDaysAreLaterDates(n, m);
    } else if m < n {
      LaterDaysAreLaterDates(m, n);
    }
  }

  // ---------- Dates and instants as text ----------

  /** `{year:04}`: the sign counts toward the width. */
  function YearText(year: int): string {
    if year >= 0 then ZeroPad(Digits(year), 4) else "-" + ZeroPad(Digits(-year), 3)
  }

  function TwoDigits(n: nat): string {
    ZeroPad(Digits(n), 2)
  }

  function DateText(date: Date): string {
    YearText(date.year) + ("-" + (TwoDigits(date.month) + ("-" + TwoDigits(date.day))))
  }

  function FormatDate(seconds: int): string {
    DateText(CivilFromDays(seconds / 86_400))
  }

  function ClockText(hour: nat, minute: nat, second: nat): string {
    "T" + (TwoDigits(hour) + (":" + (TwoDigits(minute) + (":" + (TwoDigits(second) + "Z")))))
  }

  function TimeText(time: nat): string {
    ClockText(time / 3600, time % 3600 / 60, time % 60)
  }

  function FormatTimestamp(seconds: int): string {
    DateText(CivilFromDays(seconds / 86_400)) + TimeText(seconds % 86_400)
  }

  lemma FieldSorts(a: nat, b: nat, s: string, t: string)
    requires a < 100 && b < 100
    ensures LexLess(TwoDigits(a) + s, TwoDigits(b) + t) <==> a < b || (a == b && LexLess(s, t))
  {
    assert Pow10(1) == 10 && Pow10(2) == 100 by { assert Pow10(0) == 1; }
    DigitCount(a, 2);
    DigitCount(b, 2);
    PaddedIsFixed(a, 2);
    PaddedIsFixed(b, 2);
    FixedSorts(a, b, 2, s, t);
  }

  lemma YearIsFixed(year: nat) returns (w: nat)
    ensures w == |YearText(year)| >= 4
    ensures YearText(year) == Fixed(year, w) && year < Pow10(w)
    ensures year < 10_000 ==> w == 4
    ensures w > 4 ==> YearText(year) == Digits(year)
  {
    w := |YearText(year)|;
    PaddedIsFixed(year, 4);
    DigitCount(year, 4);
    assert Pow10(4) == 10_000 by { assert Pow10(0) == 1; assert Pow10(1) == 10; assert Pow10(2) == 100; }
  }

  function MonthAndDay(date: Date): string {
    "-" + (TwoDigits(date.month) + ("-" + TwoDigits(date.day)))
  }

  lemma MonthAndDaySort(a: Date, b: Date, s: string, t: string)
    requires IsDate(a) && IsDate(b)
    ensures LexLess(MonthAndDay(a) + s, MonthAndDay(b) + t)
       <==> a.month < b.month || (a.month == b.month && (a.day < b.day || (a.day == b.day && LexLess(s, t))))
  {
    hide LexLess, TwoDigits;
    var a', b' := TwoDigits(a.day) + s, TwoDigits(b.day) + t;
    FieldSorts(a.day, b.day, s, t);
    LexLessSameStart('-', a', b');
    FieldSorts(a.month, b.month, "-" + a', "-" + b');
    LexLessSameStart('-', TwoDigits(a.month) + ("-" + a'), TwoDigits(b.month) + ("-" + b'));
    assert MonthAndDay(a) + s == "-" + (TwoDigits(a.month) + ("-" + a'));
    assert MonthAndDay(b) + t == "-" + (TwoDigits(b.month) + ("-" + b'));
  }

  lemma DateTextParts(date: Date, s: string)
    ensures DateText(date) + s == YearText(date.year) + (MonthAndDay(date) + s)
  {
    hide YearText, TwoDigits;
    assert DateText(date) == YearText(date.year) + MonthAndDay(date);
  }

  /** Two dates of years written with the same number of digits sort as text the way they sort in time. */
  lemma DateTextSorts(a: Date, b: Date, s: string, t: string)
    requires IsDate(a) && IsDate(b) && a.year >= 0 && b.year >= 0
    requires |YearText(a.year)| == |YearText(b.year)|
    ensures LexLess(DateText(a) + s, DateText(b) + t) <==> Before(a, b) || (a == b && LexLess(s, t))
  {
    hide LexLess, YearText, MonthAndDay, DateText, Fixed, Pow10, IsDate;
    var w := YearIsFixed(a.year);
    var w' := YearIsFixed(b.year);
    FixedSorts(a.year, b.year, w, MonthAndDay(a) + s, MonthAndDay(b) + t);
    MonthAndDaySort(a, b, s, t);
    DateTextParts(a, s);
    DateTextParts(b, t);
  }

  predicate FourDigitYear(seconds: int) {
    0 <= CivilFromDays(seconds / 86_400).year < 10_000
  }

  lemma ClockTextSorts(h: nat, m: nat, s: nat, h': nat, m': nat, s': nat)
    requires h < 24 && m < 60 && s < 60 && h' < 24 && m' < 60 && s' < 60
    ensures LexLess(ClockText(h, m, s), ClockText(h', m', s'))
       <==> h < h' || (h == h' && (m < m' || (m == m' && s < s')))
  {
    var a, b := TwoDigits(s) + "Z", TwoDigits(s') + "Z";
    FieldSorts(s, s', "Z", "Z");
    LexLessSameStart(':', a, b);
    FieldSorts(m, m', ":" + a, ":" + b);
    var c, d := TwoDigits(m) + (":" + a), TwoDigits(m') + (":" + b);
    LexLessSameStart(':', c, d);
    FieldSorts(h, h', ":" + c, ":" + d);
    LexLessSameStart('T', TwoDigits(h) + (":" + c), TwoDigits(h') + (":" + d));
  }

  lemma TimeTextSorts(a: nat, b: nat)
    requires a < 86_400 && b < 86_400
    ensures LexLess(TimeText(a), TimeText(b)) <==> a < b
  {
    hide LexLess, ClockText;
    ClockTextSorts(a / 3600, a % 3600 / 60, a % 60, b / 3600, b % 3600 / 60, b % 60);
    assert a == 3600 * (a / 3600) + 60 * (a % 3600 / 60) + a % 60;
    assert b == 3600 * (b / 3600) + 60 * (b % 3600 / 60) + b % 60;
  }

  /** Date directory names and recorded instants of years 0 to 9999 sort chronologically. */
  lemma TextSortsChronologically(a: int, b: int)
    requires FourDigitYear(a) && FourDigitYear(b)
    ensures LexLess(FormatDate(a), FormatDate(b)) <==> a / 86_400 < b / 86_400
    ensures LexLess(FormatTimestamp(a), FormatTimestamp(b)) <==> a < b
  {
    var n, m := a / 86_400, b / 86_400;
    TextOfDaysSorts(n, m, "", "");
    assert FormatDate(a) + "" == FormatDate(a) && FormatDate(b) + "" == FormatDate(b);
    TextOfDaysSorts(n, m, TimeText(a % 86_400), TimeText(b % 86_400));
    TimeTextSorts(a % 86_400, b % 86_400);
  }

  lemma TextOfDaysSorts(n: int, m: int, s: string, t: string)
    requires 0 <= CivilFromDays(n).year < 10_000 && 0 <= CivilFromDays(m).year < 10_000
    ensures LexLess(DateText(CivilFromDays(n)) + s, DateText(CivilFromDays(m)) + t)
       <==> n < m || (n == m && LexLess(s, t))
  {
    var a, b := CivilFromDays(n), CivilFromDays(m);
    EveryDayHasADate(n);
    EveryDayHasADate(m);
    var w := YearIsFixed(a.year);
    var w' := YearIsFixed(b.year);
    DateTextSorts(a, b, s, t);
    DateOrderIsDayOrder(n, m);
  }

  /** By how many characters one year is written longer than another. */
  function LongerBy(year: int, other: int): nat {
    if |YearText(year)| > |YearText(other)| then |YearText(year)| - |YearText(other)| else 0
  }

  /** Whether the names of an earlier and a later date are in order: from year 0 on, when the earlier year is at most the
      leading digits of the later one; below it, when the leading digits of the earlier year come to less than the later
      one, the sign left out, or the years are the same; and across year 0, always. */
  predicate NamesSort(earlier: Date, later: Date) {
    if earlier.year >= 0 && later.year >= 0 then
      earlier.year <= DropDigits(later.year, LongerBy(later.year, earlier.year))
    else if earlier.year < 0 && later.year < 0 then
      earlier.year == later.year || DropDigits(-earlier.year, LongerBy(earlier.year, later.year)) < -later.year
    else earlier.year < 0
  }

  /** Past year 9999 and below year 0 they no longer always do. Of an earlier and a later day, whatever the years, the
      names are in order exactly when `NamesSort` says so. */
  lemma DateNamesInOrder(n: int, m: int)
    requires n < m
    ensures var a, b := CivilFromDays(n), CivilFromDays(m); LexLess(DateText(a), DateText(b)) <==> NamesSort(a, b)
  {
    hide CivilFromDays, DateText, YearText, DropDigits, LexLess;
    var a, b := CivilFromDays(n), CivilFromDays(m);
    EveryDayHasADate(n);
    EveryDayHasADate(m);
    DateOrderIsDayOrder(n, m);
    if a.year >= 0 {
      NamesInOrder(a, b);
    } else if b.year >= 0 {
      NamesAcrossYearZero(a, b);
    } else {
      NamesBelowYearZero(a, b);
    }
  }

  lemma NamesAcrossYearZero(a: Date, b: Date)
    requires a.year < 0 <= b.year
    ensures LexLess(DateText(a), DateText(b))
  {
    var w := YearIsFixed(b.year);
    assert DateText(a)[0] == '-';
    assert DateText(b)[0] == YearText(b.year)[0];
    assert IsDigit(YearText(b.year)[0]);
  }

  lemma NegativeYearIsFixed(year: int) returns (w: nat)
    requires year < 0
    ensures w + 1 == |YearText(year)| && w >= 3
    ensures YearText(year) == "-" + Fixed(-year, w) && -year < Pow10(w)
    ensures w > 3 ==> |Digits(-year)| == w
  {
    w := |YearText(year)| - 1;
    PaddedIsFixed(-year, 3);
  }

  lemma FurtherIsLonger(a: int, b: int)
    requires a <= b < 0
    ensures |YearText(a)| >= |YearText(b)|
  {
    var w := NegativeYearIsFixed(a);
    var w' := NegativeYearIsFixed(b);
    if w' > 3 {
      DigitCount(-b, w' - 1);
      DigitCount(-a, w' - 1);
    }
  }

  lemma NegativeDateText(date: Date) returns (w: nat)
    requires date.year < 0
    ensures w + 1 == |YearText(date.year)| && -date.year < Pow10(w)
    ensures DateText(date) == "-" + (Fixed(-date.year, w) + MonthAndDay(date))
  {
    w := NegativeYearIsFixed(date.year);
    hide YearText, Fixed, Pow10, TwoDigits;
  }

  lemma LeadingDigits(n: nat, w: nat, k: nat, rest: string)
    ensures Fixed(n, w + k) + rest == Fixed(DropDigits(n, k), w) + (Fixed(n, k) + rest)
  {
    FixedSplit(n, w, k);
    hide Fixed;
  }

  /** Below year 0 later years are written with smaller numbers. */
  lemma NamesBelowYearZero(a: Date, b: Date)
    requires IsDate(a) && IsDate(b) && Before(a, b) && b.year < 0
    ensures LexLess(DateText(a), DateText(b)) <==> NamesSort(a, b)
  {
    hide YearText, DropDigits, DateText, MonthAndDay, Fixed, Pow10, LexLess, IsDate;
    var w := NegativeDateText(a);
    var w' := NegativeDateText(b);
    FurtherIsLonger(a.year, b.year);
    var k := w - w';
    assert k == LongerBy(a.year, b.year);
    var lead := DropDigits(-a.year, k);
    LeadingDigits(-a.year, w', k, MonthAndDay(a));
    DropDigitsBound(-a.year, w', k);
    var s, t := Fixed(-a.year, k) + MonthAndDay(a), MonthAndDay(b);
    LexLessSameStart('-', Fixed(lead, w') + s, Fixed(-b.year, w') + t);
    FixedSorts(lead, -b.year, w', s, t);
    RestsSort(a, b, k);
    if k == 0 {
      NoDigitsDropped(-a.year);
    }
  }

  /** What follows the compared digits: month and day if the years have as many digits, and otherwise a digit where the
      later year has its dash. */
  lemma RestsSort(a: Date, b: Date, k: nat)
    requires IsDate(a) && IsDate(b) && Before(a, b) && a.year < 0
    ensures k == 0 && a.year == b.year ==> LexLess(Fixed(-a.year, 0) + MonthAndDay(a), MonthAndDay(b))
    ensures k > 0 ==> !LexLess(Fixed(-a.year, k) + MonthAndDay(a), MonthAndDay(b))
  {
    hide LexLess, IsDate;
    if k == 0 {
      MonthAndDaySort(a, b, "", "");
      NoDigitsDropped(-a.year);
      assert [] + MonthAndDay(a) == MonthAndDay(a);
      assert MonthAndDay(a) + "" == MonthAndDay(a) && MonthAndDay(b) + "" == MonthAndDay(b);
    } else {
      DigitAfterDash(Fixed(-a.year, k) + MonthAndDay(a), MonthAndDay(b));
    }
  }

  lemma NoDigitsDropped(n: nat)
    ensures DropDigits(n, 0) == n && Fixed(n, 0) == []
  {
  }

  lemma DigitAfterDash(s: string, t: string)
    requires s != "" && t != "" && IsDigit(s[0]) && t[0] == '-'
    ensures !LexLess(s, t)
  {
  }

  lemma NamesInOrder(a: Date, b: Date)
    requires IsDate(a) && IsDate(b) && Before(a, b) && a.year >= 0
    ensures LexLess(DateText(a), DateText(b)) <==> NamesSort(a, b)
  {
    hide Fixed, Digits;
    var w := YearIsFixed(a.year);
    var w' := YearIsFixed(b.year);
    LongerIsLater(a.year, w, b.year, w');
    if w == w' {
      DateTextSorts(a, b, "", "");
      assert DateText(a) + "" == DateText(a) && DateText(b) + "" == DateText(b);
    } else {
      var k := w' - w;
      FixedSplit(b.year, w, k);
      DropDigitsBound(b.year, w, k);
      var rest := Fixed(b.year, k) + MonthAndDay(b);
      assert DateText(b) == Fixed(DropDigits(b.year, k), w) + rest;
      FixedSorts(a.year, DropDigits(b.year, k), w, MonthAndDay(a), rest);
    }
  }

  lemma LongerIsLater(a: nat, w: nat, b: nat, w': nat)
    requires a <= b && w == |YearText(a)| && w' == |YearText(b)|
    ensures w <= w'
  {
    if w > 4 {
      DigitCount(b, w - 1);
      DigitCount(a, w - 1);
    }
  }

  lemma EndOfYear9999()
    ensures CivilFromDays(2_932_896) == Date(9999, 12, 31)
    ensures CivilFromDays(2_932_897) == Date(10_000, 1, 1)
  {
    var last := MarchDate(24, 399, 9, 31);
    DaysOfMarchDate(24, 399, 9, 31);
    BothWays(24, 399, 9, 31);
    DayAfter(last, 2_932_896);
  }

  lemma YearTexts()
    ensures |YearText(9999)| == 4 && |YearText(10_000)| == 5 && DropDigits(10_000, 1) == 1000
  {
    assert |Digits(99)| == 2 && |Digits(100)| == 3 && |Digits(10)| == 2;
    assert Digits(9999) == Digits(999) + [Digit(9)] && Digits(999) == Digits(99) + [Digit(9)];
    assert Digits(10_000) == Digits(1000) + [Digit(0)] && Digits(1000) == Digits(100) + [Digit(0)];
    assert DropDigits(10_000, 1) == DropDigits(1000, 0);
  }

  lemma TextsOutOfOrder()
    ensures !LexLess(DateText(Date(9999, 12, 31)), DateText(Date(10_000, 1, 1)))
  {
    YearTexts();
    NamesInOrder(Date(9999, 12, 31), Date(10_000, 1, 1));
  }

  /** Of any two years just below 0 the later one has the earlier name. */
  lemma EarlyYearsSortBackwards(a: Date, b: Date)
    requires IsDate(a) && IsDate(b) && -1000 < a.year < b.year < 0
    ensures !LexLess(DateText(a), DateText(b))
  {
    NamesBelowYearZero(a, b);
    ThreeDigits(a.year);
    ThreeDigits(b.year);
  }

  lemma ThreeDigits(year: int)
    requires -1000 < year < 0
    ensures |YearText(year)| == 4
  {
    assert Pow10(3) == 1000 by { assert Pow10(0) == 1; assert Pow10(1) == 10; assert Pow10(2) == 100; }
    DigitCount(-year, 3);
  }

  /** Two directories whose names sort the wrong way round: the last day of year 9999 and the day after. */
  lemma YearTenThousandSortsEarly()
    ensures !LexLess(FormatDate(2_932_896 * 86_400), FormatDate(2_932_897 * 86_400))
  {
    EndOfYear9999();
    TextsOutOfOrder();
    DayOfMidnight(2_932_896);
    DayOfMidnight(2_932_897);
  }

  lemma DayOfMidnight(days: int)
    ensures days * 86_400 / 86_400 == days
  {
  }
}

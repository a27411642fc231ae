/** The civil calendar (modules/punchline/src/localtime.cpp, and the same arithmetic in
    modules/punchline/src/tzif.cpp).

    Division truncates toward zero, as in the source; days count from 1970-01-01. */
module Calendar {

  function Truncated(a: int, b: int): int
    requires b > 0
  {
    if a >= 0 then a / b else -((-a) / b)
  }

  /** The source's `(a >= 0 ? a : a - (b - 1)) / b` rounds down. */
  lemma RoundsDown(a: int, b: int)
    requires b > 0
    ensures Truncated(if a >= 0 then a else a - (b - 1), b) == a / b
  {
    if a < 0 {
      var q, r := a / b, a % b;
      assert -(a - (b - 1)) == b * (-q) + (b - 1 - r);
      QuotientIs(-(a - (b - 1)), b, -q, b - 1 - r);
    }
  }

  lemma AtLeastOnce(b: int, x: int)
    requires b > 0 && x >= 1
    ensures b * x >= b
  {
  }

  lemma QuotientIs(n: int, b: int, q: int, r: int)
    requires b > 0 && 0 <= r < b && n == b * q + r
    ensures n / b == q && n % b == r
  {
    var q', r' := n / b, n % b;
    assert n == b * q' + r';
    assert b * (q - q') == b * q - b * q' && b * (q' - q) == b * q' - b * q;
    if q > q' { AtLeastOnce(b, q - q'); }
    if q < q' { AtLeastOnce(b, q' - q); }
  }

  // ----- the source's arithmetic

  function DaysFromCivil(year: int, m: int, d: int): int {
    var y := if m <= 2 then year - 1 else year;
    var era := Truncated(if y >= 0 then y else y - 399, 400);
    var yoe := y - era * 400;
    var doy := Truncated(153 * (m + if m > 2 then -3 else 9) + 2, 5) + d - 1;
    var doe := yoe * 365 + Truncated(yoe, 4) - Truncated(yoe, 100) + doy;
    era * 146097 + doe - 719468
  }

  datatype Date = Date(year: int, month: int, day: int)

  function YearInEra(doe: int): int {
    Truncated(doe - Truncated(doe, 1460) + Truncated(doe, 36524) - Truncated(doe, 146096), 365)
  }

  function DayInYear(doe: int, yoe: int): int { doe - (365 * yoe + Truncated(yoe, 4) - Truncated(yoe, 100)) }

  /** The date on day `doy` of the year `yoe` of an era, years beginning in March. */
  function DateIn(era: int, yoe: int, doy: int): Date {
    var mp := Truncated(5 * doy + 2, 153);
    var d := doy - Truncated(153 * mp + 2, 5) + 1;
    var m := mp + if mp < 10 then 3 else -9;
    Date(yoe + era * 400 + (if m <= 2 then 1 else 0), m, d)
  }

  /** The inverse in format_local_day and year_of_instant. */
  function CivilFromDays(days: int): Date {
    var z := days + 719468;
    var era := Truncated(if z >= 0 then z else z - 146096, 146097);
    var doe := z - era * 146097;
    DateIn(era, YearInEra(doe), DayInYear(doe, YearInEra(doe)))
  }

  function WeekdayOfDay(day: int): int {
    var n := day + 4;
    var w := n - 7 * Truncated(n, 7);
    if w < 0 then w + 7 else w
  }

  function YearOfInstant(instant: int): int {
    CivilFromDays(Truncated(if instant >= 0 then instant else instant - 86399, 86400)).year
  }

  // ----- the calendar

  predicate Leap(y: int) { (y % 4 == 0 && y % 100 != 0) || y % 400 == 0 }

  function DaysIn(y: int, m: int): int {
    if m == 2 then (if Leap(y) then 29 else 28) else if m == 4 || m == 6 || m == 9 || m == 11 then 30 else 31
  }

  predicate IsDate(t: Date) { 1 <= t.month <= 12 && 1 <= t.day <= DaysIn(t.year, t.month) }

  /** The day after. */
  function Next(t: Date): Date {
    if t.day < DaysIn(t.year, t.month) then t.(day := t.day + 1)
    else if t.month < 12 then Date(t.year, t.month + 1, 1)
    else Date(t.year + 1, 1, 1)
  }

  predicate Earlier(a: Date, b: Date) {
    a.year < b.year || (a.year == b.year && (a.month < b.month || (a.month == b.month && a.day < b.day)))
  }

  function Days(t: Date): int { DaysFromCivil(t.year, t.month, t.day) }

  // ----- years that begin in March

  /** Days before March 1 of year `y`, counted from March 1 of year 0. */
  function YearStart(y: int): int { 365 * y + y / 4 - y / 100 + y / 400 }

  /** Days before month `mp` of such a year, March being 0. */
  function MonthStart(mp: int): int { (153 * mp + 2) / 5 }

  function MarchYear(t: Date): int { if t.month <= 2 then t.year - 1 else t.year }

  function MarchMonth(t: Date): int { if t.month <= 2 then t.month + 9 else t.month - 3 }

  lemma DaysAre(t: Date)
    requires IsDate(t)
    ensures Days(t) == YearStart(MarchYear(t)) + MonthStart(MarchMonth(t)) + t.day - 1 - 719468
  {
    var y := MarchYear(t);
    RoundsDown(y, 400);
    YearStartInEra(y / 400, y - 400 * (y / 400));
  }

  lemma YearStartInEra(era: int, yoe: int)
    requires 0 <= yoe < 400
    ensures YearStart(400 * era + yoe) == era * 146097 + 365 * yoe + yoe / 4 - yoe / 100
  {
    QuotientIs(400 * era + yoe, 4, 100 * era + yoe / 4, yoe % 4);
    QuotientIs(400 * era + yoe, 100, 4 * era + yoe / 100, yoe % 100);
    QuotientIs(400 * era + yoe, 400, era, yoe);
  }

  /** The leap day is at the end of the year that begins in March. */
  lemma YearLength(y: int)
    ensures YearStart(y + 1) == YearStart(y) + 365 + if Leap(y + 1) then 1 else 0
  {
    Steps4(y);
    Steps100(y);
    Steps400(y);
    LeapIs(y + 1);
  }

  lemma Steps4(y: int)
    ensures (y + 1) / 4 == y / 4 + if (y + 1) % 4 == 0 then 1 else 0
  {
  }

  lemma Steps100(y: int)
    ensures (y + 1) / 100 == y / 100 + if (y + 1) % 100 == 0 then 1 else 0
  {
  }

  lemma Steps400(y: int)
    ensures (y + 1) / 400 == y / 400 + if (y + 1) % 400 == 0 then 1 else 0
  {
  }

  lemma LeapIs(y: int)
    ensures y % 400 == 0 ==> y % 100 == 0
    ensures y % 100 == 0 ==> y % 4 == 0
  {
  }

  /** Consecutive dates are consecutive integers. */
  lemma NextIsNext(t: Date)
    requires IsDate(t)
    ensures IsDate(Next(t)) && Days(Next(t)) == Days(t) + 1
  {
    hide Days, YearStart;
    DaysAre(t);
    DaysAre(Next(t));
    YearLength(MarchYear(t));
    MonthLengths(t);
  }

  /** Months of a March year are as long as the calendar says; February, the last, ends with the year. */
  lemma MonthLengths(t: Date)
    requires IsDate(t)
    ensures t.month != 2 ==> MonthStart(MarchMonth(t)) + DaysIn(t.year, t.month) == MonthStart(MarchMonth(t) + 1)
    ensures t.month == 2 ==> MonthStart(MarchMonth(t)) + 28 == 365 && MarchYear(t) == t.year - 1
    ensures MonthStart(0) == 0
  {
  }

  lemma Epoch()
    ensures Days(Date(1970, 1, 1)) == 0
  {
  }

  // ----- order

  lemma {:induction false} YearStartMonotone(y: int, n: nat)
    ensures YearStart(y + n) >= YearStart(y) + 365 * n
    decreases n
  {
    if n > 0 {
      YearStartMonotone(y, n - 1);
      YearLength(y + n - 1);
    }
  }

  lemma WithinYear(t: Date)
    requires IsDate(t)
    ensures 0 <= MonthStart(MarchMonth(t)) + t.day - 1 < YearStart(MarchYear(t) + 1) - YearStart(MarchYear(t))
  {
    YearLength(MarchYear(t));
  }

  lemma EarlierInYear(a: Date, b: Date)
    requires IsDate(a) && IsDate(b) && MarchYear(a) == MarchYear(b) && Earlier(a, b)
    ensures MonthStart(MarchMonth(a)) + a.day < MonthStart(MarchMonth(b)) + b.day
  {
  }

  /** Calendar order is the order of the integers. */
  lemma EarlierIsLess(a: Date, b: Date)
    requires IsDate(a) && IsDate(b)
    ensures Earlier(a, b) <==> Days(a) < Days(b)
  {
    LessIfEarlier(a, b);
    LessIfEarlier(b, a);
  }

  lemma LessIfEarlier(a: Date, b: Date)
    requires IsDate(a) && IsDate(b)
    ensures Earlier(a, b) ==> Days(a) < Days(b)
    ensures a == b ==> Days(a) == Days(b)
  {
    DaysAre(a);
    DaysAre(b);
    if Earlier(a, b) {
      if MarchYear(a) == MarchYear(b) {
        EarlierInYear(a, b);
      } else {
        WithinYear(a);
        WithinYear(b);
        YearStartMonotone(MarchYear(a) + 1, MarchYear(b) - MarchYear(a) - 1);
      }
    }
  }

  // ----- the inverse

  /** A day of a 400-year era, by centuries, four-year cycles, years and days. */
  lemma EraParts(doe: int) returns (c: int, b: int, a: int, k: int)
    requires 0 <= doe < 146097
    ensures doe == 36524 * c + 1461 * b + 365 * a + k
    ensures 0 <= c <= 3 && 0 <= b <= 24 && 0 <= a <= 3 && 0 <= k <= 365
    ensures k == 365 ==> a == 3 && (b < 24 || c == 3)
  {
    c := if doe / 36524 > 3 then 3 else doe / 36524;
    var r := doe - 36524 * c;
    b := if r / 1461 > 24 then 24 else r / 1461;
    var q := r - 1461 * b;
    a := if q / 365 > 3 then 3 else q / 365;
    k := q - 365 * a;
  }

  /** The year of the era that the source's formula finds. */
  lemma Centuries(doe: int, c: int, rest: int)
    requires doe == 36524 * c + rest && 0 <= c <= 3 && 0 <= rest <= (if c == 3 then 36524 else 36523)
    ensures doe / 36524 - doe / 146096 == c
  {
    var last := if rest == 36524 then 1 else 0;
    QuotientIs(doe, 36524, c + last, rest - 36524 * last);
    QuotientIs(doe, 146096, last, doe - 146096 * last);
  }

  lemma YearOfEra(doe: int, c: int, b: int, a: int, k: int)
    requires doe == 36524 * c + 1461 * b + 365 * a + k && 0 <= c <= 3 && 0 <= b <= 24 && 0 <= a <= 3 && 0 <= k <= 365
    requires k == 365 ==> a == 3 && (b < 24 || c == 3)
    ensures YearInEra(doe) == 100 * c + 4 * b + a
  {
    var extra := if 24 * c + b + 365 * a + k >= 1460 then 1 else 0;
    assert doe == 1460 * (25 * c + b) + (24 * c + b + 365 * a + k);
    QuotientIs(doe, 1460, 25 * c + b + extra, 24 * c + b + 365 * a + k - 1460 * extra);
    Centuries(doe, c, 1461 * b + 365 * a + k);
    QuotientIs(365 * (100 * c + 4 * b + a) + k - extra, 365, 100 * c + 4 * b + a, k - extra);
  }

  lemma YearParts(c: int, b: int, a: int)
    requires 0 <= c <= 3 && 0 <= b <= 24 && 0 <= a <= 3
    ensures var r := 100 * c + 4 * b + a;
            && 0 <= r < 400 && 365 * r + r / 4 - r / 100 == 36524 * c + 1461 * b + 365 * a
            && (Leap(r + 1) <==> a == 3 && (b < 24 || c == 3))
  {
    var r := 100 * c + 4 * b + a;
    QuotientIs(r, 4, 25 * c + b, a);
    QuotientIs(r, 100, c, 4 * b + a);
  }

  lemma LeapInEra(era: int, y: int)
    ensures Leap(400 * era + y) == Leap(y)
  {
    QuotientIs(400 * era + y, 4, 100 * era + y / 4, y % 4);
    QuotientIs(400 * era + y, 100, 4 * era + y / 100, y % 100);
    QuotientIs(400 * era + y, 400, era + y / 400, y % 400);
  }

  /** Month and day from the day of a March year. */
  lemma MonthOf(doy: int)
    requires 0 <= doy <= 365
    ensures var mp := (5 * doy + 2) / 153;
            0 <= mp <= 11 && MonthStart(mp) <= doy && (mp < 11 ==> doy < MonthStart(mp + 1))
  {
  }

  lemma CivilIsDateIn(days: int)
    ensures var z := days + 719468;
            var doe := z % 146097;
            CivilFromDays(days) == DateIn(z / 146097, YearInEra(doe), DayInYear(doe, YearInEra(doe)))
  {
    hide DateIn, YearInEra, DayInYear;
    var z := days + 719468;
    RoundsDown(z, 146097);
    assert z - (z / 146097) * 146097 == z % 146097;
  }

  lemma DateInIsDate(era: int, yoe: int, doy: int, days: int)
    requires 0 <= yoe < 400 && 0 <= doy <= 365 && (doy == 365 ==> Leap(400 * era + yoe + 1))
    requires days + 719468 == YearStart(400 * era + yoe) + doy
    ensures IsDate(DateIn(era, yoe, doy)) && Days(DateIn(era, yoe, doy)) == days
  {
    hide Days, YearStart;
    MonthOf(doy);
    var t := DateIn(era, yoe, doy);
    assert MonthStart(11) == 337;
    DaysAre(t);
  }

  /** Every day, before or after the epoch, is the day of exactly the date the inverse gives. */
  lemma CivilIsInverse(days: int)
    ensures IsDate(CivilFromDays(days)) && Days(CivilFromDays(days)) == days
  {
    hide Days, YearStart, Leap, IsDate, CivilFromDays, DateIn, YearInEra;
    var z := days + 719468;
    var era, doe := z / 146097, z % 146097;
    var c, b, a, k := EraParts(doe);
    YearOfEra(doe, c, b, a, k);
    YearParts(c, b, a);
    var yoe := 100 * c + 4 * b + a;
    LeapInEra(era, yoe + 1);
    YearStartInEra(era, yoe);
    CivilIsDateIn(days);
    DateInIsDate(era, yoe, k, days);
  }

  /** And a date comes back from its day. */
  lemma DateComesBack(t: Date)
    requires IsDate(t)
    ensures CivilFromDays(Days(t)) == t
  {
    CivilIsInverse(Days(t));
    EarlierIsLess(t, CivilFromDays(Days(t)));
    EarlierIsLess(CivilFromDays(Days(t)), t);
  }

  /** The weekday goes round by one a day; the epoch was a Thursday. */
  lemma WeekdayGoesRound(day: int)
    ensures 0 <= WeekdayOfDay(day) <= 6 && WeekdayOfDay(0) == 4
    ensures WeekdayOfDay(day + 1) == (WeekdayOfDay(day) + 1) % 7
    ensures WeekdayOfDay(day) == (day + 4) % 7
  {
  }

  /** year_of_instant is the calendar year of the instant's day, before the epoch too. */
  lemma YearOfInstantIs(instant: int)
    ensures var y := YearOfInstant(instant);
            Days(Date(y, 1, 1)) * 86400 <= instant < Days(Date(y + 1, 1, 1)) * 86400
  {
    hide Days, CivilFromDays;
    RoundsDown(instant, 86400);
    var day := instant / 86400;
    CivilIsInverse(day);
    var t := CivilFromDays(day);
    EarlierIsLess(t, Date(t.year, 1, 1));
    EarlierIsLess(t, Date(t.year + 1, 1, 1));
  }
}

/** Time zones with a footer rule (modules/punchline/src/tzif.cpp; the rule is that of section 3.3 of RFC 8536).

    Offsets, times and instants are in seconds; local time is UTC plus the offset. */
module ZoneRules {
  import opened PageFormat
  import opened Calendar

  datatype RuleDate =
    | MonthWeekDay(month: int, week: int, weekday: int, time: int)
    | JulianNoLeap(day: int, time: int)
    | JulianZeroBased(day: int, time: int)

  datatype Rule = Rule(std: int, dst: Option<int>, start: RuleDate, end: RuleDate)

  // ----- rule dates

  /** Back by weeks to the last day at or before `last`. */
  function BackByWeeks(day: int, last: int): int
    decreases day - last
  {
    if day > last then BackByWeeks(day - 7, last) else day
  }

  function RuleDay(year: int, d: RuleDate): int {
    match d
    case MonthWeekDay(month, week, weekday, _) =>
      var first := DaysFromCivil(year, month, 1);
      var ahead := weekday - WeekdayOfDay(first);
      var delta := if ahead < 0 then ahead + 7 else ahead;
      BackByWeeks(first + delta + (week - 1) * 7, first + DaysIn(year, month) - 1)
    case JulianNoLeap(n, _) =>
      DaysFromCivil(year, 1, 1) + (if Leap(year) && n >= 60 then n + 1 else n) - 1
    case JulianZeroBased(n, _) => DaysFromCivil(year, 1, 1) + n
  }

  /** rule_transition: the instant at which a clock that is `before` seconds ahead shows the rule's day and time. */
  function RuleTransition(year: int, d: RuleDate, before: int): int { RuleDay(year, d) * 86400 + d.time - before }

  /** What parse_rule_date lets through: times of less than a week either way. */
  predicate DateOk(d: RuleDate) {
    && -604800 < d.time < 604800
    && match d
       case MonthWeekDay(month, week, weekday, _) => 1 <= month <= 12 && 1 <= week <= 5 && 0 <= weekday <= 6
       case JulianNoLeap(n, _) => 1 <= n <= 365
       case JulianZeroBased(n, _) => 0 <= n <= 365
  }

  /** What parse_posix lets through: offsets of less than 25 hours, or daylight time by default one hour ahead. */
  predicate Parsed(r: Rule) {
    r.dst.Some? && DateOk(r.start) && DateOk(r.end) && -180000 < r.dst.value - r.std < 180000
  }

  lemma {:induction false} BackByWeeksIs(day: int, last: int) returns (k: nat)
    ensures BackByWeeks(day, last) == day - 7 * k <= last && (k > 0 ==> day - 7 * k + 7 > last)
    decreases day - last
  {
    if day > last {
      k := BackByWeeksIs(day - 7, last);
      k := k + 1;
    } else {
      k := 0;
    }
  }

  /** Whole weeks after the first such weekday. */
  lemma WeeksOn(first: int, weekday: int, delta: int, weeks: int)
    requires 0 <= weekday <= 6
    requires delta == (if weekday < (first + 4) % 7 then weekday - (first + 4) % 7 + 7 else weekday - (first + 4) % 7)
    ensures 0 <= delta <= 6 && WeekdayOfDay(first + delta + 7 * weeks) == weekday && (delta + 7 * weeks) / 7 == weeks
  {
    var q, w := (first + 4) / 7, (first + 4) % 7;
    var day := first + delta + 7 * weeks;
    WeekdayGoesRound(day);
    QuotientIs(day + 4, 7, if weekday < w then q + 1 + weeks else q + weeks, weekday);
    QuotientIs(delta + 7 * weeks, 7, weeks, delta);
  }

  /** The n-th such weekday of the month, or the last if there is no n-th. */
  lemma RuleDayIsNth(year: int, month: int, week: int, weekday: int, time: int)
    requires 1 <= month <= 12 && 1 <= week <= 5 && 0 <= weekday <= 6
    ensures var day, first := RuleDay(year, MonthWeekDay(month, week, weekday, time)), DaysFromCivil(year, month, 1);
            && first <= day < first + DaysIn(year, month) && WeekdayOfDay(day) == weekday
            && ((day - first) / 7 == week - 1
                || ((day - first) / 7 < week - 1 && day + 7 >= first + DaysIn(year, month)))
  {
    hide DaysFromCivil, WeekdayOfDay;
    var first := DaysFromCivil(year, month, 1);
    WeekdayGoesRound(first);
    var ahead := weekday - WeekdayOfDay(first);
    var delta := if ahead < 0 then ahead + 7 else ahead;
    var k := BackByWeeksIs(first + delta + (week - 1) * 7, first + DaysIn(year, month) - 1);
    WeeksOn(first, weekday, delta, week - 1 - k);
  }

  lemma YearSpan(y: int)
    ensures DaysFromCivil(y + 1, 1, 1) == DaysFromCivil(y, 1, 1) + 365 + if Leap(y) then 1 else 0
  {
    hide DaysFromCivil, YearStart;
    DaysAre(Date(y, 1, 1));
    DaysAre(Date(y + 1, 1, 1));
    YearLength(y - 1);
  }

  lemma {:induction false} YearsApart(y: int, n: nat)
    ensures DaysFromCivil(y + n, 1, 1) >= DaysFromCivil(y, 1, 1) + 365 * n
    decreases n
  {
    hide DaysFromCivil;
    if n > 0 {
      YearsApart(y, n - 1);
      YearSpan(y + n - 1);
    }
  }

  lemma MonthInYear(y: int, m: int)
    requires 1 <= m <= 12
    ensures DaysFromCivil(y, 1, 1) <= DaysFromCivil(y, m, 1)
    ensures DaysFromCivil(y, m, 1) + DaysIn(y, m) <= DaysFromCivil(y + 1, 1, 1)
  {
    var a, b, c := Date(y, 1, 1), Date(y, m, 1), Date(y, m, DaysIn(y, m));
    EarlierIsLess(b, a);
    EarlierIsLess(c, Date(y + 1, 1, 1));
    DaysAre(b);
    DaysAre(c);
  }

  /** The fewest days from the date to the next new year, in any year. */
  function Remaining(d: RuleDate): int {
    match d
    case MonthWeekDay(month, week, _, _) => if month < 12 then 31 else if week < 5 then 32 - 7 * week else 1
    case JulianNoLeap(n, _) => 366 - n
    case JulianZeroBased(n, _) => 365 - n
  }

  lemma RuleDayInYear(y: int, d: RuleDate)
    requires DateOk(d)
    ensures DaysFromCivil(y, 1, 1) <= RuleDay(y, d) <= DaysFromCivil(y + 1, 1, 1) - Remaining(d)
  {
    hide DaysFromCivil;
    match d
    case MonthWeekDay(month, week, weekday, time) =>
      RuleDayIsNth(y, month, week, weekday, time);
      MonthInYear(y, month);
      if month < 12 { DecemberLast(y, month); }
    case JulianNoLeap(_, _) => YearSpan(y);
    case JulianZeroBased(_, _) => YearSpan(y);
  }

  lemma DecemberLast(y: int, m: int)
    requires 1 <= m < 12
    ensures DaysFromCivil(y, m, 1) + DaysIn(y, m) <= DaysFromCivil(y, 12, 1) == DaysFromCivil(y + 1, 1, 1) - 31
  {
    hide YearStart;
    EarlierIsLess(Date(y, m, DaysIn(y, m)), Date(y, 12, 1));
    MonthSpan(y, m);
    DaysAre(Date(y, 12, 1));
    DaysAre(Date(y + 1, 1, 1));
  }

  lemma MonthSpan(y: int, m: int)
    requires 1 <= m <= 12
    ensures DaysFromCivil(y, m, DaysIn(y, m)) == DaysFromCivil(y, m, 1) + DaysIn(y, m) - 1
  {
    hide YearStart;
    DaysAre(Date(y, m, 1));
    DaysAre(Date(y, m, DaysIn(y, m)));
  }

  /** The same date is later in a later year. */
  lemma {:induction false} RuleDayGrows(y: int, n: nat, d: RuleDate)
    requires DateOk(d)
    ensures n > 0 ==> RuleDay(y, d) < RuleDay(y + n, d)
    decreases n
  {
    hide DaysFromCivil, RuleDay;
    if n > 1 { RuleDayGrows(y, n - 1, d); }
    if n > 0 { RuleDayNext(y + n - 1, d); }
  }

  lemma RuleDayNext(y: int, d: RuleDate)
    requires DateOk(d)
    ensures RuleDay(y, d) < RuleDay(y + 1, d)
  {
    hide DaysFromCivil;
    YearSpan(y);
    match d
    case MonthWeekDay(month, week, weekday, time) =>
      RuleDayIsNth(y, month, week, weekday, time);
      RuleDayIsNth(y + 1, month, week, weekday, time);
      MonthNext(y, month);
    case JulianNoLeap(_, _) =>
    case JulianZeroBased(_, _) =>
  }

  lemma MonthNext(y: int, m: int)
    requires 1 <= m <= 12
    ensures DaysFromCivil(y, m, 1) + DaysIn(y, m) <= DaysFromCivil(y + 1, m, 1)
  {
    hide DaysFromCivil;
    EarlierIsLess(Date(y, m, DaysIn(y, m)), Date(y + 1, m, 1));
    MonthSpan(y, m);
  }

  /** Day n of a rule that does not count leap days is the same month and day in every year. */
  lemma SameDateEveryYear(n: int, time: int, common: int, month: int, day: int, y: int)
    requires 1 <= n <= 365 && !Leap(common) && 1 <= month <= 12 && 1 <= day <= DaysIn(common, month)
    requires DaysFromCivil(common, month, day) == DaysFromCivil(common, 1, 1) + n - 1
    ensures RuleDay(y, JulianNoLeap(n, time)) == DaysFromCivil(y, month, day)
  {
    hide DaysFromCivil;
    DayOfYear(common, month, day);
    DayOfYear(y, month, day);
  }

  /** And of one that does, the same number of days into the year. */
  lemma CountsLeapDays(n: int, time: int, month: int, day: int, y: int)
    requires 1 <= month <= 12 && 1 <= day <= DaysIn(y, month)
    requires n == BeforeMonth(month) + day - 1 + if month > 2 && Leap(y) then 1 else 0
    ensures RuleDay(y, JulianZeroBased(n, time)) == DaysFromCivil(y, month, day)
  {
    hide DaysFromCivil;
    DayOfYear(y, month, day);
  }

  /** The days before a month in a year without a leap day. */
  function BeforeMonth(month: int): int {
    if month == 1 then 0 else if month == 2 then 31 else MonthStart(month - 3) + 59
  }

  lemma DayOfYear(y: int, month: int, day: int)
    requires 1 <= month <= 12 && 1 <= day <= DaysIn(y, month)
    ensures DaysFromCivil(y, month, day)
         == DaysFromCivil(y, 1, 1) + BeforeMonth(month) + day - 1 + if month > 2 && Leap(y) then 1 else 0
  {
    hide DaysFromCivil, YearStart;
    DaysAre(Date(y, month, day));
    DaysAre(Date(y, 1, 1));
    if month > 2 {
      DaysAre(Date(y, 3, 1));
      DaysAre(Date(y, 2, 1));
      MonthSpan(y, 2);
      NextIsNext(Date(y, 2, DaysIn(y, 2)));
    }
  }

  // ----- the latest transition of the rule

  type Change = (int, bool)  // when, and whether daylight time begins

  predicate Before(a: Change, b: Change) { a.0 < b.0 || (a.0 == b.0 && !a.1 && b.1) }

  predicate AtMost(a: Change, b: Change) { Before(a, b) || a == b }

  function ChangeOf(r: Rule, year: int, begins: bool): Change
    requires r.dst.Some?
  {
    if begins then (RuleTransition(year, r.start, r.std), true) else (RuleTransition(year, r.end, r.dst.value), false)
  }

  /** `c` is the latest change of the rule, of any year, at or before the instant. */
  ghost predicate IsLatest(r: Rule, instant: int, c: Change)
    requires r.dst.Some?
  {
    && c.0 <= instant && (exists y :: c == ChangeOf(r, y, c.1))
    && forall y, begins :: ChangeOf(r, y, begins).0 <= instant ==> AtMost(ChangeOf(r, y, begins), c)
  }

  function Window(r: Rule, year: int): seq<Change>
    requires r.dst.Some?
  {
    [ChangeOf(r, year - 1, true), ChangeOf(r, year - 1, false), ChangeOf(r, year, true), ChangeOf(r, year, false),
     ChangeOf(r, year + 1, true), ChangeOf(r, year + 1, false)]
  }

  /** The latest of a list at or before the instant. */
  function LatestOf(ts: seq<Change>, instant: int): (best: Option<Change>)
    ensures best.None? <==> forall c :: c in ts ==> c.0 > instant
    ensures best.Some? ==> best.value in ts && best.value.0 <= instant && forall c :: c in ts && c.0 <= instant ==>
              AtMost(c, best.value)
  {
    if ts == [] then None else
    var rest, last := LatestOf(ts[..|ts| - 1], instant), ts[|ts| - 1];
    assert ts == ts[..|ts| - 1] + [last];
    if last.0 <= instant && (rest.None? || Before(rest.value, last)) then Some(last) else rest
  }

  function WindowDst(r: Rule, instant: int): bool
    requires r.dst.Some?
  {
    var best := LatestOf(Window(r, YearOfInstant(instant + r.std)), instant);
    best.Some? && best.value.1
  }

  /** The window's answer is that of the latest change of all years. */
  ghost predicate Right(r: Rule, instant: int)
    requires r.dst.Some?
  {
    forall c :: IsLatest(r, instant, c) ==> c.1 == WindowDst(r, instant)
  }

  // ----- changes by the year, in standard local time

  function NewYear(y: int): int { DaysFromCivil(y, 1, 1) * 86400 }

  function LocalAt(r: Rule, y: int, begins: bool): int requires r.dst.Some? { ChangeOf(r, y, begins).0 + r.std }

  function DateOf(r: Rule, begins: bool): RuleDate { if begins then r.start else r.end }

  /** The time of a change on its day, by standard time. */
  function TimeOf(r: Rule, begins: bool): int
    requires r.dst.Some?
  {
    if begins then r.start.time else r.end.time - (r.dst.value - r.std)
  }

  lemma LocalIs(r: Rule, y: int, begins: bool)
    requires r.dst.Some?
    ensures LocalAt(r, y, begins) == RuleDay(y, DateOf(r, begins)) * 86400 + TimeOf(r, begins)
    ensures ChangeOf(r, y, begins).1 == begins
  {
    hide RuleDay;
  }

  lemma LocalInYear(r: Rule, y: int, begins: bool)
    requires Parsed(r)
    ensures NewYear(y) + TimeOf(r, begins) <= LocalAt(r, y, begins)
            <= NewYear(y + 1) - Remaining(DateOf(r, begins)) * 86400 + TimeOf(r, begins)
    ensures -10 * 86400 < TimeOf(r, begins) < 10 * 86400 && Remaining(DateOf(r, begins)) >= 0
  {
    hide DaysFromCivil, RuleDay, LocalAt;
    LocalIs(r, y, begins);
    RuleDayInYear(y, DateOf(r, begins));
  }

  lemma ChangesGrow(r: Rule, y: int, z: int, begins: bool)
    requires Parsed(r) && y <= z
    ensures ChangeOf(r, y, begins).0 <= ChangeOf(r, z, begins).0
    ensures (y < z ==> ChangeOf(r, y, begins).0 < ChangeOf(r, z, begins).0)
  {
    hide RuleDay;
    RuleDayGrows(y, z - y, DateOf(r, begins));
  }

  /** The year before last is behind every instant of a year, and the year after next ahead of it. */
  lemma FarYears(r: Rule, instant: int, y: int, begins: bool)
    requires Parsed(r)
    ensures var year := YearOfInstant(instant + r.std);
            && NewYear(year) <= instant + r.std < NewYear(year + 1)
            && (y <= year - 2 ==> ChangeOf(r, y, begins).0 <= instant)
            && (y >= year + 2 ==> ChangeOf(r, y, begins).0 > instant)
  {
    hide DaysFromCivil, ChangeOf, YearOfInstant;
    var year := YearOfInstant(instant + r.std);
    YearOfInstantIs(instant + r.std);
    LocalInYear(r, y, begins);
    if y <= year - 2 { YearsApart(y + 1, year - (y + 1)); }
    if y >= year + 2 { YearsApart(year + 1, y - (year + 1)); }
  }

  /** There is a latest change, and it is not of a year before the year before last. */
  lemma LatestExists(r: Rule, instant: int) returns (c: Change)
    requires Parsed(r)
    ensures IsLatest(r, instant, c)
  {
    hide ChangeOf, YearOfInstant, AtMost, LatestOf;
    var year := YearOfInstant(instant + r.std);
    var older := [ChangeOf(r, year - 2, true), ChangeOf(r, year - 2, false)];
    var ts := older + Window(r, year);
    FarYears(r, instant, year - 2, true);
    assert ts[0] in ts;
    c := LatestOf(ts, instant).value;
    forall y, begins | ChangeOf(r, y, begins).0 <= instant ensures AtMost(ChangeOf(r, y, begins), c) {
      FarYears(r, instant, y, begins);
      if y >= year - 1 {
        InWindow(r, year, y, begins);
      } else {
        FarYears(r, instant, year - 2, begins);
        assert ts[if begins then 0 else 1] in ts;
        GrowsAtMost(r, y, year - 2, begins);
        AtMostAgain(ChangeOf(r, y, begins), ChangeOf(r, year - 2, begins), c);
      }
    }
    if c in Window(r, year) { OfWindow(r, year, c); } else { OfPair(r, year - 2, c); }
  }

  lemma GrowsAtMost(r: Rule, y: int, z: int, begins: bool)
    requires Parsed(r) && y <= z
    ensures AtMost(ChangeOf(r, y, begins), ChangeOf(r, z, begins))
  {
    hide RuleTransition;
    ChangesGrow(r, y, z, begins);
  }

  lemma OfPair(r: Rule, y: int, c: Change)
    requires r.dst.Some? && c in [ChangeOf(r, y, true), ChangeOf(r, y, false)]
    ensures exists z :: c == ChangeOf(r, z, c.1)
  {
    hide RuleTransition;
    assert c == ChangeOf(r, y, c.1);
  }

  lemma InWindow(r: Rule, year: int, y: int, begins: bool)
    requires r.dst.Some? && year - 1 <= y <= year + 1
    ensures ChangeOf(r, y, begins) in Window(r, year)
  {
    hide ChangeOf;
    assert Window(r, year)[2 * (y - (year - 1)) + if begins then 0 else 1] == ChangeOf(r, y, begins);
  }

  lemma OfWindow(r: Rule, year: int, c: Change)
    requires r.dst.Some? && c in Window(r, year)
    ensures exists y :: year - 1 <= y <= year + 1 && c == ChangeOf(r, y, c.1)
  {
    hide RuleTransition;
    var i :| 0 <= i < 6 && Window(r, year)[i] == c;
    assert c == ChangeOf(r, year - 1 + i / 2, c.1);
  }

  /** The latest change is of a kind if one of that kind has passed that no passed one of the other kind is after. */
  lemma LatestKind(r: Rule, instant: int, c: Change, y: int, begins: bool, other: bool)
    requires r.dst.Some? && IsLatest(r, instant, c) && ChangeOf(r, y, begins).0 <= instant && other == !begins
    requires forall z :: ChangeOf(r, z, other).0 <= instant ==> AtMost(ChangeOf(r, z, other), ChangeOf(r, y, begins))
    ensures c.1 == begins
  {
    hide RuleTransition;
    var z :| c == ChangeOf(r, z, c.1);
    assert AtMost(ChangeOf(r, y, begins), c);
  }

  /** No start in the window has passed: it answers standard time. */
  lemma WindowNoStart(r: Rule, instant: int)
    requires Parsed(r)
    requires forall y :: y >= YearOfInstant(instant + r.std) - 1 ==> ChangeOf(r, y, true).0 > instant
    ensures !WindowDst(r, instant)
  {
    hide ChangeOf, YearOfInstant, Window;
    var year := YearOfInstant(instant + r.std);
    var best := LatestOf(Window(r, year), instant);
    if best.Some? { OfWindow(r, year, best.value); }
  }

  /** A start in the window has passed, and no end: it answers daylight time. */
  lemma WindowNoEnd(r: Rule, instant: int)
    requires Parsed(r) && ChangeOf(r, YearOfInstant(instant + r.std) - 1, true).0 <= instant
    requires forall y :: y >= YearOfInstant(instant + r.std) - 1 ==> ChangeOf(r, y, false).0 > instant
    ensures WindowDst(r, instant)
  {
    hide ChangeOf, YearOfInstant, Window;
    var year := YearOfInstant(instant + r.std);
    InWindow(r, year, year - 1, true);
    var best := LatestOf(Window(r, year), instant);
    OfWindow(r, year, best.value);
  }

  /** Once both changes of the year before have passed, the window has the latest change of all years. */
  lemma BothPassed(r: Rule, instant: int)
    requires Parsed(r)
    requires var year := YearOfInstant(instant + r.std);
             ChangeOf(r, year - 1, true).0 <= instant && ChangeOf(r, year - 1, false).0 <= instant
    ensures Right(r, instant)
  {
    hide ChangeOf, YearOfInstant, AtMost, LatestOf;
    var year := YearOfInstant(instant + r.std);
    var ts := Window(r, year);
    InWindow(r, year, year - 1, true);
    var best := LatestOf(ts, instant).value;
    forall y, begins | ChangeOf(r, y, begins).0 <= instant ensures AtMost(ChangeOf(r, y, begins), best) {
      FarYears(r, instant, y, begins);
      if year - 1 <= y {
        InWindow(r, year, y, begins);
      } else {
        GrowsAtMost(r, y, year - 1, begins);
        InWindow(r, year, year - 1, begins);
        AtMostAgain(ChangeOf(r, y, begins), ChangeOf(r, year - 1, begins), best);
      }
    }
    OfWindow(r, year, best);
    forall c | IsLatest(r, instant, c) ensures c == best {
      AtMostBoth(c, best);
    }
  }

  /** Both changes are over by the next new year, by standard time. */
  predicate Early(r: Rule)
    requires r.dst.Some?
  {
    && TimeOf(r, true) <= Remaining(r.start) * 86400
    && TimeOf(r, false) <= Remaining(r.end) * 86400
  }

  /** Three years are enough for every rule, of any times and offsets, whose changes are over by new year. */
  lemma WindowIsEnough(r: Rule, instant: int) returns (c: Change)
    requires Parsed(r) && Early(r)
    ensures IsLatest(r, instant, c) && WindowDst(r, instant) == c.1
  {
    hide ChangeOf, YearOfInstant, WindowDst, DaysFromCivil, IsLatest;
    var year := YearOfInstant(instant + r.std);
    FarYears(r, instant, year, true);
    LocalInYear(r, year - 1, true);
    LocalInYear(r, year - 1, false);
    BothPassed(r, instant);
    c := LatestExists(r, instant);
  }

  // ----- exactly when three years are enough, for times on their day and daylight time ahead

  predicate Ordinary(r: Rule) {
    Parsed(r) && 0 <= r.start.time <= 86400 && 0 <= r.end.time <= 86400 && r.std <= r.dst.value
  }

  /** Day 365, counted from 0: in a common year, that is the next new year's day. */
  predicate IsLast(d: RuleDate) { d.JulianZeroBased? && d.day == 365 }

  /** The rules for which some instant is answered wrongly: one date is day 365 and, in the night of new year, its
      change of the year before last is still the latest one. */
  predicate Misses(r: Rule)
    requires r.dst.Some?
  {
    var s, e := TimeOf(r, true), TimeOf(r, false);
    if IsLast(r.start) then
      match r.end
      case JulianZeroBased(n, _) => 0 < (if n == 365 then 0 else n * 86400) + e <= s
      case JulianNoLeap(n, _) => 0 < (n - 1) * 86400 + e <= s
      case MonthWeekDay(month, week, _, _) => month == 1 && week == 1 && 0 < s && e <= s
    else
      IsLast(r.end) &&
      match r.start
      case JulianZeroBased(n, _) => n == 0 && 0 < s < e
      case JulianNoLeap(n, _) => n == 1 && 0 < s < e
      case MonthWeekDay(month, week, _, _) => month == 1 && week == 1 && s < e
  }

  lemma LastDay(r: Rule, y: int, begins: bool)
    requires r.dst.Some? && IsLast(DateOf(r, begins))
    ensures LocalAt(r, y, begins) == NewYear(y) + 365 * 86400 + TimeOf(r, begins)
    ensures LocalAt(r, y, begins) == NewYear(y + 1) + TimeOf(r, begins) - if Leap(y) then 86400 else 0
  {
    hide DaysFromCivil, LocalAt;
    LocalIs(r, y, begins);
    YearSpan(y);
  }

  /** How long after new year a change that is not on day 365 comes, in any year. */
  lemma FromNewYear(r: Rule, y: int, begins: bool)
    requires Ordinary(r) && !IsLast(DateOf(r, begins))
    ensures LocalAt(r, y, begins) <= NewYear(y + 1)
    ensures match DateOf(r, begins)
            case JulianZeroBased(n, _) => LocalAt(r, y, begins) == NewYear(y) + n * 86400 + TimeOf(r, begins)
            case JulianNoLeap(n, _) =>
              && LocalAt(r, y, begins) >= NewYear(y) + (n - 1) * 86400 + TimeOf(r, begins)
              && (n < 60 ==> LocalAt(r, y, begins) == NewYear(y) + (n - 1) * 86400 + TimeOf(r, begins))
            case MonthWeekDay(month, week, _, _) =>
              && LocalAt(r, y, begins) >= NewYear(y) + TimeOf(r, begins)
              && (month != 1 || week != 1 ==> LocalAt(r, y, begins) >= NewYear(y) + 7 * 86400 + TimeOf(r, begins))
  {
    hide DaysFromCivil, LocalAt;
    LocalIs(r, y, begins);
    LocalInYear(r, y, begins);
    match DateOf(r, begins)
    case JulianZeroBased(_, _) =>
    case JulianNoLeap(_, _) =>
    case MonthWeekDay(month, week, weekday, time) =>
      RuleDayIsNth(y, month, week, weekday, time);
      if month > 1 { AfterJanuary(y, month); }
  }

  lemma AfterJanuary(y: int, m: int)
    requires 1 < m <= 12
    ensures DaysFromCivil(y, m, 1) >= DaysFromCivil(y, 1, 1) + 31
  {
    EarlierIsLess(Date(y, 1, 31), Date(y, m, 1));
    DaysAre(Date(y, 1, 1));
    DaysAre(Date(y, 1, 31));
  }

  // ----- the failing shapes

  /** A start on day 365 that has not come yet this new year is still right if an end came after the one before it. */
  lemma LateStart(r: Rule, instant: int)
    requires Ordinary(r) && IsLast(r.start) && !IsLast(r.end) && !Misses(r)
    ensures Right(r, instant)
  {
    hide ChangeOf, YearOfInstant, DaysFromCivil, WindowDst;
    var year := YearOfInstant(instant + r.std);
    FarYears(r, instant, year, true);
    LastDay(r, year - 1, true);
    LastDay(r, year - 2, true);
    FromNewYear(r, year - 1, false);
    FromNewYear(r, year, false);
    YearSpan(year - 1);
    if ChangeOf(r, year - 1, true).0 <= instant {
      BothPassed(r, instant);
    } else {
      StartsAhead(r, instant);
      var z := if ChangeOf(r, year, false).0 <= instant then year else year - 1;
      assert LocalAt(r, year - 2, true) < LocalAt(r, z, false);
      EndIsLatest(r, instant, z);
    }
  }

  lemma StartsAhead(r: Rule, instant: int)
    requires Parsed(r) && ChangeOf(r, YearOfInstant(instant + r.std) - 1, true).0 > instant
    ensures !WindowDst(r, instant)
    ensures forall y :: y >= YearOfInstant(instant + r.std) - 1 ==> ChangeOf(r, y, true).0 > instant
  {
    hide ChangeOf, YearOfInstant;
    var year := YearOfInstant(instant + r.std);
    forall y | y >= year - 1 ensures ChangeOf(r, y, true).0 > instant { ChangesGrow(r, year - 1, y, true); }
    WindowNoStart(r, instant);
  }

  lemma EndIsLatest(r: Rule, instant: int, z: int)
    requires Parsed(r) && ChangeOf(r, z, false).0 <= instant && !WindowDst(r, instant)
    requires var year := YearOfInstant(instant + r.std);
             && (forall y :: y >= year - 1 ==> ChangeOf(r, y, true).0 > instant)
             && ChangeOf(r, year - 2, true).0 < ChangeOf(r, z, false).0
    ensures Right(r, instant)
  {
    hide ChangeOf, YearOfInstant, WindowDst, IsLatest;
    var year := YearOfInstant(instant + r.std);
    forall y | ChangeOf(r, y, true).0 <= instant ensures AtMost(ChangeOf(r, y, true), ChangeOf(r, z, false)) {
      ChangesGrow(r, y, year - 2, true);
    }
    forall c | IsLatest(r, instant, c) ensures !c.1 { LatestKind(r, instant, c, z, false, true); }
  }

  lemma LateEnd(r: Rule, instant: int)
    requires Ordinary(r) && !IsLast(r.start) && IsLast(r.end) && !Misses(r)
    ensures Right(r, instant)
  {
    hide ChangeOf, YearOfInstant, DaysFromCivil, WindowDst;
    var year := YearOfInstant(instant + r.std);
    FarYears(r, instant, year, true);
    LastDay(r, year - 1, false);
    LastDay(r, year - 2, false);
    FromNewYear(r, year - 1, true);
    FromNewYear(r, year, true);
    YearSpan(year - 1);
    if ChangeOf(r, year - 1, false).0 <= instant {
      BothPassed(r, instant);
    } else {
      EndsAhead(r, instant);
      var z := if ChangeOf(r, year, true).0 <= instant then year else year - 1;
      assert LocalAt(r, year - 2, false) <= LocalAt(r, z, true);
      StartIsLatest(r, instant, z);
    }
  }

  lemma EndsAhead(r: Rule, instant: int)
    requires Parsed(r) && ChangeOf(r, YearOfInstant(instant + r.std) - 1, false).0 > instant
    ensures forall y :: y >= YearOfInstant(instant + r.std) - 1 ==> ChangeOf(r, y, false).0 > instant
    ensures ChangeOf(r, YearOfInstant(instant + r.std) - 1, true).0 <= instant ==> WindowDst(r, instant)
  {
    hide ChangeOf, YearOfInstant;
    var year := YearOfInstant(instant + r.std);
    forall y | y >= year - 1 ensures ChangeOf(r, y, false).0 > instant { ChangesGrow(r, year - 1, y, false); }
    if ChangeOf(r, year - 1, true).0 <= instant { WindowNoEnd(r, instant); }
  }

  lemma StartIsLatest(r: Rule, instant: int, z: int)
    requires Parsed(r) && ChangeOf(r, z, true).0 <= instant && WindowDst(r, instant)
    requires var year := YearOfInstant(instant + r.std);
             && (forall y :: y >= year - 1 ==> ChangeOf(r, y, false).0 > instant)
             && ChangeOf(r, year - 2, false).0 <= ChangeOf(r, z, true).0
    ensures Right(r, instant)
  {
    hide RuleTransition, YearOfInstant, WindowDst, IsLatest;
    var year := YearOfInstant(instant + r.std);
    forall y | ChangeOf(r, y, false).0 <= instant ensures AtMost(ChangeOf(r, y, false), ChangeOf(r, z, true)) {
      ChangesGrow(r, y, year - 2, false);
    }
    forall c | IsLatest(r, instant, c) ensures c.1 { LatestKind(r, instant, c, z, true, false); }
  }

  lemma LateBoth(r: Rule, instant: int)
    requires Ordinary(r) && IsLast(r.start) && IsLast(r.end) && !Misses(r)
    ensures Right(r, instant)
  {
    hide ChangeOf, YearOfInstant, DaysFromCivil, WindowDst;
    var year := YearOfInstant(instant + r.std);
    FarYears(r, instant, year, true);
    FarYears(r, instant, year - 2, false);
    LastDay(r, year - 1, false);
    LastDay(r, year - 2, false);
    LastDay(r, year - 1, true);
    LastDay(r, year - 2, true);
    YearSpan(year - 1);
    if ChangeOf(r, year - 1, true).0 > instant {
      StartsAhead(r, instant);
      EndIsLatest(r, instant, if ChangeOf(r, year - 1, false).0 <= instant then year - 1 else year - 2);
    } else if ChangeOf(r, year - 1, false).0 > instant {
      EndsAhead(r, instant);
      StartIsLatest(r, instant, year - 1);
    } else {
      BothPassed(r, instant);
    }
  }

  /** Two common years, the second beginning on the given weekday, before the year returned. */
  lemma CommonYears(weekday: int) returns (y: int)
    requires 0 <= weekday <= 6
    ensures !Leap(y - 1) && !Leap(y - 2) && WeekdayOfDay(DaysFromCivil(y - 1, 1, 1)) == weekday
  {
    hide DaysFromCivil, WeekdayOfDay;
    if weekday < 4 { y := EarlyWeekday(weekday); } else { y := LateWeekday(weekday); }
  }

  lemma EarlyWeekday(weekday: int) returns (y: int)
    requires 0 <= weekday <= 3
    ensures !Leap(y - 1) && !Leap(y - 2) && WeekdayOfDay(DaysFromCivil(y - 1, 1, 1)) == weekday
  {
    match weekday
    case 0 => y := 2024;
    case 1 => y := 2019;
    case 2 => y := 2020;
    case _ => y := 2015;
  }

  lemma LateWeekday(weekday: int) returns (y: int)
    requires 4 <= weekday <= 6
    ensures !Leap(y - 1) && !Leap(y - 2) && WeekdayOfDay(DaysFromCivil(y - 1, 1, 1)) == weekday
  {
    match weekday
    case 4 => y := 2016;
    case 5 => y := 2011;
    case _ => y := 2023;
  }

  /** The first such weekday of January: new year's day in a year that begins on it, and the seventh the year after,
      if the first is common. */
  lemma FirstInJanuary(y: int, weekday: int, time: int)
    requires 0 <= weekday <= 6 && !Leap(y - 1) && WeekdayOfDay(DaysFromCivil(y - 1, 1, 1)) == weekday
    ensures RuleDay(y - 1, MonthWeekDay(1, 1, weekday, time)) == DaysFromCivil(y - 1, 1, 1)
    ensures RuleDay(y, MonthWeekDay(1, 1, weekday, time)) == DaysFromCivil(y, 1, 1) + 6
  {
    hide DaysFromCivil, WeekdayOfDay, RuleDay;
    var d, first, next := MonthWeekDay(1, 1, weekday, time), DaysFromCivil(y - 1, 1, 1), DaysFromCivil(y, 1, 1);
    YearSpan(y - 1);
    RuleDayIsNth(y - 1, 1, 1, weekday, time);
    RuleDayIsNth(y, 1, 1, weekday, time);
    WeekdayGoesRound(first);
    WeekdayGoesRound(RuleDay(y - 1, d));
    WeekdayGoesRound(RuleDay(y, d));
    SameWeekday(first, RuleDay(y - 1, d) - first);
    SameWeekday(first, RuleDay(y, d) - first);
  }

  lemma SameWeekday(day: int, ahead: int)
    requires 0 <= ahead < 372 && (day + 4) % 7 == (day + ahead + 4) % 7
    ensures ahead % 7 == 0
  {
  }

  /** A new year's night in which a start on day 365 has yet to come, and the one a year before is still the latest
      change. */
  lemma StartMissed(r: Rule, y: int, z: int) returns (instant: int, c: Change)
    requires Ordinary(r) && IsLast(r.start) && 0 < r.start.time && !Leap(y - 1) && !Leap(y - 2)
    requires LocalAt(r, z, false) <= LocalAt(r, y - 2, true) && LocalAt(r, z + 1, false) > NewYear(y)
    ensures IsLatest(r, instant, c) && c.1 && !WindowDst(r, instant)
  {
    hide ChangeOf, YearOfInstant, DaysFromCivil, WindowDst, IsLatest;
    instant := NewYear(y) - r.std;
    YearsApart(y, 1);
    YearIs(instant + r.std, y);
    LastDay(r, y - 1, true);
    StartsAhead(r, instant);
    FarYears(r, instant, y - 2, true);
    c := LatestExists(r, instant);
    forall x | ChangeOf(r, x, false).0 <= instant ensures AtMost(ChangeOf(r, x, false), ChangeOf(r, y - 2, true)) {
      if x > z { ChangesGrow(r, z + 1, x, false); }
      ChangesGrow(r, x, z, false);
      NoLater(r, x, y - 2);
    }
    LatestKind(r, instant, c, y - 2, true, false);
  }

  lemma NoLater(r: Rule, x: int, y: int)
    requires r.dst.Some? && ChangeOf(r, x, false).0 <= ChangeOf(r, y, true).0
    ensures AtMost(ChangeOf(r, x, false), ChangeOf(r, y, true))
  {
    hide RuleTransition;
  }

  /** A new year's night in which an end on day 365 has yet to come, and the one a year before is still the latest
      change. */
  lemma EndMissed(r: Rule, y: int) returns (instant: int, c: Change)
    requires Ordinary(r) && IsLast(r.end) && !IsLast(r.start) && 0 < TimeOf(r, false) && !Leap(y - 1) && !Leap(y - 2)
    requires LocalAt(r, y - 1, true) < LocalAt(r, y - 2, false) && LocalAt(r, y, true) > NewYear(y)
    ensures IsLatest(r, instant, c) && !c.1 && WindowDst(r, instant)
  {
    hide ChangeOf, YearOfInstant, DaysFromCivil, WindowDst, IsLatest;
    instant := NewYear(y) - r.std;
    YearsApart(y, 1);
    YearIs(instant + r.std, y);
    LastDay(r, y - 1, false);
    FromNewYear(r, y - 1, true);
    EndsAhead(r, instant);
    FarYears(r, instant, y - 2, false);
    c := LatestExists(r, instant);
    forall x | ChangeOf(r, x, true).0 <= instant ensures AtMost(ChangeOf(r, x, true), ChangeOf(r, y - 2, false)) {
      if x > y - 1 { ChangesGrow(r, y, x, true); }
      ChangesGrow(r, x, y - 1, true);
    }
    LatestKind(r, instant, c, y - 2, false, true);
  }

  lemma MissedBoth(r: Rule) returns (instant: int, c: Change)
    requires Ordinary(r) && Misses(r) && IsLast(r.start) && IsLast(r.end)
    ensures IsLatest(r, instant, c) && c.1 != WindowDst(r, instant)
  {
    hide ChangeOf, YearOfInstant, DaysFromCivil, WindowDst, IsLatest;
    var y := CommonYears(6);
    LastDay(r, y - 2, true);
    LastDay(r, y - 1, false);
    LastDay(r, y - 2, false);
    instant, c := StartMissed(r, y, y - 2);
  }

  lemma MissedStart(r: Rule) returns (instant: int, c: Change)
    requires Ordinary(r) && Misses(r) && IsLast(r.start) && !IsLast(r.end)
    ensures IsLatest(r, instant, c) && c.1 != WindowDst(r, instant)
  {
    hide ChangeOf, YearOfInstant, DaysFromCivil, WindowDst, IsLatest, LocalAt;
    var y := CommonYears(if r.end.MonthWeekDay? then r.end.weekday else 6);
    LastDay(r, y - 2, true);
    if r.end.MonthWeekDay? {
      FirstInJanuary(y, r.end.weekday, r.end.time);
      LocalIs(r, y - 1, false);
      LocalIs(r, y, false);
    } else {
      FromNewYear(r, y - 1, false);
      FromNewYear(r, y, false);
    }
    instant, c := StartMissed(r, y, y - 1);
  }

  lemma MissedEnd(r: Rule) returns (instant: int, c: Change)
    requires Ordinary(r) && Misses(r) && !IsLast(r.start)
    ensures IsLatest(r, instant, c) && c.1 != WindowDst(r, instant)
  {
    hide ChangeOf, YearOfInstant, DaysFromCivil, WindowDst, IsLatest, LocalAt;
    var y := CommonYears(if r.start.MonthWeekDay? then r.start.weekday else 6);
    LastDay(r, y - 2, false);
    if r.start.MonthWeekDay? {
      FirstInJanuary(y, r.start.weekday, r.start.time);
      LocalIs(r, y - 1, true);
      LocalIs(r, y, true);
    } else {
      FromNewYear(r, y - 1, true);
      FromNewYear(r, y, true);
    }
    instant, c := EndMissed(r, y);
  }

  /** Every rule that may miss does, at some instant. */
  lemma Missed(r: Rule) returns (instant: int, c: Change)
    requires Ordinary(r) && Misses(r)
    ensures IsLatest(r, instant, c) && c.1 != WindowDst(r, instant)
  {
    hide WindowDst, IsLatest, Misses;
    if !IsLast(r.start) {
      instant, c := MissedEnd(r);
    } else if IsLast(r.end) {
      instant, c := MissedBoth(r);
    } else {
      instant, c := MissedStart(r);
    }
  }

  /** Three years are enough at every instant if and only if the rule is not one of those. */
  lemma WindowIsEnoughExactly(r: Rule)
    requires Ordinary(r)
    ensures (forall instant :: Right(r, instant)) <==> !Misses(r)
  {
    hide WindowDst, IsLatest, YearOfInstant, Misses, Right;
    if Misses(r) {
      var instant, c := Missed(r);
      NotRight(r, instant, c);
    } else {
      forall instant ensures Right(r, instant) {
        if IsLast(r.start) && IsLast(r.end) {
          LateBoth(r, instant);
        } else if IsLast(r.start) {
          LateStart(r, instant);
        } else if IsLast(r.end) {
          LateEnd(r, instant);
        } else {
          OnTime(r, instant);
        }
      }
    }
  }

  lemma NotRight(r: Rule, instant: int, c: Change)
    requires r.dst.Some? && IsLatest(r, instant, c) && c.1 != WindowDst(r, instant)
    ensures !Right(r, instant)
  {
  }

  lemma OnTime(r: Rule, instant: int)
    requires Ordinary(r) && !IsLast(r.start) && !IsLast(r.end)
    ensures Right(r, instant)
  {
    hide ChangeOf, YearOfInstant, WindowDst, DaysFromCivil;
    var year := YearOfInstant(instant + r.std);
    FarYears(r, instant, year, true);
    FromNewYear(r, year - 1, true);
    FromNewYear(r, year - 1, false);
    BothPassed(r, instant);
  }

  /** Both dates on day 365; only the end, with a start on new year's day; only the start, with an end on a first
      Sunday. */
  lemma WindowCanMiss()
    ensures exists instant ::
              !Right(Rule(0, Some(3600), JulianZeroBased(365, 86400), JulianZeroBased(365, 86400)), instant)
    ensures exists instant ::
              !Right(Rule(0, Some(3600), JulianZeroBased(0, 43200), JulianZeroBased(365, 86400)), instant)
    ensures exists instant ::
              !Right(Rule(0, Some(3600), JulianZeroBased(365, 86400), MonthWeekDay(1, 1, 0, 7200)), instant)
  {
    hide Right;
    WindowIsEnoughExactly(Rule(0, Some(3600), JulianZeroBased(365, 86400), JulianZeroBased(365, 86400)));
    WindowIsEnoughExactly(Rule(0, Some(3600), JulianZeroBased(0, 43200), JulianZeroBased(365, 86400)));
    WindowIsEnoughExactly(Rule(0, Some(3600), JulianZeroBased(365, 86400), MonthWeekDay(1, 1, 0, 7200)));
  }

  lemma YearIs(instant: int, y: int)
    requires DaysFromCivil(y, 1, 1) * 86400 <= instant < DaysFromCivil(y + 1, 1, 1) * 86400
    ensures YearOfInstant(instant) == y
  {
    hide DaysFromCivil;
    var x := YearOfInstant(instant);
    YearOfInstantIs(instant);
    if x < y { YearsApart(x + 1, y - (x + 1)); }
    if x > y { YearsApart(y + 1, x - (y + 1)); }
  }

  // ----- rule_local

  datatype Local = Local(offset: int, isDst: bool)

  function RuleLocal(r: Rule, instant: int): Local {
    if r.dst.Some? && WindowDst(r, instant) then Local(r.dst.value, true) else Local(r.std, false)
  }

  /** The start of year `y` has passed, and no end in the window is after it: daylight time, with its own offset. */
  lemma InDaylight(r: Rule, instant: int, year: int, y: int)
    requires r.dst.Some? && year == YearOfInstant(instant + r.std) && year - 1 <= y <= year + 1
    requires RuleDay(y, r.start) * 86400 + r.start.time - r.std <= instant
    requires forall z :: year - 1 <= z <= year + 1 ==>
               || RuleDay(z, r.end) * 86400 + r.end.time - r.dst.value > instant
               || RuleDay(z, r.end) * 86400 + r.end.time - r.dst.value
                    <= RuleDay(y, r.start) * 86400 + r.start.time - r.std
    ensures RuleLocal(r, instant) == Local(r.dst.value, true)
  {
    hide RuleDay, YearOfInstant, Window, LatestOf;
    InWindow(r, year, y, true);
    var best := LatestOf(Window(r, year), instant);
    OfWindow(r, year, best.value);
  }

  /** No start in the window has passed, or an end has that is after each of them: standard time, with its own
      offset. */
  lemma InStandard(r: Rule, instant: int, year: int, z: int)
    requires r.dst.Some? && year == YearOfInstant(instant + r.std)
    requires forall y :: year - 1 <= y <= year + 1 ==>
               || RuleDay(y, r.start) * 86400 + r.start.time - r.std > instant
               || (year - 1 <= z <= year + 1
                   && RuleDay(y, r.start) * 86400 + r.start.time - r.std
                        < RuleDay(z, r.end) * 86400 + r.end.time - r.dst.value <= instant)
    ensures RuleLocal(r, instant) == Local(r.std, false)
  {
    hide RuleDay, YearOfInstant, Window, LatestOf;
    if year - 1 <= z <= year + 1 { InWindow(r, year, z, false); }
    var best := LatestOf(Window(r, year), instant);
    if best.Some? { OfWindow(r, year, best.value); }
  }

  /** Without daylight time there is only the one. */
  lemma NoDaylight(r: Rule, instant: int)
    requires r.dst.None?
    ensures RuleLocal(r, instant) == Local(r.std, false)
  {
  }

  predicate Sorted(ts: seq<Change>) { forall i, j :: 0 <= i < j < |ts| ==> AtMost(ts[i], ts[j]) }

  method InsertChange(ts: seq<Change>, c: Change) returns (r: seq<Change>)
    requires Sorted(ts)
    ensures Sorted(r) && forall x :: x in r <==> x in ts || x == c
  {
    var i := |ts|;
    while i > 0 && Before(c, ts[i - 1])
      invariant 0 <= i <= |ts| && forall j :: i <= j < |ts| ==> Before(c, ts[j])
    {
      i := i - 1;
    }
    r := ts[..i] + [c] + ts[i..];
    InsertedSorted(ts, c, i);
  }

  lemma InsertedSorted(ts: seq<Change>, c: Change, at: nat)
    requires Sorted(ts) && at <= |ts| && (at > 0 ==> AtMost(ts[at - 1], c))
    requires forall j :: at <= j < |ts| ==> Before(c, ts[j])
    ensures Sorted(ts[..at] + [c] + ts[at..]) && forall x :: x in ts[..at] + [c] + ts[at..] <==> x in ts || x == c
  {
    hide Before, AtMost;
    var r := ts[..at] + [c] + ts[at..];
    forall i | 0 <= i < at ensures AtMost(ts[i], c) { if i < at - 1 { AtMostAgain(ts[i], ts[at - 1], c); } }
    forall j | at <= j < |ts| ensures AtMost(c, ts[j]) { BeforeIsAtMost(c, ts[j]); }
    forall i, j | 0 <= i < j < |r| ensures AtMost(r[i], r[j]) {
      if i < at && j > at { assert AtMost(ts[i], ts[j - 1]); }
      if i > at { assert AtMost(ts[i - 1], ts[j - 1]); }
    }
    assert ts == ts[..at] + ts[at..];
  }

  lemma AtMostAgain(a: Change, b: Change, c: Change)
    requires AtMost(a, b) && AtMost(b, c)
    ensures AtMost(a, c)
  {
  }

  lemma BeforeIsAtMost(a: Change, b: Change)
    requires Before(a, b)
    ensures AtMost(a, b)
  {
  }

  /** What the loop over the sorted changes keeps is the latest of them. */
  lemma SameLatest(window: seq<Change>, ts: seq<Change>, instant: int, last: Option<Change>)
    requires forall x :: x in ts <==> x in window
    requires last.None? ==> forall j :: 0 <= j < |ts| ==> ts[j].0 > instant
    requires last.Some? ==>
               last.value in ts && last.value.0 <= instant && forall j :: 0 <= j < |ts| && ts[j].0 <= instant ==>
                   AtMost(ts[j], last.value)
    ensures LatestOf(window, instant) == last
  {
    hide AtMost;
    var best := LatestOf(window, instant);
    if last.Some? {
      assert last.value in window && best.Some? && AtMost(last.value, best.value);
      var j :| 0 <= j < |ts| && ts[j] == best.value;
      AtMostBoth(last.value, best.value);
    }
  }

  lemma AtMostBoth(a: Change, b: Change)
    requires AtMost(a, b) && AtMost(b, a)
    ensures a == b
  {
  }

  /** The changes of three years, sorted; the last one not after the instant decides. */
  method FindRuleLocal(r: Rule, instant: int) returns (local: Local)
    ensures local == RuleLocal(r, instant)
  {
    hide ChangeOf, YearOfInstant;
    if r.dst.None? { return Local(r.std, false); }
    var window := Window(r, YearOfInstant(instant + r.std));
    var ts: seq<Change>, i := [], 0;
    while i < |window|
      invariant i <= |window| && Sorted(ts) && forall x :: x in ts <==> x in window[..i]
    {
      ts := InsertChange(ts, window[i]);
      assert window[..i + 1] == window[..i] + [window[i]];
      i := i + 1;
    }
    assert window[..i] == window;
    var dst := false;
    ghost var last: Option<Change> := None;
    i := 0;
    while i < |ts|
      invariant i <= |ts| && dst == (last.Some? && last.value.1)
      invariant last.None? ==> forall j :: 0 <= j < i ==> ts[j].0 > instant
      invariant last.Some? ==>
                  last.value in ts && last.value.0 <= instant && forall j :: 0 <= j < i && ts[j].0 <= instant ==>
                      AtMost(ts[j], last.value)
    {
      if ts[i].0 <= instant {
        dst := ts[i].1;
        last := Some(ts[i]);
      }
      i := i + 1;
    }
    SameLatest(window, ts, instant, last);
    local := if dst then Local(r.dst.value, true) else Local(r.std, false);
  }

  // ----- zones

  datatype Zone = Zone(times: seq<int>, kinds: seq<nat>, types: seq<Local>, footer: Option<Rule>)
  {
    /** What parsing a zone leaves: transitions in order, and types for all of them. */
    predicate Valid() {
      && types != [] && |times| == |kinds| && (forall i :: 0 <= i < |kinds| ==> kinds[i] < |types|)
      && forall i, j :: 0 <= i < j < |times| ==> times[i] < times[j]
    }
  }

  /** How many of the first `n` transitions are at or before the instant (upper_bound). */
  function Passed(times: seq<int>, n: nat, instant: int): (k: nat)
    requires n <= |times|
    ensures k <= n
  {
    if n == 0 then 0 else if times[n - 1] <= instant then n else Passed(times, n - 1, instant)
  }

  lemma {:induction false} PassedIs(z: Zone, n: nat, instant: int)
    requires z.Valid() && n <= |z.times|
    ensures forall i :: 0 <= i < n ==> (z.times[i] <= instant <==> i < Passed(z.times, n, instant))
  {
    if n > 0 { PassedIs(z, n - 1, instant); }
  }

  function FirstStandard(types: seq<Local>, i: nat): (k: nat)
    requires types != [] && i <= |types|
    ensures k < |types|
    decreases |types| - i
  {
    if i == |types| then 0 else if !types[i].isDst then i else FirstStandard(types, i + 1)
  }

  function LocalOf(z: Zone, instant: int): Local
    requires z.Valid()
  {
    var k := Passed(z.times, |z.times|, instant);
    if |z.times| == 0 then (if z.footer.Some? then RuleLocal(z.footer.value, instant) else z.types[0])
    else if k == 0 then z.types[FirstStandard(z.types, 0)]
    else if k == |z.times| && z.footer.Some? then RuleLocal(z.footer.value, instant)
    else z.types[z.kinds[k - 1]]
  }

  /** The reading on the transition times themselves: the type of the transition last passed; from the last one on, the
      footer's if there is one; before the first, the first type that is not daylight time, or the first of all. */
  lemma LocalIsOf(z: Zone, instant: int, i: nat)
    requires z.Valid()
    ensures i + 1 < |z.times| && z.times[i] <= instant < z.times[i + 1] ==> LocalOf(z, instant) == z.types[z.kinds[i]]
    ensures z.times != [] && z.times[|z.times| - 1] <= instant ==>
              LocalOf(z, instant) == if z.footer.Some? then RuleLocal(z.footer.value, instant)
                                     else z.types[z.kinds[|z.times| - 1]]
    ensures z.times != [] && instant < z.times[0] && i < |z.types| && !z.types[i].isDst ==>
              (forall j :: 0 <= j < i ==> z.types[j].isDst) ==> LocalOf(z, instant) == z.types[i]
    ensures z.times != [] && instant < z.times[0] && (forall j :: 0 <= j < |z.types| ==> z.types[j].isDst) ==>
              LocalOf(z, instant) == z.types[0]
    ensures z.times == [] ==>
              LocalOf(z, instant) == if z.footer.Some? then RuleLocal(z.footer.value, instant) else z.types[0]
  {
    hide RuleLocal;
    PassedIs(z, |z.times|, instant);
    FirstStandardIs(z.types, 0, i);
  }

  lemma {:induction false} FirstStandardIs(types: seq<Local>, from: nat, i: nat)
    requires types != [] && from <= |types|
    ensures from <= i < |types| && !types[i].isDst && (forall j :: from <= j < i ==> types[j].isDst) ==>
              FirstStandard(types, from) == i
    ensures (forall j :: from <= j < |types| ==> types[j].isDst) ==> FirstStandard(types, from) == 0
    decreases |types| - from
  {
    if from < |types| { FirstStandardIs(types, from + 1, i); }
  }

  predicate Known(z: Zone, offset: int) {
    || (exists i :: 0 <= i < |z.types| && z.types[i].offset == offset)
    || (z.footer.Some?
        && (offset == z.footer.value.std || (z.footer.value.dst.Some? && offset == z.footer.value.dst.value)))
  }

  /** The offset in force is always one that the zone lists. */
  lemma OffsetIsKnown(z: Zone, instant: int)
    requires z.Valid()
    ensures Known(z, LocalOf(z, instant).offset)
  {
    hide WindowDst;
  }

  ghost predicate Ascending(ts: seq<int>) { forall i, j :: 0 <= i < j < |ts| ==> ts[i] < ts[j] }

  /** Adds an instant in its place, once. */
  method InsertInstant(ts: seq<int>, t: int) returns (r: seq<int>)
    requires Ascending(ts)
    ensures Ascending(r) && forall x :: x in r <==> x in ts || x == t
  {
    var i := |ts|;
    while i > 0 && t < ts[i - 1]
      invariant 0 <= i <= |ts| && forall j :: i <= j < |ts| ==> t < ts[j]
    {
      i := i - 1;
    }
    if i > 0 && ts[i - 1] == t { return ts; }
    PutBetween(ts, i, t);
    r := ts[..i] + [t] + ts[i..];
  }

  lemma PutBetween(ts: seq<int>, i: nat, t: int)
    requires Ascending(ts) && i <= |ts| && (i > 0 ==> ts[i - 1] < t) && (i < |ts| ==> t < ts[i])
    ensures Ascending(ts[..i] + [t] + ts[i..]) && forall x :: x in ts[..i] + [t] + ts[i..] <==> x in ts || x == t
  {
    PutMembers(ts, i, t);
    var r := ts[..i] + [t] + ts[i..];
    forall j, k | 0 <= j < k < |r| ensures r[j] < r[k] {
      assert r[j] == if j < i then ts[j] else if j == i then t else ts[j - 1];
      assert r[k] == if k < i then ts[k] else if k == i then t else ts[k - 1];
    }
  }

  lemma PutMembers(ts: seq<int>, i: nat, t: int)
    requires i <= |ts|
    ensures forall x :: x in ts[..i] + [t] + ts[i..] <==> x in ts || x == t
  {
    assert ts == ts[..i] + ts[i..];
  }

  method Consider(z: Zone, local: int, offset: int, ts: seq<int>) returns (r: seq<int>)
    requires z.Valid() && Ascending(ts)
    ensures Ascending(r) && forall t :: t in r <==> t in ts || (t == local - offset && LocalOf(z, t).offset == offset)
  {
    hide LocalOf;
    r := ts;
    if LocalOf(z, local - offset).offset == offset { r := InsertInstant(ts, local - offset); }
  }

  /** The instants whose local reading is `local`: none in a gap, two in an overlap, in order. */
  method InstantsOf(z: Zone, local: int) returns (ts: seq<int>)
    requires z.Valid()
    ensures Ascending(ts) && forall t :: t in ts <==> t + LocalOf(z, t).offset == local
  {
    hide LocalOf;
    ts := [];
    ts := Consider(z, local, LocalOf(z, local - 36 * 3600).offset, ts);
    ts := Consider(z, local, LocalOf(z, local + 36 * 3600).offset, ts);
    var i := 0;
    while i < |z.types|
      invariant i <= |z.types| && Ascending(ts) && forall t :: t in ts ==> t + LocalOf(z, t).offset == local
      invariant forall j :: 0 <= j < i ==> LocalOf(z, local - z.types[j].offset).offset == z.types[j].offset ==>
                  local - z.types[j].offset in ts
    {
      ts := Consider(z, local, z.types[i].offset, ts);
      i := i + 1;
    }
    if z.footer.Some? {
      ts := Consider(z, local, z.footer.value.std, ts);
      if z.footer.value.dst.Some? { ts := Consider(z, local, z.footer.value.dst.value, ts); }
    }
    forall t | t + LocalOf(z, t).offset == local ensures t in ts {
      OffsetIsKnown(z, t);
      var offset := LocalOf(z, t).offset;
      if j :| 0 <= j < |z.types| && z.types[j].offset == offset { assert local - z.types[j].offset == t; }
    }
  }
}

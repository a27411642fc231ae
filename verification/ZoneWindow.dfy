/** Exactly when the three years that rule_local looks at are enough, for every rule that the parser admits
    (modules/punchline/src/tzif.cpp). */
module ZoneWindow {
  import opened Calendar
  import opened ZoneRules

  /** What decides a year is its first instant: a change of the year before last is the latest one, and one of the
      other kind, or none, is the latest in the window. Starts and ends are by standard local time; a start is later
      than an end of the same instant. */
  predicate MissesFrom(r: Rule, y: int, local: int)
    requires r.dst.Some?
  {
    || (&& local < LocalAt(r, y - 1, true) && LocalAt(r, y - 2, false) <= LocalAt(r, y - 2, true)
        && local < LocalAt(r, y, false)
        && (LocalAt(r, y - 1, false) <= local ==> LocalAt(r, y - 1, false) <= LocalAt(r, y - 2, true)))
    || (local < LocalAt(r, y - 1, false) && LocalAt(r, y - 1, true) < LocalAt(r, y - 2, false)
        && local < LocalAt(r, y, true))
  }

  predicate MissesIn(r: Rule, y: int)
    requires r.dst.Some?
  {
    MissesFrom(r, y, NewYear(y))
  }

  // ----- one instant

  /** Around new year: changes of the year before last are behind, those of the year to come are ahead. */
  lemma Nearby(r: Rule, y: int, local: int, begins: bool)
    requires Parsed(r) && NewYear(y) <= local < NewYear(y + 1)
    ensures LocalAt(r, y - 2, begins) < LocalAt(r, y - 1, begins) < LocalAt(r, y, begins) < LocalAt(r, y + 1, begins)
    ensures LocalAt(r, y - 2, begins) < NewYear(y - 1) + 10 * 86400 && NewYear(y) - 10 * 86400 < LocalAt(r, y, begins)
    ensures NewYear(y - 1) + 365 * 86400 <= NewYear(y) && NewYear(y) + 365 * 86400 <= NewYear(y + 1)
    ensures LocalAt(r, y - 1, begins) < NewYear(y) + 10 * 86400
    ensures NewYear(y + 1) - 10 * 86400 < LocalAt(r, y + 1, begins)
  {
    hide DaysFromCivil, ChangeOf;
    ChangesGrow(r, y - 2, y - 1, begins);
    ChangesGrow(r, y - 1, y, begins);
    ChangesGrow(r, y, y + 1, begins);
    LocalInYear(r, y - 2, begins);
    LocalInYear(r, y - 1, begins);
    LocalInYear(r, y, begins);
    LocalInYear(r, y + 1, begins);
    YearsApart(y - 1, 1);
    YearsApart(y, 1);
  }

  lemma LatestIsOf(r: Rule, instant: int, c: Change, y: int, begins: bool)
    requires Parsed(r) && IsLatest(r, instant, c) && c.1 == begins && instant < ChangeOf(r, y + 1, begins).0
    ensures AtMost(c, ChangeOf(r, y, begins))
  {
    hide ChangeOf, AtMost;
    var z :| c == ChangeOf(r, z, c.1);
    if z > y { ChangesGrow(r, y + 1, z, begins); }
    GrowsAtMost(r, z, y, begins);
  }

  /** The start of last year is still to come. */
  lemma StartAhead(r: Rule, instant: int)
    requires Parsed(r)
    requires var year := YearOfInstant(instant + r.std); instant + r.std < LocalAt(r, year - 1, true)
    ensures !Right(r, instant) <==> MissesFrom(r, YearOfInstant(instant + r.std), instant + r.std)
  {
    hide DaysFromCivil, YearOfInstant, WindowDst, RuleTransition;
    var local := instant + r.std;
    var year := YearOfInstant(local);
    FarYears(r, instant, year, true);
    Nearby(r, year, local, true);
    Nearby(r, year, local, false);
    forall y | y >= year - 1 ensures ChangeOf(r, y, true).0 > instant { ChangesGrow(r, year - 1, y, true); }
    WindowNoStart(r, instant);
    var c := LatestExists(r, instant);
    assert AtMost(ChangeOf(r, year - 2, false), c);
    assert ChangeOf(r, year - 1, false).0 <= instant ==> AtMost(ChangeOf(r, year - 1, false), c);
    assert ChangeOf(r, year, false).0 <= instant ==> AtMost(ChangeOf(r, year, false), c);
    if MissesFrom(r, year, local) {
      forall z | ChangeOf(r, z, false).0 <= instant ensures AtMost(ChangeOf(r, z, false), ChangeOf(r, year - 2, true)) {
        if z >= year { ChangesGrow(r, year, z, false); }
        if z <= year - 2 { ChangesGrow(r, z, year - 2, false); }
      }
      LatestKind(r, instant, c, year - 2, true, false);
    } else if c.1 {
      LatestIsOf(r, instant, c, year - 2, true);
    }
    RightOne(r, instant, c);
  }

  /** The start of last year has passed, and its end is still to come. */
  lemma EndAhead(r: Rule, instant: int)
    requires Parsed(r)
    requires var year := YearOfInstant(instant + r.std);
             LocalAt(r, year - 1, true) <= instant + r.std < LocalAt(r, year - 1, false)
    ensures !Right(r, instant) <==> MissesFrom(r, YearOfInstant(instant + r.std), instant + r.std)
  {
    hide DaysFromCivil, YearOfInstant, WindowDst, RuleTransition;
    var local := instant + r.std;
    var year := YearOfInstant(local);
    FarYears(r, instant, year, true);
    Nearby(r, year, local, true);
    Nearby(r, year, local, false);
    forall y | y >= year - 1 ensures ChangeOf(r, y, false).0 > instant { ChangesGrow(r, year - 1, y, false); }
    WindowNoEnd(r, instant);
    var c := LatestExists(r, instant);
    assert AtMost(ChangeOf(r, year - 1, true), c);
    assert ChangeOf(r, year, true).0 <= instant ==> AtMost(ChangeOf(r, year, true), c);
    if MissesFrom(r, year, local) {
      forall z | ChangeOf(r, z, true).0 <= instant ensures AtMost(ChangeOf(r, z, true), ChangeOf(r, year - 2, false)) {
        if z >= year { ChangesGrow(r, year, z, true); }
        if z <= year - 1 { ChangesGrow(r, z, year - 1, true); }
      }
      LatestKind(r, instant, c, year - 2, false, true);
    } else if !c.1 {
      LatestIsOf(r, instant, c, year - 2, false);
    }
    RightOne(r, instant, c);
  }

  /** There is one latest change. */
  lemma RightOne(r: Rule, instant: int, c: Change)
    requires r.dst.Some? && IsLatest(r, instant, c)
    ensures Right(r, instant) <==> c.1 == WindowDst(r, instant)
  {
    hide ChangeOf, WindowDst;
    forall c' | IsLatest(r, instant, c') ensures c' == c { AtMostBoth(c, c'); }
  }

  /** At every instant: the window is wrong exactly if it misses then. */
  lemma RightAt(r: Rule, instant: int)
    requires Parsed(r)
    ensures !Right(r, instant) <==> MissesFrom(r, YearOfInstant(instant + r.std), instant + r.std)
  {
    hide Right, YearOfInstant, ChangeOf;
    var year := YearOfInstant(instant + r.std);
    if instant + r.std < LocalAt(r, year - 1, true) {
      StartAhead(r, instant);
    } else if instant + r.std < LocalAt(r, year - 1, false) {
      EndAhead(r, instant);
    } else {
      BothPassed(r, instant);
    }
  }

  /** So if it does at any instant of a year, it does at the first. */
  lemma MissesFirst(r: Rule, y: int, local: int)
    requires Parsed(r) && NewYear(y) <= local < NewYear(y + 1) && MissesFrom(r, y, local)
    ensures MissesIn(r, y)
  {
    hide LocalAt, NewYear;
  }

  // ----- the calendar repeats every 400 years

  const ERA := 146097

  lemma YearStartRepeats(y: int)
    ensures YearStart(y + 400) == YearStart(y) + ERA
  {
    QuotientIs(y + 400, 4, y / 4 + 100, y % 4);
    QuotientIs(y + 400, 100, y / 100 + 4, y % 100);
    QuotientIs(y + 400, 400, y / 400 + 1, y % 400);
  }

  lemma DaysRepeat(y: int, m: int)
    requires 1 <= m <= 12
    ensures DaysFromCivil(y + 400, m, 1) == DaysFromCivil(y, m, 1) + ERA
  {
    hide YearStart, MonthStart;
    DaysAre(Date(y, m, 1));
    DaysAre(Date(y + 400, m, 1));
    YearStartRepeats(MarchYear(Date(y, m, 1)));
  }

  lemma LeapRepeats(y: int)
    ensures Leap(y + 400) == Leap(y)
  {
    QuotientIs(y + 400, 4, y / 4 + 100, y % 4);
    QuotientIs(y + 400, 100, y / 100 + 4, y % 100);
    QuotientIs(y + 400, 400, y / 400 + 1, y % 400);
  }

  lemma WeekdayRepeats(day: int)
    ensures WeekdayOfDay(day + ERA) == WeekdayOfDay(day)
  {
  }

  lemma {:induction false} BackRepeats(day: int, last: int, by_: int)
    ensures BackByWeeks(day + by_, last + by_) == BackByWeeks(day, last) + by_
    decreases day - last
  {
    if day > last { BackRepeats(day - 7, last, by_); }
  }

  lemma RuleDayRepeats(y: int, d: RuleDate)
    requires DateOk(d)
    ensures RuleDay(y + 400, d) == RuleDay(y, d) + ERA
  {
    hide DaysFromCivil, WeekdayOfDay, BackByWeeks, Leap;
    DaysRepeat(y, 1);
    LeapRepeats(y);
    if d.MonthWeekDay? {
      DaysRepeat(y, d.month);
      var first := DaysFromCivil(y, d.month, 1);
      WeekdayRepeats(first);
      var ahead := d.weekday - WeekdayOfDay(first);
      var delta := if ahead < 0 then ahead + 7 else ahead;
      BackRepeats(first + delta + (d.week - 1) * 7, first + DaysIn(y, d.month) - 1, ERA);
    }
  }

  lemma LocalRepeats(r: Rule, y: int, begins: bool)
    requires Parsed(r)
    ensures LocalAt(r, y + 400, begins) == LocalAt(r, y, begins) + ERA * 86400
  {
    hide RuleDay;
    RuleDayRepeats(y, DateOf(r, begins));
  }

  lemma MissesRepeats(r: Rule, y: int)
    requires Parsed(r)
    ensures MissesIn(r, y + 400) <==> MissesIn(r, y)
  {
    hide LocalAt, DaysFromCivil;
    DaysRepeat(y, 1);
    LocalRepeats(r, y - 2, true);
    LocalRepeats(r, y - 2, false);
    LocalRepeats(r, y - 1, true);
    LocalRepeats(r, y - 1, false);
    LocalRepeats(r, y, true);
    LocalRepeats(r, y, false);
  }

  lemma {:induction false} MissesInEra(r: Rule, y: int, n: nat)
    requires Parsed(r)
    ensures MissesIn(r, y + 400 * n) <==> MissesIn(r, y)
    decreases n
  {
    hide MissesIn;
    if n > 0 {
      MissesInEra(r, y, n - 1);
      MissesRepeats(r, y + 400 * (n - 1));
    }
  }

  // ----- exactly

  /** Three years are enough at every instant if and only if they are at the first instants of the 400 years of one
      cycle, which is a comparison of six changes each. */
  lemma WindowIsEnoughIff(r: Rule)
    requires Parsed(r)
    ensures (forall instant :: Right(r, instant)) <==> (forall y :: 0 <= y < 400 ==> !MissesIn(r, y))
  {
    hide Right, MissesFrom, MissesIn, YearOfInstant;
    forall y | MissesIn(r, y) ensures exists instant :: !Right(r, instant) { WrongAtNewYear(r, y); }
    forall instant | !Right(r, instant) ensures exists y :: 0 <= y < 400 && MissesIn(r, y) {
      RightAt(r, instant);
      FarYears(r, instant, 0, true);
      var year := YearOfInstant(instant + r.std);
      MissesFirst(r, year, instant + r.std);
      if year >= 0 { MissesInEra(r, year % 400, year / 400); } else { MissesInEra(r, year, -(year / 400)); }
      assert MissesIn(r, year % 400);
    }
  }

  lemma WrongAtNewYear(r: Rule, y: int)
    requires Parsed(r) && MissesIn(r, y)
    ensures !Right(r, NewYear(y) - r.std)
  {
    hide DaysFromCivil, LocalAt, YearOfInstant, Right;
    YearsApart(y, 1);
    YearIs(NewYear(y), y);
    RightAt(r, NewYear(y) - r.std);
  }
}

/** Time entries, shifts and approvals, and the operations that change them (modules/punchline/src/sync.cpp
    and modules/punchline/src/lifecycle.cpp). */
module Timesheet {
  import opened PageFormat
  import opened Disk
  import opened Pairing

  // ----- entries in order

  /** By device time, then by id. */
  predicate Before(a: Entry, b: Entry) { a.time < b.time || (a.time == b.time && a.id < b.id) }

  predicate OneId(s: set<Entry>) { forall a, b :: a in s && b in s && a.id == b.id ==> a == b }

  predicate First(s: set<Entry>, m: Entry) { m in s && forall e :: e in s && e != m ==> Before(m, e) }

  lemma {:induction false} FirstExists(s: set<Entry>) returns (m: Entry)
    requires s != {} && OneId(s)
    ensures First(s, m)
    decreases s
  {
    var x :| x in s;
    var rest := s - {x};
    if rest == {} {
      m := x;
      assert s == {x};
    } else {
      m := FirstExists(rest);
      if Before(x, m) { m := x; }
      forall e | e in s && e != m ensures Before(m, e) {
        if e != x { assert e in rest; }
      }
    }
  }

  lemma HasFirst(s: set<Entry>)
    requires s != {} && OneId(s)
    ensures exists m :: First(s, m)
  {
    var m := FirstExists(s);
  }

  /** The entries in device-time order. */
  ghost function InOrder(s: set<Entry>): (r: seq<Entry>)
    requires OneId(s)
    ensures forall e :: e in r <==> e in s
    decreases s
  {
    if s == {} then [] else
    HasFirst(s);
    var m :| First(s, m);
    [m] + InOrder(s - {m})
  }

  lemma InOrderFirst(s: set<Entry>, m: Entry)
    requires OneId(s) && First(s, m)
    ensures InOrder(s) == [m] + InOrder(s - {m})
  {
    HasFirst(s);
  }

  lemma {:induction false} InOrderDistinct(s: set<Entry>)
    requires OneId(s)
    ensures DistinctIds(InOrder(s))
    decreases s
  {
    if s != {} {
      var m := FirstExists(s);
      InOrderFirst(s, m);
      InOrderDistinct(s - {m});
    }
  }

  ghost function Earlier(s: set<Entry>, start: int): set<Entry> { set e | e in s && e.time < start }

  ghost function Later(s: set<Entry>, start: int): set<Entry> { set e | e in s && e.time >= start }

  lemma {:induction false} InOrderCut(s: set<Entry>, start: int)
    requires OneId(s)
    ensures InOrder(s) == InOrder(Earlier(s, start)) + InOrder(Later(s, start))
    decreases s
  {
    hide InOrder, OneId, First, Earlier, Later;
    PartsOneId(s, start);
    if s == {} {
      NoParts(start);
    } else {
      var m := FirstExists(s);
      OneIdWithout(s, m);
      PartsOneId(s - {m}, start);
      InOrderFirst(s, m);
      InOrderCut(s - {m}, start);
      CutAtFirst(s, m, start);
      var e, l := InOrder(Earlier(s - {m}, start)), InOrder(Later(s - {m}, start));
      assert [m] + (e + l) == ([m] + e) + l;
      assert e == [] ==> e + ([m] + l) == [m] + (e + l);
    }
  }

  lemma NoParts(start: int)
    ensures Earlier({}, start) == {} && Later({}, start) == {} && OneId({}) && InOrder({}) == []
  {
  }

  lemma OneIdWithout(s: set<Entry>, m: Entry)
    requires OneId(s)
    ensures OneId(s - {m})
  {
  }

  lemma CutAtFirst(s: set<Entry>, m: Entry, start: int)
    requires OneId(s) && First(s, m)
    ensures m.time < start ==> Later(s - {m}, start) == Later(s, start)
                               && InOrder(Earlier(s, start)) == [m] + InOrder(Earlier(s - {m}, start))
    ensures m.time >= start ==> InOrder(Earlier(s, start)) == [] && InOrder(Earlier(s - {m}, start)) == []
                                && InOrder(Later(s, start)) == [m] + InOrder(Later(s - {m}, start))
  {
    if m.time < start {
      assert Earlier(s, start) - {m} == Earlier(s - {m}, start) && Later(s - {m}, start) == Later(s, start);
      InOrderFirst(Earlier(s, start), m);
    } else {
      assert Earlier(s, start) == {} && Earlier(s - {m}, start) == {} && Later(s, start) - {m} == Later(s - {m}, start);
      InOrderFirst(Later(s, start), m);
    }
  }

  // ----- tables

  type Entries = map<nat, Entry>
  type Shifts = map<nat, Shift>

  ghost predicate Keyed(entries: Entries) { forall id :: id in entries ==> entries[id].id == id }

  /** The employee's current punches that are not settled. */
  ghost function Current(entries: Entries, employee: nat): set<Entry> {
    set id | id in entries && entries[id].employee == employee && entries[id].supersededBy == 0
      && !Settled(entries[id].state) :: entries[id]
  }

  /** The employee's shifts that are not settled, but for their ids. */
  ghost function Unsettled(shifts: Shifts, employee: nat): set<Shift> {
    set id | id in shifts && shifts[id].employee == employee && !Settled(shifts[id].state) :: shifts[id]
  }

  /** The unsettled shifts are the pairing of the unsettled current punches. */
  ghost predicate Paired(entries: Entries, shifts: Shifts, employee: nat) {
    Keyed(entries) && Unsettled(shifts, employee) == AsSet(Fold(None, InOrder(Current(entries, employee))))
  }

  predicate Rebuilt(sh: Shift, employee: nat, start: int) {
    sh.employee == employee && !Settled(sh.state) && Touches(sh, start)
  }

  ghost function Rows(shifts: Shifts): set<Shift> { set id | id in shifts :: shifts[id] }

  /** No shift that would be rebuilt from `start` on begins before it. */
  ghost predicate Closed(rows: set<Shift>, employee: nat, start: int) {
    forall sh :: sh in rows && Rebuilt(sh, employee, start) ==> start <= sh.inTime
  }

  /** The latest such start that is not after `from`. */
  ghost predicate IsStart(rows: set<Shift>, employee: nat, from: int, start: int) {
    start <= from && Closed(rows, employee, start) && forall t :: t <= from && Closed(rows, employee, t) ==> t <= start
  }

  lemma {:induction false} StartExists(rows: set<Shift>, employee: nat, from: int)
    ensures exists start :: IsStart(rows, employee, from, start)
    decreases set sh | sh in rows && sh.inTime < from
  {
    if Closed(rows, employee, from) {
      assert IsStart(rows, employee, from, from);
    } else {
      var sh :| sh in rows && Rebuilt(sh, employee, from) && sh.inTime < from;
      var fewer, more := set x | x in rows && x.inTime < sh.inTime, set x | x in rows && x.inTime < from;
      assert fewer <= more && sh in more && sh !in fewer;
      StartExists(rows, employee, sh.inTime);
      var start :| IsStart(rows, employee, sh.inTime, start);
      forall t | t <= from && Closed(rows, employee, t) ensures t <= start {
        if t > sh.inTime { assert Rebuilt(sh, employee, t); }
      }
      assert IsStart(rows, employee, from, start);
    }
  }

  ghost function StartOf(rows: set<Shift>, employee: nat, from: int): (start: int)
    ensures IsStart(rows, employee, from, start)
  {
    StartExists(rows, employee, from);
    var start :| IsStart(rows, employee, from, start);
    start
  }

  /** The pairing of the employee's punches from `start` on, in entries kept by their ids. */
  ghost function PairingFrom(entries: Entries, employee: nat, start: int): set<Shift> {
    if Keyed(entries) then AsSet(Fold(None, InOrder(Later(Current(entries, employee), start)))) else {}
  }

  ghost function Untouchable(rows: set<Shift>, employee: nat, start: int): set<Shift> {
    set sh | sh in rows && !Rebuilt(sh, employee, start)
  }

  /** All shifts as they were, but from the start on the pairing of the employee's unsettled punches. */
  ghost function Rebuild(rows: set<Shift>, employee: nat, from: int, entries: Entries): set<Shift> {
    var start := StartOf(rows, employee, from);
    Untouchable(rows, employee, start) + PairingFrom(entries, employee, start)
  }

  /** Punches before `from` are as they were. */
  ghost predicate SameBefore(entries: Entries, entries': Entries, employee: nat, from: int) {
    Earlier(Current(entries, employee), from) == Earlier(Current(entries', employee), from)
  }

  ghost function Untouched(shs: set<Shift>, start: int): set<Shift> { set sh | sh in shs && !Touches(sh, start) }

  lemma UntouchedAreStored(shs: set<Shift>, a: seq<Entry>, b: seq<Entry>, start: int)
    requires shs == AsSet(Fold(None, a + b))
    requires forall i :: 0 <= i < |a| ==> a[i].time < start
    requires forall i :: 0 <= i < |b| ==> b[i].time >= start
    requires forall sh :: sh in shs && Touches(sh, start) ==> sh.inTime >= start
    ensures OpenAfter(None, a) == None && Untouched(shs, start) == AsSet(StoredBy(None, a))
  {
    hide Fold, StoredBy, OpenAfter;
    CleanCut(a, b, start);
  }

  lemma CurrentOneId(entries: Entries, employee: nat)
    requires Keyed(entries)
    ensures OneId(Current(entries, employee))
  {
  }

  /** Rebuilding from a start that no rebuilt shift reaches behind gives the pairing of all punches. */
  lemma RepairIsFold(entries: Entries, shifts: Shifts, employee: nat, from: int, start: int, entries': Entries,
                     after: set<Shift>)
    requires Paired(entries, shifts, employee) && Keyed(entries') && start <= from
    requires SameBefore(entries, entries', employee, from)
    requires forall sh :: sh in Unsettled(shifts, employee) && Touches(sh, start) ==> sh.inTime >= start
    requires after == Untouched(Unsettled(shifts, employee), start)
             + AsSet(Fold(None, InOrder(Later(Current(entries', employee), start))))
    ensures after == AsSet(Fold(None, InOrder(Current(entries', employee))))
  {
    hide Fold, StoredBy, OpenAfter, InOrder, OneId, Current, Unsettled, Keyed;
    var c, c' := Current(entries, employee), Current(entries', employee);
    CurrentOneId(entries, employee);
    CurrentOneId(entries', employee);
    InOrderCut(c, start);
    InOrderCut(c', start);
    assert Earlier(c, start) == Earlier(Earlier(c, from), start)
      && Earlier(c', start) == Earlier(Earlier(c', from), start);
    PartsOneId(c, start);
    PartsOneId(c', start);
    var a, b, b' := InOrder(Earlier(c, start)), InOrder(Later(c, start)), InOrder(Later(c', start));
    OrderTimes(c, start);
    UntouchedAreStored(Unsettled(shifts, employee), a, b, start);
    FoldConcat(None, a, b');
    assert AsSet(StoredBy(None, a) + Fold(None, b')) == AsSet(StoredBy(None, a)) + AsSet(Fold(None, b'));
  }

  lemma PartsOneId(s: set<Entry>, start: int)
    requires OneId(s)
    ensures OneId(Earlier(s, start)) && OneId(Later(s, start))
  {
  }

  lemma OrderTimes(s: set<Entry>, start: int)
    requires OneId(s)
    ensures OneId(Earlier(s, start)) && OneId(Later(s, start))
    ensures var a := InOrder(Earlier(s, start)); forall i :: 0 <= i < |a| ==> a[i].time < start
    ensures var b := InOrder(Later(s, start)); forall i :: 0 <= i < |b| ==> b[i].time >= start
  {
    hide InOrder;
    var a, b := InOrder(Earlier(s, start)), InOrder(Later(s, start));
    assert forall i :: 0 <= i < |a| ==> a[i] in Earlier(s, start);
    assert forall i :: 0 <= i < |b| ==> b[i] in Later(s, start);
  }

  // ----- approvals

  function Rank(s: State): nat {
    match s case Recorded => 0 case Submitted => 1 case Approved => 2 case Released => 3 case Locked => 4
  }

  function Predecessor(to: State): Option<State> {
    match to
    case Recorded => None
    case Submitted => Some(Recorded)
    case Approved => Some(Submitted)
    case Released => Some(Approved)
    case Locked => Some(Released)
  }

  datatype Approval = Approval(period: nat, employee: nat, from: State, to: State)

  /** There is an approval row for every rung up to `state`. */
  predicate Climbed(approvals: set<Approval>, period: nat, employee: nat, state: State)
    decreases Rank(state)
  {
    state == Recorded ||
    (var from := Predecessor(state).value;
     Approval(period, employee, from, state) in approvals && Climbed(approvals, period, employee, from))
  }

  lemma {:induction false} ClimbedMore(approvals: set<Approval>, approvals': set<Approval>, period: nat, employee: nat,
                                       state: State)
    requires Climbed(approvals, period, employee, state) && approvals <= approvals'
    ensures Climbed(approvals', period, employee, state)
    decreases Rank(state)
  {
    if state != Recorded { ClimbedMore(approvals, approvals', period, employee, Predecessor(state).value); }
  }

  // ----- what every operation keeps

  /** A shift begins with a live in punch and stands on the same rung. */
  ghost predicate ShiftOk(entries: Entries, sh: Shift) {
    sh.inEntry in entries && From(sh, entries[sh.inEntry]) && entries[sh.inEntry].supersededBy == 0
  }

  ghost predicate OneShift(shifts: Shifts) {
    forall i, j :: i in shifts && j in shifts && i != j ==> shifts[i].inEntry != shifts[j].inEntry
  }

  ghost predicate AllClimbed(entries: Entries, approvals: set<Approval>) {
    forall id :: id in entries ==> Climbed(approvals, entries[id].period, entries[id].employee, entries[id].state)
  }

  /** Settled shifts keep their punches and times; only their rung may rise. */
  ghost predicate SettledKept(shifts: Shifts, shifts': Shifts) {
    forall id :: id in shifts && Settled(shifts[id].state) ==>
      id in shifts' && Rank(shifts[id].state) <= Rank(shifts'[id].state)
        && shifts'[id] == shifts[id].(state := shifts'[id].state)
  }

  /** In a pay period that is locked, every live entry is. */
  ghost predicate LockedIn(entries: Entries, open: map<nat, bool>) {
    forall id :: id in entries && entries[id].supersededBy == 0 ==>
      entries[id].period in open && !open[entries[id].period] ==> entries[id].state == Locked
  }

  /** Entries stay what they are; they may be superseded, and climb. */
  ghost predicate EntriesKept(entries: Entries, entries': Entries) {
    forall id :: id in entries ==>
      && id in entries' && Rank(entries[id].state) <= Rank(entries'[id].state)
      && entries'[id] == entries[id].(state := entries'[id].state, supersededBy := entries'[id].supersededBy)
  }

  // ----- one rung up

  /** Live entries of the period, of one employee or of all. */
  predicate InScope(e: Entry, period: nat, who: Option<nat>) {
    e.period == period && (who.Some? ==> e.employee == who.value) && e.supersededBy == 0
  }

  function RaisedEntry(e: Entry, period: nat, who: Option<nat>, from: State, to: State): Entry {
    if InScope(e, period, who) && e.state == from then e.(state := to) else e
  }

  function RaisedShift(sh: Shift, period: nat, who: Option<nat>, from: State, to: State): Shift {
    if sh.period == period && (who.Some? ==> sh.employee == who.value) && sh.state == from then sh.(state := to) else sh
  }

  function Raised(entries: Entries, period: nat, who: Option<nat>, from: State, to: State): Entries {
    map id | id in entries :: RaisedEntry(entries[id], period, who, from, to)
  }

  function RaisedShifts(shifts: Shifts, period: nat, who: Option<nat>, from: State, to: State): Shifts {
    map id | id in shifts :: RaisedShift(shifts[id], period, who, from, to)
  }

  ghost function RaisedRows(rows: set<Shift>, period: nat, who: Option<nat>, from: State, to: State): set<Shift> {
    set sh | sh in rows :: RaisedShift(sh, period, who, from, to)
  }

  lemma RowsRaised(shifts: Shifts, period: nat, who: Option<nat>, from: State, to: State)
    ensures Rows(RaisedShifts(shifts, period, who, from, to)) == RaisedRows(Rows(shifts), period, who, from, to)
  {
    hide RaisedShift;
    var shifts' := RaisedShifts(shifts, period, who, from, to);
    forall x | x in RaisedRows(Rows(shifts), period, who, from, to) ensures x in Rows(shifts') {
      var sh :| sh in Rows(shifts) && x == RaisedShift(sh, period, who, from, to);
      var id: nat :| id in shifts && shifts[id] == sh;
      assert shifts'[id] == x;
    }
  }

  predicate AtLeast(entries: Entries, period: nat, employee: nat, rank: int) {
    forall id :: id in entries && InScope(entries[id], period, Some(employee)) ==> Rank(entries[id].state) >= rank
  }

  predicate SomeAt(entries: Entries, period: nat, employee: nat, rank: int) {
    exists id :: id in entries && InScope(entries[id], period, Some(employee)) && Rank(entries[id].state) == rank
  }

  predicate AllReleased(entries: Entries, period: nat) {
    forall id :: id in entries && InScope(entries[id], period, None) ==> entries[id].state == Released
  }

  lemma KeptRefl(entries: Entries, shifts: Shifts)
    ensures EntriesKept(entries, entries) && SettledKept(shifts, shifts)
  {
  }

  /** Going up one rung with an approval row for it keeps entries, shifts and approvals in step. */
  lemma RaisedTables(entries: Entries, shifts: Shifts, approvals: set<Approval>, period: nat, who: Option<nat>,
                     from: State, to: State,
                     approvals': set<Approval>)
    requires Keyed(entries) && OneShift(shifts) && AllClimbed(entries, approvals)
    requires forall id :: id in shifts ==> ShiftOk(entries, shifts[id])
    requires Predecessor(to) == Some(from) && approvals <= approvals'
    requires forall id :: id in entries && InScope(entries[id], period, who) ==>
               Approval(period, entries[id].employee, from, to) in approvals'
    ensures Keyed(Raised(entries, period, who, from, to)) && OneShift(RaisedShifts(shifts, period, who, from, to))
    ensures AllClimbed(Raised(entries, period, who, from, to), approvals')
    ensures forall id :: id in shifts ==>
              ShiftOk(Raised(entries, period, who, from, to), RaisedShifts(shifts, period, who, from, to)[id])
    ensures EntriesKept(entries, Raised(entries, period, who, from, to))
    ensures SettledKept(shifts, RaisedShifts(shifts, period, who, from, to))
    ensures Raised(entries, period, who, from, to).Keys == entries.Keys
    ensures RaisedShifts(shifts, period, who, from, to).Keys == shifts.Keys
  {
    hide AllClimbed, ShiftOk, EntriesKept, SettledKept;
    RaisedClimbs(entries, approvals, period, who, from, to, approvals');
    forall id | id in shifts
      ensures ShiftOk(Raised(entries, period, who, from, to), RaisedShifts(shifts, period, who, from, to)[id])
    {
      RaisedLink(entries, shifts[id], period, who, from, to);
    }
    RaisedKept(entries, shifts, period, who, from, to);
  }

  lemma RaisedClimbs(entries: Entries, approvals: set<Approval>, period: nat, who: Option<nat>, from: State, to: State,
                     approvals': set<Approval>)
    requires AllClimbed(entries, approvals) && Predecessor(to) == Some(from) && approvals <= approvals'
    requires forall id :: id in entries && InScope(entries[id], period, who) ==>
               Approval(period, entries[id].employee, from, to) in approvals'
    ensures AllClimbed(Raised(entries, period, who, from, to), approvals')
  {
    var entries' := Raised(entries, period, who, from, to);
    forall id | id in entries'
      ensures Climbed(approvals', entries'[id].period, entries'[id].employee, entries'[id].state)
    {
      ClimbedMore(approvals, approvals', entries[id].period, entries[id].employee, entries[id].state);
    }
  }

  /** A shift moves exactly when the punch it begins with does. */
  lemma RaisedLink(entries: Entries, sh: Shift, period: nat, who: Option<nat>, from: State, to: State)
    requires ShiftOk(entries, sh)
    ensures ShiftOk(Raised(entries, period, who, from, to), RaisedShift(sh, period, who, from, to))
  {
  }

  lemma RaisedKept(entries: Entries, shifts: Shifts, period: nat, who: Option<nat>, from: State, to: State)
    requires Predecessor(to) == Some(from)
    ensures EntriesKept(entries, Raised(entries, period, who, from, to))
    ensures SettledKept(shifts, RaisedShifts(shifts, period, who, from, to))
  {
  }

  lemma RaisedStaysLocked(entries: Entries, open: map<nat, bool>, period: nat, who: Option<nat>, from: State, to: State)
    requires LockedIn(entries, open) && period in open && open[period]
    ensures LockedIn(Raised(entries, period, who, from, to), open)
  {
  }

  lemma RaisedIsLocked(entries: Entries, open: map<nat, bool>, period: nat)
    requires LockedIn(entries, open) && AllReleased(entries, period)
    ensures LockedIn(Raised(entries, period, None, Released, Locked), open[period := false])
  {
  }

  /** What a device or a supervisor sends. */
  datatype Punch = Punch(uuid: nat, kind: Kind, time: int, payCode: string, period: nat)

  // ----- what each operation does to the books

  /** All tables but the shifts. */
  datatype Books = Books(entries: Entries, nextEntry: nat, approvals: set<Approval>, open: map<nat, bool>)

  predicate KnownUuid(entries: Entries, uuid: Uuid) { exists id :: id in entries && entries[id].uuid == uuid }

  function NewEntry(b: Books, uuid: Uuid, employee: nat, device: nat, p: Punch): Entry {
    Entry(b.nextEntry, uuid, employee, device, p.kind, p.time, Recorded,
          if p.period in b.open && b.open[p.period] then p.period else 0, p.payCode, 0)
  }

  function WithEntry(b: Books, e: Entry): Books {
    b.(entries := b.entries[b.nextEntry := e], nextEntry := b.nextEntry + 1)
  }

  function WithPunch(b: Books, employee: nat, device: nat, p: Punch): Books {
    if KnownUuid(b.entries, Sent(p.uuid)) || p.time <= 0 then b
      else WithEntry(b, NewEntry(b, Sent(p.uuid), employee, device, p))
  }

  function WithBatch(b: Books, employee: nat, device: nat, batch: seq<Punch>): Books
    decreases |batch|
  {
    if batch == [] then b else
    WithPunch(WithBatch(b, employee, device, batch[..|batch| - 1]), employee, device, batch[|batch| - 1])
  }

  /** The earliest time of the punches of a batch that are recorded, or 0 if none is. */
  function BatchFrom(b: Books, employee: nat, device: nat, batch: seq<Punch>): int
    decreases |batch|
  {
    if batch == [] then 0 else
    var before, p := BatchFrom(b, employee, device, batch[..|batch| - 1]), batch[|batch| - 1];
    if KnownUuid(WithBatch(b, employee, device, batch[..|batch| - 1]).entries, Sent(p.uuid)) || p.time <= 0 then before
    else if before == 0 || p.time < before then p.time else before
  }

  predicate ManualOk(b: Books, employee: nat, p: Punch, correctionOf: nat, allowed: bool) {
    && allowed && p.time > 0 && (p.period in b.open ==> b.open[p.period])
    && (correctionOf != 0 ==>
          && correctionOf in b.entries && b.entries[correctionOf].employee == employee
          && b.entries[correctionOf].supersededBy == 0 && !Settled(b.entries[correctionOf].state))
  }

  function WithManual(b: Books, employee: nat, device: nat, p: Punch, correctionOf: nat, allowed: bool): Books {
    if !ManualOk(b, employee, p, correctionOf, allowed) then b
    else if correctionOf == 0 then WithEntry(b, NewEntry(b, Derived(b.nextEntry), employee, device, p))
    else
      var original := b.entries[correctionOf];
      var b' := WithEntry(b, NewEntry(b, Derived(b.nextEntry), employee, original.device, p));
      b'.(entries := b'.entries[correctionOf := original.(supersededBy := b.nextEntry)])
  }

  /** The earlier of the new entry and the one that it corrects. */
  function ManualFrom(b: Books, p: Punch, correctionOf: nat): int {
    if correctionOf in b.entries && correctionOf != 0 && b.entries[correctionOf].time < p.time
      then b.entries[correctionOf].time else p.time
  }

  predicate TransitionOk(b: Books, period: nat, employee: nat, to: State, allowed: bool, held: bool) {
    && (to == Submitted || to == Approved || to == Released)
    && period in b.open && b.open[period] && allowed && !(to == Released && held)
    && AtLeast(b.entries, period, employee, Rank(to) - 1) && SomeAt(b.entries, period, employee, Rank(to) - 1)
  }

  /** One approval row, and the entries one rung up. */
  function WithTransition(b: Books, period: nat, employee: nat, to: State, allowed: bool, held: bool): Books {
    if !TransitionOk(b, period, employee, to, allowed, held) then b
    else
      var from := Predecessor(to).value;
      b.(entries := Raised(b.entries, period, Some(employee), from, to),
         approvals := b.approvals + {Approval(period, employee, from, to)})
  }

  predicate LockOk(b: Books, period: nat, allowed: bool) {
    period in b.open && b.open[period] && allowed && AllReleased(b.entries, period)
  }

  /** One approval row for every employee with an entry in the period. */
  function LockRows(entries: Entries, period: nat): set<Approval> {
    set id | id in entries && InScope(entries[id], period, None) ::
        Approval(period, entries[id].employee, Released, Locked)
  }

  function WithLock(b: Books, period: nat, allowed: bool): Books {
    if !LockOk(b, period, allowed) then b
    else
      b.(entries := Raised(b.entries, period, None, Released, Locked),
         approvals := b.approvals + LockRows(b.entries, period),
         open := b.open[period := false])
  }

  ghost predicate OthersSame(entries: Entries, entries': Entries, employee: nat) {
    && (forall id :: id in entries ==> id in entries' && entries'[id].employee == entries[id].employee)
    && (forall id :: id in entries' && entries'[id].employee != employee ==>
          id in entries && entries'[id] == entries[id])
  }

  /** The new entries are the employee's, none before `earliest`. */
  ghost predicate Grown(entries: Entries, entries': Entries, employee: nat, earliest: int) {
    && (forall id :: id in entries' && id !in entries ==>
          0 < earliest <= entries'[id].time && entries'[id].employee == employee)
    && (forall id :: id in entries ==> id in entries' && entries'[id] == entries[id])
  }

  lemma GrownNone(entries: Entries, employee: nat)
    ensures Grown(entries, entries, employee, 0)
  {
  }

  lemma GrownIs(entries: Entries, entries': Entries, employee: nat, earliest: int)
    requires Grown(entries, entries', employee, earliest)
    ensures EntriesKept(entries, entries') && OthersSame(entries, entries', employee)
    ensures SameBefore(entries, entries', employee, earliest)
  {
    SameEarlier(entries, entries', employee, earliest);
  }

  lemma GrownMore(entries: Entries, entries': Entries, employee: nat, earliest: int, e: Entry)
    requires earliest >= 0 && Grown(entries, entries', employee, earliest) && (earliest == 0 ==> entries' == entries)
    requires e.id !in entries' && e.employee == employee && e.time > 0
    ensures Grown(entries, entries'[e.id := e], employee, if earliest == 0 || e.time < earliest then e.time
                  else earliest)
  {
  }

  /** Punches of other employees are as they were, and so are their shifts. */
  lemma OthersPaired(entries: Entries, shifts: Shifts, entries': Entries, shifts': Shifts, employee: nat)
    requires Keyed(entries') && OthersSame(entries, entries', employee)
    requires forall other :: other != employee ==> Unsettled(shifts', other) == Unsettled(shifts, other)
    ensures forall other :: other != employee && Paired(entries, shifts, other) ==> Paired(entries', shifts', other)
  {
    hide InOrder, Fold, Unsettled;
    forall other | other != employee && Paired(entries, shifts, other) ensures Paired(entries', shifts', other) {
      assert Current(entries', other) == Current(entries, other);
    }
  }

  lemma LaterIs(entries: Entries, employee: nat, start: int, left: set<Entry>)
    requires left == set id | id in entries && entries[id].employee == employee && entries[id].supersededBy == 0
                              && !Settled(entries[id].state) && entries[id].time >= start :: entries[id]
    ensures left == Later(Current(entries, employee), start)
  {
  }

  lemma NoneInOrder()
    ensures OneId({}) && InOrder({}) == []
  {
  }

  lemma ClosedRows(shifts: Shifts, employee: nat, start: int)
    ensures Closed(Rows(shifts), employee, start) <==>
              forall id :: id in shifts && Rebuilt(shifts[id], employee, start) ==> start <= shifts[id].inTime
  {
    forall id | id in shifts ensures shifts[id] in Rows(shifts) {}
  }

  lemma OneStart(rows: set<Shift>, employee: nat, from: int, start: int)
    requires IsStart(rows, employee, from, start)
    ensures start == StartOf(rows, employee, from) && start <= from && Closed(rows, employee, start)
  {
  }

  function AllOpen(periods: set<nat>): map<nat, bool> { map p | p in periods :: true }

  class Ledger {
    var entries: Entries
    var shifts: Shifts
    var approvals: set<Approval>
    var open: map<nat, bool>   // pay periods, and whether each is open
    var nextEntry: nat
    var nextShift: nat

    ghost predicate Tables()
      reads this
    {
      && Keyed(entries) && OneShift(shifts) && AllClimbed(entries, approvals)
      && LockedIn(entries, open) && 0 !in open && nextEntry > 0
      && (forall id :: id in entries ==> 0 < id < nextEntry)
      && (forall id :: id in shifts ==> id < nextShift)
    }

    ghost predicate Valid()
      reads this
    {
      Tables() && forall id :: id in shifts ==> ShiftOk(entries, shifts[id])
    }

    ghost function Book(): Books
      reads this
    {
      Books(entries, nextEntry, approvals, open)
    }

    constructor (periods: set<nat>)
      requires 0 !in periods
      ensures Valid() && shifts == map[] && Book() == Books(map[], 1, {}, AllOpen(periods))
    {
      entries, shifts, approvals, nextEntry, nextShift := map[], map[], {}, 1, 1;
      open := AllOpen(periods);
    }

    // ----- repair

    /** The earliest in punch of the shifts to rebuild from `start` on. */
    method Earliest(employee: nat, start: int) returns (earliest: int)
      ensures earliest <= start
      ensures forall id :: id in shifts && Rebuilt(shifts[id], employee, start) ==> earliest <= shifts[id].inTime
      ensures earliest < start ==>
                exists id :: id in shifts && Rebuilt(shifts[id], employee, start) && shifts[id].inTime == earliest
    {
      earliest := start;
      var ids := shifts.Keys;
      while ids != {}
        invariant ids <= shifts.Keys && earliest <= start
        invariant forall id :: id in shifts && id !in ids && Rebuilt(shifts[id], employee, start) ==>
                    earliest <= shifts[id].inTime
        invariant earliest < start ==>
                    exists id :: id in shifts && Rebuilt(shifts[id], employee, start) && shifts[id].inTime == earliest
        decreases ids
      {
        var id :| id in ids;
        if Rebuilt(shifts[id], employee, start) && shifts[id].inTime < earliest { earliest := shifts[id].inTime; }
        ids := ids - {id};
      }
    }

    /** The rebuild range: the least one, from `from` back, that is closed under overlap. */
    method FindStart(employee: nat, from: int) returns (start: int)
      ensures IsStart(Rows(shifts), employee, from, start)
    {
      start := from;
      var earliest := Earliest(employee, start);
      while earliest != start
        invariant start <= from && earliest <= start
        invariant forall id :: id in shifts && Rebuilt(shifts[id], employee, start) ==> earliest <= shifts[id].inTime
        invariant earliest < start ==>
                    exists id :: id in shifts && Rebuilt(shifts[id], employee, start) && shifts[id].inTime == earliest
        invariant forall t :: t <= from && Closed(Rows(shifts), employee, t) ==> t <= start
        decreases set id | id in shifts && shifts[id].inTime < start
      {
        ghost var reached :| reached in shifts && Rebuilt(shifts[reached], employee, start)
          && shifts[reached].inTime == earliest;
        ghost var was := set id | id in shifts && shifts[id].inTime < start;
        forall t | t <= from && Closed(Rows(shifts), employee, t) ensures t <= earliest {
          ClosedRows(shifts, employee, t);
          assert Rebuilt(shifts[reached], employee, t);
        }
        start := earliest;
        assert reached in was;
        assert (set id | id in shifts && shifts[id].inTime < start) <= was - {reached};
        earliest := Earliest(employee, start);
      }
      ClosedRows(shifts, employee, start);
    }

    /** current_entries_from, without the settled ones. */
    method CurrentFrom(employee: nat, start: int) returns (es: seq<Entry>)
      requires Keyed(entries)
      ensures es == InOrder(Later(Current(entries, employee), start))
    {
      hide InOrder, OneId, Later, Current, Keyed;
      CurrentOneId(entries, employee);
      PartsOneId(Current(entries, employee), start);
      var left := set id | id in entries && entries[id].employee == employee && entries[id].supersededBy == 0
                           && !Settled(entries[id].state) && entries[id].time >= start :: entries[id];
      LaterIs(entries, employee, start, left);
      es := [];
      NoneInOrder();
      while left != {}
        invariant OneId(left) && es + InOrder(left) == InOrder(Later(Current(entries, employee), start))
        decreases left
      {
        HasFirst(left);
        var m :| m in left && forall e :: e in left && e != m ==> Before(m, e);
        InOrderFirst(left, m);
        OneIdWithout(left, m);
        assert es + ([m] + InOrder(left - {m})) == es + [m] + InOrder(left - {m});
        es := es + [m];
        left := left - {m};
      }
    }

    /** The rows are those of `base` and, after them, `added`. */
    ghost predicate Holds(base: Shifts, first: nat, added: seq<Shift>)
      reads this
    {
      && nextShift == first + |added|
      && (forall id :: id in shifts <==> id in base || first <= id < nextShift)
      && (forall id :: id in base ==> shifts[id] == base[id])
      && (forall k :: 0 <= k < |added| ==> shifts[first + k] == added[k])
    }

    method InsertShift(sh: Shift, ghost base: Shifts, ghost first: nat, ghost added: seq<Shift>)
      requires Holds(base, first, added) && forall id :: id in base ==> id < first
      modifies this`shifts, this`nextShift
      ensures Holds(base, first, added + [sh])
    {
      shifts := shifts[nextShift := sh];
      nextShift := nextShift + 1;
    }

    /** The pairing fold over punches in order. */
    method FoldPunches(es: seq<Entry>)
      requires forall id :: id in shifts ==> id < nextShift
      modifies this`shifts, this`nextShift
      ensures Holds(old(shifts), old(nextShift), Fold(None, es))
    {
      ghost var base, first := shifts, nextShift;
      var current: Option<Shift> := None;
      var i := 0;
      while i < |es|
        invariant 0 <= i <= |es| && current == OpenAfter(None, es[..i])
        invariant Holds(base, first, StoredBy(None, es[..i]))
      {
        var e := es[i];
        FoldOneMore(es, i);
        ghost var stored := StoredBy(None, es[..i]);
        if e.kind == In {
          if current.Some? { InsertShift(current.value, base, first, stored); }
          current := Some(OpenedBy(e));
        } else if current.None? || !PairsOut(current.value, e) {
          if current.Some? && current.value.device != e.device {
          } else {
            if current.Some? { InsertShift(current.value, base, first, stored); }
            current := None;
          }
        } else {
          InsertShift(ClosedBy(current.value, e), base, first, stored);
          current := None;
        }
        i := i + 1;
      }
      assert es[..i] == es;
      if current.Some? { InsertShift(current.value, base, first, StoredBy(None, es)); }
    }

    /** repair_pairing. `before` is what the entries were when the shifts were last paired. */
    method RepairPairing(employee: nat, from: int, ghost before: Entries)
      requires Tables()
      requires forall id :: id in shifts && !Rebuilt(shifts[id], employee, from) ==> ShiftOk(entries, shifts[id])
      modifies this`shifts, this`nextShift
      ensures Valid()
      ensures forall id ::
                id in old(shifts) && (Settled(old(shifts)[id].state) || old(shifts)[id].employee != employee) ==>
                id in shifts && shifts[id] == old(shifts)[id]
      ensures Rows(shifts) == Rebuild(Rows(old(shifts)), employee, from, entries)
      ensures forall other :: other != employee ==> Unsettled(shifts, other) == Unsettled(old(shifts), other)
      ensures Paired(before, old(shifts), employee) && SameBefore(before, entries, employee, from) ==>
                Paired(entries, shifts, employee)
    {
      hide InOrder, Fold, Paired, SameBefore, AllClimbed, OneShift, ShiftOk, IsStart, Rows, StartOf, Closed;
      var start := FindStart(employee, from);
      ghost var was := shifts;
      shifts := map id | id in shifts && !Rebuilt(shifts[id], employee, start) :: shifts[id];
      var es := CurrentFrom(employee, start);
      ghost var kept := shifts;
      FoldPunches(es);
      OneStart(Rows(was), employee, from, start);
      ClosedRows(was, employee, start);
      RepairLinks(was, kept, start, employee, es, old(nextShift));
      RepairRows(was, kept, start, employee, es, old(nextShift));
      RepairOthers(was, kept, start, employee, es, old(nextShift));
      if Paired(before, was, employee) && SameBefore(before, entries, employee, from) {
        RepairPairs(before, was, kept, from, start, employee, es, old(nextShift));
      }
    }

    lemma RepairPairs(before: Entries, was: Shifts, kept: Shifts, from: int, start: int, employee: nat, es: seq<Entry>,
                      first: nat)
      requires Keyed(entries) && es == InOrder(Later(Current(entries, employee), start)) && start <= from
      requires kept == map id | id in was && !Rebuilt(was[id], employee, start) :: was[id]
      requires Holds(kept, first, Fold(None, es)) && forall id :: id in was ==> id < first
      requires Paired(before, was, employee) && SameBefore(before, entries, employee, from)
      requires forall id :: id in was && Rebuilt(was[id], employee, start) ==> start <= was[id].inTime
      ensures Paired(entries, shifts, employee)
    {
      hide InOrder, Fold, SameBefore, Holds;
      RepairContents(was, kept, start, employee, es, first);
      forall sh | sh in Unsettled(was, employee) && Touches(sh, start) ensures sh.inTime >= start {
        var id: nat :| id in was && was[id] == sh;
        assert Rebuilt(was[id], employee, start);
      }
      RepairIsFold(before, was, employee, from, start, entries, Unsettled(shifts, employee));
    }

    lemma RepairLinks(was: Shifts, kept: Shifts, start: int, employee: nat, es: seq<Entry>, first: nat)
      requires Keyed(entries) && es == InOrder(Later(Current(entries, employee), start))
      requires forall id :: id in was && !Rebuilt(was[id], employee, start) ==> ShiftOk(entries, was[id])
      requires kept == map id | id in was && !Rebuilt(was[id], employee, start) :: was[id]
      requires OneShift(was) && Holds(kept, first, Fold(None, es)) && forall id :: id in was ==> id < first
      ensures OneShift(shifts) && forall id :: id in shifts ==> ShiftOk(entries, shifts[id])
    {
      hide InOrder, Fold;
      CurrentOneId(entries, employee);
      PartsOneId(Current(entries, employee), start);
      InOrderDistinct(Later(Current(entries, employee), start));
      FoldDistinct(None, es);
      var fold := Fold(None, es);
      forall k | 0 <= k < |fold| ensures ShiftOk(entries, fold[k]) && NewShift(entries, fold[k], employee, start) {
        FoldIsNew(entries, employee, start, es, fold[k]);
      }
      forall i, j | i in shifts && j in shifts && i != j ensures shifts[i].inEntry != shifts[j].inEntry {
        if i >= first { assert shifts[i] == fold[i - first]; }
        if j >= first { assert shifts[j] == fold[j - first]; }
        if i < first && j >= first { KeptIsNotNew(entries, was[i], fold[j - first], employee, start); }
        if j < first && i >= first { KeptIsNotNew(entries, was[j], fold[i - first], employee, start); }
      }
      forall id | id in shifts ensures ShiftOk(entries, shifts[id]) {
        if id >= first { assert shifts[id] == fold[id - first]; }
      }
    }

    lemma RepairContents(was: Shifts, kept: Shifts, start: int, employee: nat, es: seq<Entry>, first: nat)
      requires Keyed(entries) && es == InOrder(Later(Current(entries, employee), start))
      requires kept == map id | id in was && !Rebuilt(was[id], employee, start) :: was[id]
      requires Holds(kept, first, Fold(None, es)) && forall id :: id in was ==> id < first
      ensures Unsettled(shifts, employee) == Untouched(Unsettled(was, employee), start) + AsSet(Fold(None, es))
    {
      hide InOrder, Fold;
      var fold := Fold(None, es);
      forall sh | sh in fold
        ensures sh.employee == employee && !Settled(sh.state)
      {
        FoldIsNew(entries, employee, start, es, sh);
      }
      forall sh
        ensures sh in Unsettled(shifts, employee) <==> sh in Untouched(Unsettled(was, employee), start) + AsSet(fold)
      {
        if sh in Unsettled(shifts, employee) {
          var id: nat :| id in shifts && shifts[id] == sh;
          if id >= first { assert shifts[id] == fold[id - first]; }
        }
        if sh in Untouched(Unsettled(was, employee), start) {
          var id: nat :| id in was && was[id] == sh;
          assert id in kept;
        }
        if sh in fold {
          var k :| 0 <= k < |fold| && fold[k] == sh;
          assert shifts[first + k] == sh;
        }
      }
    }

    lemma RepairRows(was: Shifts, kept: Shifts, start: int, employee: nat, es: seq<Entry>, first: nat)
      requires Keyed(entries) && es == InOrder(Later(Current(entries, employee), start))
      requires kept == map id | id in was && !Rebuilt(was[id], employee, start) :: was[id]
      requires Holds(kept, first, Fold(None, es)) && forall id :: id in was ==> id < first
      ensures Rows(shifts) == Untouchable(Rows(was), employee, start) + PairingFrom(entries, employee, start)
    {
      hide InOrder, Fold, Rebuilt;
      var fold := Fold(None, es);
      forall sh ensures sh in Rows(shifts) <==> sh in Untouchable(Rows(was), employee, start) + AsSet(fold) {
        if sh in Rows(shifts) {
          var id: nat :| id in shifts && shifts[id] == sh;
          if id >= first { assert shifts[id] == fold[id - first]; } else { assert kept[id] == was[id]; }
        }
        if sh in Untouchable(Rows(was), employee, start) {
          var id: nat :| id in was && was[id] == sh;
          assert id in kept && shifts[id] == sh;
        }
        if sh in fold {
          var k :| 0 <= k < |fold| && fold[k] == sh;
          assert shifts[first + k] == sh;
        }
      }
    }

    lemma RepairOthers(was: Shifts, kept: Shifts, start: int, employee: nat, es: seq<Entry>, first: nat)
      requires Keyed(entries) && es == InOrder(Later(Current(entries, employee), start))
      requires kept == map id | id in was && !Rebuilt(was[id], employee, start) :: was[id]
      requires Holds(kept, first, Fold(None, es)) && forall id :: id in was ==> id < first
      ensures forall other :: other != employee ==> Unsettled(shifts, other) == Unsettled(was, other)
    {
      hide InOrder, Fold;
      var fold := Fold(None, es);
      forall k | 0 <= k < |fold|
        ensures fold[k].employee == employee
      {
        FoldIsNew(entries, employee, start, es, fold[k]);
      }
      forall id | id in shifts && id >= first
        ensures shifts[id].employee == employee
      {
        assert shifts[id] == fold[id - first];
      }
      forall other, sh | other != employee ensures sh in Unsettled(shifts, other) <==> sh in Unsettled(was, other) {
        if sh in Unsettled(shifts, other) {
          var id: nat :| id in shifts && shifts[id] == sh && sh.employee == other;
        }
        if sh in Unsettled(was, other) {
          var id: nat :| id in was && was[id] == sh;
          assert id in kept;
        }
      }
    }

    // ----- new punches

    /** A punch becomes an entry, in its pay period if that is open. */
    method InsertEntry(uuid: Uuid, employee: nat, device: nat, p: Punch) returns (e: Entry)
      requires Tables()
      modifies this`entries, this`nextEntry
      ensures Tables() && e.id !in old(entries) && e.id != 0
      ensures e == NewEntry(old(Book()), uuid, employee, device, p) && Book() == WithEntry(old(Book()), e)
    {
      var period := if p.period in open && open[p.period] then p.period else 0;
      e := Entry(nextEntry, uuid, employee, device, p.kind, p.time, Recorded, period, p.payCode, 0);
      entries := entries[nextEntry := e];
      nextEntry := nextEntry + 1;
    }

    /** The punches of a batch that are not recorded yet and have a positive time; a repair is due from the earliest. */
    method Record(employee: nat, device: nat, batch: seq<Punch>) returns (earliest: int)
      requires Valid()
      modifies this`entries, this`nextEntry
      ensures Valid() && EntriesKept(old(entries), entries) && Book() == WithBatch(old(Book()), employee, device, batch)
      ensures earliest == BatchFrom(old(Book()), employee, device, batch) && (earliest == 0 ==> entries == old(entries))
      ensures SameBefore(old(entries), entries, employee, earliest) && OthersSame(old(entries), entries, employee)
    {
      hide AllClimbed, OneShift, LockedIn, SameBefore, ShiftOk, Grown, EntriesKept, OthersSame, KnownUuid;
      var i := 0;
      earliest := 0;
      GrownNone(entries, employee);
      while i < |batch|
        invariant i <= |batch| && Valid() && earliest >= 0
        invariant Book() == WithBatch(old(Book()), employee, device, batch[..i])
        invariant earliest == BatchFrom(old(Book()), employee, device, batch[..i])
        invariant (earliest == 0 ==> entries == old(entries)) && Grown(old(entries), entries, employee, earliest)
      {
        assert batch[..i + 1][..i] == batch[..i];
        if !KnownUuid(entries, Sent(batch[i].uuid)) && batch[i].time > 0 {
          ghost var was := entries;
          var e := InsertEntry(Sent(batch[i].uuid), employee, device, batch[i]);
          ShiftsStillOk(was, e);
          GrownMore(old(entries), was, employee, earliest, e);
          if earliest == 0 || e.time < earliest { earliest := e.time; }
        }
        i := i + 1;
      }
      assert batch[..i] == batch;
      GrownIs(old(entries), entries, employee, earliest);
    }

    lemma ShiftsStillOk(was: Entries, e: Entry)
      requires (forall id :: id in shifts ==> ShiftOk(was, shifts[id])) && e.id !in was && entries == was[e.id := e]
      ensures forall id :: id in shifts ==> ShiftOk(entries, shifts[id])
    {
      forall id | id in shifts ensures ShiftOk(entries, shifts[id]) { assert ShiftOk(was, shifts[id]); }
    }

    /** apply_batch: the punches of one device in journal order, then a repair from the earliest of them. */
    method Sync(employee: nat, device: nat, batch: seq<Punch>)
      requires Valid()
      modifies this`entries, this`nextEntry, this`shifts, this`nextShift
      ensures Valid() && EntriesKept(old(entries), entries) && SettledKept(old(shifts), shifts)
      ensures Book() == WithBatch(old(Book()), employee, device, batch)
      ensures Rows(shifts) == RowsAfter(old(Book()), Rows(old(shifts)), Command.Sync(employee, device, batch))
      ensures forall anyone :: Paired(old(entries), old(shifts), anyone) ==> Paired(entries, shifts, anyone)
    {
      hide Fold, InOrder, Paired, AllClimbed, OneShift, LockedIn, Current, Unsettled, SameBefore, ShiftOk, EntriesKept;
      hide Rows, Rebuild, OthersSame;
      var earliest := Record(employee, device, batch);
      if earliest != 0 {
        RepairPairing(employee, earliest, old(entries));
        OthersPaired(old(entries), old(shifts), entries, shifts, employee);
      }
    }

    /** Only shifts that a repair will rebuild began or ended with the entry. */
    method Supersede(id: nat, successor: nat, ghost from: int)
      requires Valid() && id in entries && entries[id].time >= from && !Settled(entries[id].state) && successor != 0
      modifies this`entries
      ensures Tables() && entries == old(entries)[id := old(entries)[id].(supersededBy := successor)]
      ensures forall x :: x in shifts && !Rebuilt(shifts[x], entries[id].employee, from) ==> ShiftOk(entries, shifts[x])
    {
      entries := entries[id := entries[id].(supersededBy := successor)];
    }

    /** The new entry, and the one it corrects if any; a repair is due from the earlier of the two. */
    method Enter(employee: nat, device: nat, p: Punch, correctionOf: nat, ghost allowed: bool) returns (from: int)
      requires Valid() && ManualOk(Book(), employee, p, correctionOf, allowed)
      modifies this`entries, this`nextEntry
      ensures Tables() && EntriesKept(old(entries), entries)
      ensures Book() == WithManual(old(Book()), employee, device, p, correctionOf, allowed)
      ensures forall id :: id in shifts && !Rebuilt(shifts[id], employee, from) ==> ShiftOk(entries, shifts[id])
      ensures from == ManualFrom(old(Book()), p, correctionOf)
      ensures SameBefore(old(entries), entries, employee, from) && OthersSame(old(entries), entries, employee)
    {
      hide AllClimbed, OneShift, LockedIn, SameBefore;
      from := p.time;
      var at := if correctionOf == 0 then device else entries[correctionOf].device;
      var e := InsertEntry(Derived(nextEntry), employee, at, p);
      if correctionOf != 0 {
        if entries[correctionOf].time < from { from := entries[correctionOf].time; }
        Supersede(correctionOf, e.id, from);
      }
      SameEarlier(old(entries), entries, employee, from);
    }

    /** record_manual_entry: a missing punch, or the correction of one that is not settled, on the device of that
        one. Whether the request itself is in order (reason, edit class and code, employee, device, pay code, hold)
        is decided elsewhere. */
    method Manual(employee: nat, device: nat, p: Punch, correctionOf: nat, allowed: bool) returns (s: Status)
      requires Valid()
      modifies this`entries, this`nextEntry, this`shifts, this`nextShift
      ensures Valid() && EntriesKept(old(entries), entries) && SettledKept(old(shifts), shifts)
      ensures s == Ok <==> ManualOk(old(Book()), employee, p, correctionOf, allowed)
      ensures Book() == WithManual(old(Book()), employee, device, p, correctionOf, allowed)
      ensures Rows(shifts)
              == RowsAfter(old(Book()), Rows(old(shifts)), Command.Manual(employee, device, p, correctionOf, allowed))
      ensures s != Ok ==> shifts == old(shifts)
      ensures forall anyone :: Paired(old(entries), old(shifts), anyone) ==> Paired(entries, shifts, anyone)
    {
      hide Fold, InOrder, Paired, AllClimbed, OneShift, LockedIn, Current, Unsettled, SameBefore, ShiftOk, EntriesKept;
      hide Rows, Rebuild, OthersSame;
      KeptRefl(entries, shifts);
      if !allowed || p.time <= 0 { return Invalid; }
      if correctionOf != 0 {
        if correctionOf !in entries || entries[correctionOf].employee != employee { return Invalid; }
        var original := entries[correctionOf];
        if original.supersededBy != 0 || Settled(original.state) { return Invalid; }
      }
      if p.period in open && !open[p.period] { return Invalid; }
      var from := Enter(employee, device, p, correctionOf, allowed);
      RepairPairing(employee, from, old(entries));
      OthersPaired(old(entries), old(shifts), entries, shifts, employee);
      s := Ok;
    }

    // ----- the ladder

    /** transition: the employee's live entries of the period, and the shifts that begin with them, go up one rung.
        Who may do so, and whether the timesheet is held, is decided elsewhere. */
    method Transition(period: nat, employee: nat, to: State, allowed: bool, held: bool) returns (s: Status)
      requires Valid()
      modifies this`entries, this`shifts, this`approvals
      ensures Valid() && EntriesKept(old(entries), entries) && SettledKept(old(shifts), shifts)
      ensures s == Ok <==> TransitionOk(old(Book()), period, employee, to, allowed, held)
      ensures Book() == WithTransition(old(Book()), period, employee, to, allowed, held)
      ensures shifts == if s == Ok then RaisedShifts(old(shifts), period, Some(employee), Predecessor(to).value, to)
              else old(shifts)
      ensures Rows(shifts)
              == RowsAfter(old(Book()), Rows(old(shifts)), Command.Transition(period, employee, to, allowed, held))
    {
      hide Raised, RaisedShifts, AllClimbed, LockedIn, OneShift, ShiftOk, EntriesKept, SettledKept, Keyed, Rows;
      hide RaisedRows;
      KeptRefl(entries, shifts);
      var before := Predecessor(to);
      if before.None? || to == Locked { return Invalid; }
      var from := before.value;
      if period !in open { return Invalid; }
      if !open[period] || !allowed || (to == Released && held) { return Invalid; }
      if !AtLeast(entries, period, employee, Rank(from)) { return Invalid; }
      if !SomeAt(entries, period, employee, Rank(from)) { return Invalid; }
      RaisedTables(entries, shifts, approvals, period, Some(employee), from, to,
                   approvals + {Approval(period, employee, from, to)});
      RaisedStaysLocked(entries, open, period, Some(employee), from, to);
      RowsRaised(shifts, period, Some(employee), from, to);
      entries := Raised(entries, period, Some(employee), from, to);
      shifts := RaisedShifts(shifts, period, Some(employee), from, to);
      approvals := approvals + {Approval(period, employee, from, to)};
      s := Ok;
    }

    /** lock_period: every live entry of the period must be released; they and their shifts are locked, with an
        approval row for every employee. */
    method Lock(period: nat, allowed: bool) returns (s: Status)
      requires Valid()
      modifies this`entries, this`shifts, this`approvals, this`open
      ensures Valid() && EntriesKept(old(entries), entries) && SettledKept(old(shifts), shifts)
      ensures s == Ok <==> LockOk(old(Book()), period, allowed)
      ensures Book() == WithLock(old(Book()), period, allowed)
      ensures shifts == if s == Ok then RaisedShifts(old(shifts), period, None, Released, Locked) else old(shifts)
      ensures Rows(shifts) == RowsAfter(old(Book()), Rows(old(shifts)), Command.Lock(period, allowed))
    {
      hide Raised, RaisedShifts, AllClimbed, LockedIn, OneShift, ShiftOk, EntriesKept, SettledKept, Keyed, AllReleased;
      hide Rows, RaisedRows;
      KeptRefl(entries, shifts);
      if period !in open || !open[period] || !allowed { return Invalid; }
      if !AllReleased(entries, period) { return Invalid; }
      var rows := approvals + LockRows(entries, period);
      RaisedTables(entries, shifts, approvals, period, None, Released, Locked, rows);
      RaisedIsLocked(entries, open, period);
      RowsRaised(shifts, period, None, Released, Locked);
      entries := Raised(entries, period, None, Released, Locked);
      shifts := RaisedShifts(shifts, period, None, Released, Locked);
      approvals := rows;
      open := open[period := false];
      s := Ok;
    }

    method Do(c: Command)
      requires Valid()
      modifies this
      ensures Valid() && Book() == Effect(old(Book()), c)
      ensures Rows(shifts) == RowsAfter(old(Book()), Rows(old(shifts)), c)
      ensures EntriesKept(old(entries), entries) && SettledKept(old(shifts), shifts)
      ensures forall p :: p in old(open) ==> p in open && (!old(open)[p] ==> !open[p])
      ensures forall anyone :: Paired(old(entries), old(shifts), anyone) ==>
                (Paired(entries, shifts, anyone) <==> Spares(old(Book()), c, anyone))
    {
      hide Valid, EntriesKept, SettledKept, Paired, Raised, RaisedShifts, WithBatch, WithManual, AtLeast, SomeAt;
      hide AllReleased, LockRows, ManualOk;
      hide RowsAfter, Rows, Survives;
      var s;
      match c {
        case Sync(employee, device, batch) => Sync(employee, device, batch);
        case Manual(employee, device, punch, original, allowed) =>
          s := Manual(employee, device, punch, original, allowed);
        case Transition(period, employee, to, allowed, held) =>
          if Approves(c) && TransitionOk(Book(), period, employee, to, allowed, held) { Spared(c); }
          s := Transition(period, employee, to, allowed, held);
          if s == Ok && to != Approved {
            RaisedPaired(old(entries), old(shifts), period, Some(employee), Predecessor(to).value, to);
          }
        case Lock(period, allowed) =>
          s := Lock(period, allowed);
          if s == Ok { RaisedPaired(old(entries), old(shifts), period, None, Released, Locked); }
      }
    }

    lemma Spared(c: Command)
      requires Valid() && Approves(c) && TransitionOk(Book(), c.period, c.employee, c.to, c.allowed, c.held)
      ensures var entries' := Raised(entries, c.period, Some(c.employee), Submitted, Approved);
              var shifts' := RaisedShifts(shifts, c.period, Some(c.employee), Submitted, Approved);
              forall anyone :: Paired(entries, shifts, anyone) ==>
                (Paired(entries', shifts', anyone) <==> Spares(Book(), c, anyone))
    {
      hide Paired, Raised, RaisedShifts, Survives;
      if Paired(entries, shifts, c.employee) { ApprovalPaired(entries, shifts, c.period, c.employee); }
      ApprovalSpares(entries, shifts, c.period, c.employee);
    }

    /** In a locked period nothing is left below: neither a live entry nor a shift. */
    lemma LockedForGood(period: nat)
      requires Valid() && period in open && !open[period]
      ensures forall id :: id in entries && entries[id].period == period && entries[id].supersededBy == 0 ==>
                entries[id].state == Locked
      ensures forall id :: id in shifts && shifts[id].period == period ==> shifts[id].state == Locked
    {
      forall id | id in shifts && shifts[id].period == period ensures shifts[id].state == Locked {
        assert ShiftOk(entries, shifts[id]);
      }
    }
  }

  /** Changes at or after `from` leave the earlier punches alone. */
  lemma SameEarlier(entries: Entries, entries': Entries, employee: nat, from: int)
    requires forall id :: id in entries ==> id in entries' && entries'[id].time == entries[id].time
    requires forall id :: id in entries' && entries'[id].time < from ==> id in entries && entries'[id] == entries[id]
    ensures SameBefore(entries, entries', employee, from)
  {
  }

  ghost predicate NewShift(entries: Entries, sh: Shift, employee: nat, start: int) {
    sh.inEntry in entries && sh.employee == employee && !Settled(sh.state) && sh.inTime >= start
  }

  lemma FoldsFrom(es: seq<Entry>, until: int, sh: Shift)
    requires (forall i :: 0 <= i < |es| ==> es[i].time < until) && sh in Fold(None, es)
    ensures FromSome(sh, None, es)
  {
    FoldFrom(None, es, until);
  }

  lemma FoldIsNew(entries: Entries, employee: nat, start: int, es: seq<Entry>, sh: Shift)
    requires Keyed(entries) && OneId(Later(Current(entries, employee), start))
    requires es == InOrder(Later(Current(entries, employee), start))
    requires sh in Fold(None, es)
    ensures ShiftOk(entries, sh) && NewShift(entries, sh, employee, start)
  {
    hide InOrder, Fold;
    var until := AllBefore(es);
    FoldsFrom(es, until, sh);
    assert FromSome(sh, None, es);
    var i :| 0 <= i < |es| && From(sh, es[i]);
    assert es[i] in Current(entries, employee);
  }

  lemma KeptIsNotNew(entries: Entries, kept: Shift, sh: Shift, employee: nat, start: int)
    requires ShiftOk(entries, kept) && !Rebuilt(kept, employee, start) && ShiftOk(entries, sh)
    requires NewShift(entries, sh, employee, start)
    ensures kept.inEntry != sh.inEntry
  {
  }

  lemma FoldOneMore(es: seq<Entry>, i: nat)
    requires i < |es|
    ensures OpenAfter(None, es[..i + 1]) == OpenNext(OpenAfter(None, es[..i]), es[i])
    ensures StoredBy(None, es[..i + 1]) == StoredBy(None, es[..i]) + Stored(OpenAfter(None, es[..i]), es[i])
  {
    FoldConcat(None, es[..i], [es[i]]);
    assert es[..i + 1] == es[..i] + [es[i]];
    var open := OpenAfter(None, es[..i]);
    assert [es[i]][1..] == [];
    assert StoredBy(open, [es[i]]) == Stored(open, es[i]) + [];
    assert OpenAfter(open, [es[i]]) == OpenNext(open, es[i]);
  }

  // ----- going up a rung and the pairing

  /** One rung for one scope. */
  datatype Rise = Rise(period: nat, who: Option<nat>, from: State, to: State)
  {
    function Up(e: Entry): Entry { RaisedEntry(e, period, who, from, to) }

    function UpShift(sh: Shift): Shift { RaisedShift(sh, period, who, from, to) }

    lemma Same(e: Entry)
      ensures var x := Up(e);
              x.id == e.id && x.time == e.time && x.kind == e.kind && x.employee == e.employee && x.device == e.device
      ensures Up(e).supersededBy == e.supersededBy && Up(e).payCode == e.payCode && Up(e).period == e.period
      ensures Settled(from) == Settled(to) ==> Settled(Up(e).state) == Settled(e.state)
    {
    }

    ghost function UpSet(s: set<Entry>): set<Entry> { set e | e in s :: Up(e) }

    function UpSeq(es: seq<Entry>): (r: seq<Entry>)
      ensures |r| == |es| && forall i :: 0 <= i < |es| ==> r[i] == Up(es[i])
    {
      seq(|es|, i requires 0 <= i < |es| => Up(es[i]))
    }

    function UpShifts(shs: seq<Shift>): (r: seq<Shift>)
      ensures |r| == |shs| && forall i :: 0 <= i < |shs| ==> r[i] == UpShift(shs[i])
    {
      seq(|shs|, i requires 0 <= i < |shs| => UpShift(shs[i]))
    }

    ghost function UpShiftSet(shs: set<Shift>): set<Shift> { set sh | sh in shs :: UpShift(sh) }

    function UpOpen(open: Option<Shift>): Option<Shift> { if open.Some? then Some(UpShift(open.value)) else None }

    lemma FirstUp(s: set<Entry>, m: Entry)
      requires OneId(s) && First(s, m)
      ensures OneId(UpSet(s)) && First(UpSet(s), Up(m)) && UpSet(s) - {Up(m)} == UpSet(s - {m})
    {
      hide Up;
      forall e | e in s ensures Up(e).id == e.id && Up(e).time == e.time { Same(e); }
      forall x | x in UpSet(s) - {Up(m)} ensures x in UpSet(s - {m}) {
        var e :| e in s && x == Up(e);
        assert e in s - {m};
      }
      forall x | x in UpSet(s - {m}) ensures x in UpSet(s) - {Up(m)} {
        var e :| e in s - {m} && x == Up(e);
      }
    }

    /** The rung plays no part in the order of punches. */
    lemma {:induction false} InOrderUp(s: set<Entry>)
      requires OneId(s)
      ensures OneId(UpSet(s)) && InOrder(UpSet(s)) == UpSeq(InOrder(s))
      decreases s
    {
      hide Up, OneId, First, UpSet;
      if s == {} {
        NoneUp();
      } else {
        var m := FirstExists(s);
        FirstIn(s, m);
        OneIdWithout(s, m);
        InOrderUp(s - {m});
        FirstUp(s, m);
        InOrderFirst(s, m);
        InOrderFirst(UpSet(s), Up(m));
        assert UpSeq([m] + InOrder(s - {m})) == [Up(m)] + UpSeq(InOrder(s - {m}));
      }
    }

    lemma NoneUp()
      ensures UpSet({}) == {} && OneId(UpSet({}))
    {
    }

    lemma Step(open: Option<Shift>, e: Entry)
      requires e.supersededBy == 0
      ensures OpenNext(UpOpen(open), Up(e)) == UpOpen(OpenNext(open, e))
      ensures Stored(UpOpen(open), Up(e)) == UpShifts(Stored(open, e))
    {
      Opens(e);
      if open.Some? { Closes(open.value, e); }
    }

    lemma Opens(e: Entry)
      requires e.supersededBy == 0
      ensures OpenedBy(Up(e)) == UpShift(OpenedBy(e))
    {
    }

    lemma Closes(open: Shift, e: Entry)
      ensures PairsOut(UpShift(open), Up(e)) == PairsOut(open, e)
      ensures ClosedBy(UpShift(open), Up(e)) == UpShift(ClosedBy(open, e))
      ensures UpShift(open).device == open.device
    {
    }

    /** Nor in the pairing: a shift rises exactly with the punch it begins with. */
    lemma {:induction false} FoldUp(open: Option<Shift>, es: seq<Entry>)
      requires forall i :: 0 <= i < |es| ==> es[i].supersededBy == 0
      ensures Fold(UpOpen(open), UpSeq(es)) == UpShifts(Fold(open, es))
      decreases |es|
    {
      hide Up, UpShift, OpenNext, Stored, Fold;
      if es == [] {
        FoldNone(open);
        FoldNone(UpOpen(open));
        assert UpSeq(es) == [];
      } else {
        var next := OpenNext(open, es[0]);
        assert UpSeq(es)[1..] == UpSeq(es[1..]);
        FoldUp(next, es[1..]);
        Step(open, es[0]);
        FoldStep(open, es);
        FoldStep(UpOpen(open), UpSeq(es));
        assert UpShifts(Stored(open, es[0]) + Fold(next, es[1..])) == UpShifts(Stored(open, es[0]))
          + UpShifts(Fold(next, es[1..]));
      }
    }

    lemma AsSetUp(shs: seq<Shift>)
      ensures AsSet(UpShifts(shs)) == UpShiftSet(AsSet(shs))
    {
      hide UpShift;
      forall x | x in UpShiftSet(AsSet(shs)) ensures x in AsSet(UpShifts(shs)) {
        var sh :| sh in shs && x == UpShift(sh);
        var i :| 0 <= i < |shs| && shs[i] == sh;
        assert UpShifts(shs)[i] == x;
      }
    }

    lemma CurrentUp(entries: Entries, employee: nat)
      requires Keyed(entries) && Settled(from) == Settled(to)
      ensures Keyed(Raised(entries, period, who, from, to))
      ensures Current(Raised(entries, period, who, from, to), employee) == UpSet(Current(entries, employee))
    {
      var entries' := Raised(entries, period, who, from, to);
      forall id | id in entries ensures entries'[id] == Up(entries[id]) && entries'[id].id == id { Same(entries[id]); }
      hide Up, Raised, Settled;
      forall id | id in entries
        ensures entries[id] in Current(entries, employee) <==> entries'[id] in Current(entries', employee)
      {
        Same(entries[id]);
      }
    }

    lemma UnsettledUp(shifts: Shifts, employee: nat)
      requires Settled(from) == Settled(to)
      ensures Unsettled(RaisedShifts(shifts, period, who, from, to), employee)
              == UpShiftSet(Unsettled(shifts, employee))
    {
      var shifts' := RaisedShifts(shifts, period, who, from, to);
      forall id | id in shifts
        ensures shifts'[id] == UpShift(shifts[id]) && shifts'[id].employee == shifts[id].employee
                && Settled(shifts'[id].state) == Settled(shifts[id].state)
      {
      }
      hide UpShift, RaisedShifts, Settled;
      forall x | x in UpShiftSet(Unsettled(shifts, employee)) ensures x in Unsettled(shifts', employee) {
        var sh :| sh in Unsettled(shifts, employee) && x == UpShift(sh);
        var id: nat :| id in shifts && shifts[id] == sh && sh.employee == employee && !Settled(sh.state);
        assert shifts'[id] == x;
      }
    }
  }

  lemma FirstIn(s: set<Entry>, m: Entry)
    requires First(s, m)
    ensures m in s
  {
  }

  lemma FoldNone(open: Option<Shift>)
    ensures Fold(open, []) == if open.Some? then [open.value] else []
  {
  }

  /** Going up a rung, other than to the one that settles, keeps every pairing. */
  lemma RaisedPaired(entries: Entries, shifts: Shifts, period: nat, who: Option<nat>, from: State, to: State)
    requires Settled(from) == Settled(to)
    ensures forall anyone :: Paired(entries, shifts, anyone) ==>
      Paired(Raised(entries, period, who, from, to), RaisedShifts(shifts, period, who, from, to), anyone)
  {
    hide InOrder, Fold, Current, Unsettled, Raised, RaisedShifts, AsSet, Rise.UpSet, Rise.UpShiftSet, OneId, Keyed;
    var rise := Rise(period, who, from, to);
    forall anyone | Paired(entries, shifts, anyone)
      ensures Paired(Raised(entries, period, who, from, to), RaisedShifts(shifts, period, who, from, to), anyone)
    {
      var c := Current(entries, anyone);
      CurrentOneId(entries, anyone);
      rise.CurrentUp(entries, anyone);
      rise.UnsettledUp(shifts, anyone);
      rise.InOrderUp(c);
      CurrentLive(entries, anyone);
      rise.FoldUp(None, InOrder(c));
      rise.AsSetUp(Fold(None, InOrder(c)));
    }
  }

  /** The unsettled punches once those of the period are approved. */
  lemma CurrentApproved(entries: Entries, period: nat, employee: nat)
    requires Keyed(entries) && AtLeast(entries, period, employee, Rank(Submitted))
    ensures Keyed(Raised(entries, period, Some(employee), Submitted, Approved))
    ensures Current(Raised(entries, period, Some(employee), Submitted, Approved), employee)
         == set e | e in Current(entries, employee) && e.period != period
  {
    var entries' := Raised(entries, period, Some(employee), Submitted, Approved);
    forall id | id in entries
      ensures entries'[id] in Current(entries', employee) <==>
                entries[id] in Current(entries, employee) && entries[id].period != period
      ensures entries'[id] in Current(entries', employee) ==> entries'[id] == entries[id]
    {
      assert entries[id] in Current(entries, employee) || entries[id] !in Current(entries, employee);
    }
  }

  lemma UnsettledApproved(entries: Entries, shifts: Shifts, period: nat, employee: nat)
    requires Keyed(entries) && AtLeast(entries, period, employee, Rank(Submitted))
    requires forall id :: id in shifts ==> ShiftOk(entries, shifts[id])
    ensures Unsettled(RaisedShifts(shifts, period, Some(employee), Submitted, Approved), employee)
         == OfOthers(Unsettled(shifts, employee), period)
  {
    var shifts' := RaisedShifts(shifts, period, Some(employee), Submitted, Approved);
    forall id | id in shifts && shifts[id].employee == employee && !Settled(shifts[id].state)
      ensures Settled(shifts'[id].state) <==> shifts[id].period == period
      ensures !Settled(shifts'[id].state) ==> shifts'[id] == shifts[id]
    {
      assert ShiftOk(entries, shifts[id]);
    }
  }

  lemma {:induction false} InOrderWithout(s: set<Entry>, period: nat)
    requires OneId(s)
    ensures OneId(set e | e in s && e.period != period)
    ensures InOrder(set e | e in s && e.period != period) == Without(InOrder(s), period)
    decreases s
  {
    hide InOrder, Without;
    var left := set e | e in s && e.period != period;
    if s == {} {
      assert left == {};
      NoneInOrder();
      NoneWithout(period);
    } else {
      var m := FirstExists(s);
      OneIdWithout(s, m);
      InOrderWithout(s - {m}, period);
      InOrderFirst(s, m);
      WithoutCons(m, InOrder(s - {m}), period);
      var left' := set e | e in s - {m} && e.period != period;
      if m.period != period {
        assert left - {m} == left';
        InOrderFirst(left, m);
      } else {
        assert left == left';
        assert [] + InOrder(left') == InOrder(left');
      }
    }
  }

  lemma NoneWithout(period: nat)
    ensures Without([], period) == []
  {
  }

  lemma CurrentIds(entries: Entries, employee: nat, es: seq<Entry>)
    requires Keyed(entries) && 0 !in entries && forall e :: e in es ==> e in Current(entries, employee)
    ensures forall i :: 0 <= i < |es| ==> es[i].id != 0
  {
    forall i | 0 <= i < |es| ensures es[i].id != 0 { assert es[i] in es; }
  }

  /** Approving a period keeps the employee's pairing if and only if the punches of the other periods survive it. */
  lemma ApprovalPaired(entries: Entries, shifts: Shifts, period: nat, employee: nat)
    requires Paired(entries, shifts, employee) && AtLeast(entries, period, employee, Rank(Submitted))
    requires (forall id :: id in shifts ==> ShiftOk(entries, shifts[id])) && 0 !in entries
    ensures var entries' := Raised(entries, period, Some(employee), Submitted, Approved);
            var shifts' := RaisedShifts(shifts, period, Some(employee), Submitted, Approved);
            Paired(entries', shifts', employee) <==> Survives(InOrder(Current(entries, employee)), period)
  {
    hide Fold, InOrder, OneId, Raised, RaisedShifts, ShiftOk, Begun, Without, Survives, OfOthers, Unsettled, AsSet;
    var c := Current(entries, employee);
    CurrentOneId(entries, employee);
    var es := InOrder(c);
    InOrderDistinct(c);
    CurrentIds(entries, employee, es);
    CurrentApproved(entries, period, employee);
    UnsettledApproved(entries, shifts, period, employee);
    InOrderWithout(c, period);
    FoldAll(es);
    FoldAll(Without(es, period));
    SurvivesExactly(es, period);
  }

  /** Everyone else's it keeps. */
  lemma ApprovalSpares(entries: Entries, shifts: Shifts, period: nat, employee: nat)
    requires Keyed(entries)
    ensures forall other :: other != employee && Paired(entries, shifts, other) ==>
      Paired(Raised(entries, period, Some(employee), Submitted, Approved),
             RaisedShifts(shifts, period, Some(employee), Submitted, Approved), other)
  {
    hide Paired, Unsettled;
    var shifts' := RaisedShifts(shifts, period, Some(employee), Submitted, Approved);
    forall other | other != employee ensures Unsettled(shifts', other) == Unsettled(shifts, other) {
      OthersUnsettled(shifts, period, employee, other);
    }
    OthersPaired(entries, shifts, Raised(entries, period, Some(employee), Submitted, Approved), shifts', employee);
  }

  lemma OthersUnsettled(shifts: Shifts, period: nat, employee: nat, other: nat)
    requires other != employee
    ensures Unsettled(RaisedShifts(shifts, period, Some(employee), Submitted, Approved), other)
            == Unsettled(shifts, other)
  {
    var shifts' := RaisedShifts(shifts, period, Some(employee), Submitted, Approved);
    forall id | id in shifts ensures shifts'[id].employee == shifts[id].employee
                                     && (shifts[id].employee == other ==> shifts'[id] == shifts[id]) {}
  }

  /** A shift over the end of a period survives the approval of the period it begins in, and not that of the one it
      ends in. */
  lemma NightShift(a: Entry, b: Entry)
    requires a.kind == In && PairsOut(OpenedBy(a), b) && a.period != b.period
    ensures Survives([a, b], a.period) && !Survives([a, b], b.period)
  {
    assert [a, b][1..] == [b] && [b][1..] == [];
    assert Without([b], b.period) == [];
  }

  const EVENING: Punch := Punch(1, In, 10, "", 1)
  const MORNING: Punch := Punch(2, Out, 20, "", 2)
  const IN_1: Entry := Entry(1, Sent(1), 1, 1, In, 10, Recorded, 1, "", 0)
  const OUT_2: Entry := Entry(2, Sent(2), 1, 1, Out, 20, Recorded, 2, "", 0)

  ghost function Night(out: State, approvals: set<Approval>): Books {
    Books(map[1 := IN_1, 2 := OUT_2.(state := out)], 3, approvals, map[1 := true, 2 := true])
  }

  ghost function NightRows(): set<Shift> { {ClosedBy(OpenedBy(IN_1), OUT_2)} }

  lemma NightSynced()
    ensures var b := Books(map[], 1, {}, map[1 := true, 2 := true]);
            && WithBatch(b, 1, 1, [EVENING, MORNING]) == Night(Recorded, {})
            && BatchFrom(b, 1, 1, [EVENING, MORNING]) == 10
  {
    var b := Books(map[], 1, {}, map[1 := true, 2 := true]);
    var b1 := WithEntry(b, IN_1);
    assert [EVENING, MORNING][..1] == [EVENING] && [EVENING][..0] == [];
    assert WithBatch(b, 1, 1, []) == b;
    assert WithBatch(b, 1, 1, [EVENING]) == b1 && BatchFrom(b, 1, 1, [EVENING]) == 10;
    assert !KnownUuid(b1.entries, Sent(2));
    assert WithEntry(b1, OUT_2).entries == Night(Recorded, {}).entries;
  }

  lemma NightPaired()
    ensures Rebuild({}, 1, 10, Night(Recorded, {}).entries) == NightRows()
  {
    hide InOrder, Fold, StartOf, Current;
    var entries := Night(Recorded, {}).entries;
    var start := StartOf({}, 1, 10);
    assert Closed({}, 1, 10) && start == 10;
    NightCurrent(Recorded);
    assert Later({IN_1, OUT_2}, 10) == {IN_1, OUT_2};
    TwoInOrder(IN_1, OUT_2);
    FoldOfTwo(IN_1, OUT_2);
  }

  lemma NightCurrent(out: State)
    ensures Keyed(Night(out, {}).entries)
    ensures Current(Night(out, {}).entries, 1) == if Settled(out) then {IN_1} else {IN_1, OUT_2.(state := out)}
  {
    var entries := Night(out, {}).entries;
    assert entries[1] == IN_1 && entries[2] == OUT_2.(state := out);
  }

  lemma NightRaised(from: State, to: State, approvals: set<Approval>)
    requires to == Submitted || to == Approved
    requires Predecessor(to) == Some(from)
    ensures TransitionOk(Night(from, approvals), 2, 1, to, true, false)
    ensures WithTransition(Night(from, approvals), 2, 1, to, true, false)
            == Night(to, approvals + {Approval(2, 1, from, to)})
    ensures RaisedRows(NightRows(), 2, Some(1), from, to) == NightRows()
  {
    var entries := Night(from, approvals).entries;
    assert entries[2] == OUT_2.(state := from);
    assert Raised(entries, 2, Some(1), from, to) == Night(to, approvals).entries;
    assert RaisedShift(ClosedBy(OpenedBy(IN_1), OUT_2), 2, Some(1), from, to) == ClosedBy(OpenedBy(IN_1), OUT_2);
  }

  lemma NightOpen(shifts: Shifts)
    requires Rows(shifts) == NightRows()
    ensures PairingFrom(Night(Approved, {}).entries, 1, 0) == {OpenedBy(IN_1)}
    ensures !Paired(Night(Approved, {}).entries, shifts, 1)
  {
    hide InOrder, Fold, Current;
    NightCurrent(Approved);
    assert Later({IN_1}, 0) == {IN_1};
    OneInOrder(IN_1);
    FoldOfOne(IN_1);
    assert ClosedBy(OpenedBy(IN_1), OUT_2) in Rows(shifts);
    var id: nat :| id in shifts && shifts[id] == ClosedBy(OpenedBy(IN_1), OUT_2);
    assert shifts[id] in Unsettled(shifts, 1);
  }

  /** So approving the later period first leaves a shift that is still ended by its out punch, though the pairing of the
      punches that are left has it open. */
  method ApprovalCanUnpair() returns (ledger: Ledger)
    ensures ledger.Valid() && ledger.entries == map[1 := IN_1, 2 := OUT_2.(state := Approved)]
    ensures Rows(ledger.shifts) == {ClosedBy(OpenedBy(IN_1), OUT_2)}
    ensures PairingFrom(ledger.entries, 1, 0) == {OpenedBy(IN_1)}
    ensures !Paired(ledger.entries, ledger.shifts, 1)
  {
    hide Ledger.Valid, WithBatch, BatchFrom, WithTransition, TransitionOk, RaisedRows, Rebuild, Paired, PairingFrom;
    hide Raised, RaisedShifts;
    ledger := new Ledger({1, 2});
    assert Rows(ledger.shifts) == {};
    assert AllOpen({1, 2}) == map[1 := true, 2 := true];
    NightSynced();
    NightPaired();
    ledger.Sync(1, 1, [EVENING, MORNING]);
    NightRaised(Recorded, Submitted, {});
    var s := ledger.Transition(2, 1, Submitted, true, false);
    assert ledger.Book() == Night(Submitted, {} + {Approval(2, 1, Recorded, Submitted)});
    NightRaised(Submitted, Approved, {} + {Approval(2, 1, Recorded, Submitted)});
    s := ledger.Transition(2, 1, Approved, true, false);
    NightOpen(ledger.shifts);
  }

  lemma FoldOfOne(a: Entry)
    requires a.kind == In
    ensures AsSet(Fold(None, [a])) == {OpenedBy(a)}
  {
    FoldStep(None, [a]);
    FoldNone(Some(OpenedBy(a)));
    assert [a][1..] == [];
    assert Fold(None, [a]) == [OpenedBy(a)];
  }

  lemma FoldOfTwo(a: Entry, c: Entry)
    requires a.kind == In && PairsOut(OpenedBy(a), c)
    ensures AsSet(Fold(None, [a, c])) == {ClosedBy(OpenedBy(a), c)}
  {
    FoldStep(None, [a, c]);
    FoldStep(Some(OpenedBy(a)), [c]);
    FoldNone(None);
    assert [c][1..] == [] && [a, c][1..] == [c];
    assert Fold(None, [a, c]) == [ClosedBy(OpenedBy(a), c)];
  }

  lemma OneInOrder(a: Entry)
    ensures OneId({a}) && InOrder({a}) == [a]
  {
    InOrderFirst({a}, a);
    assert {a} - {a} == {};
  }

  lemma TwoInOrder(a: Entry, b: Entry)
    requires Before(a, b) && a.id != b.id
    ensures OneId({a, b}) && InOrder({a, b}) == [a, b]
  {
    InOrderFirst({a, b}, a);
    assert {a, b} - {a} == {b};
    OneInOrder(b);
  }

  lemma CurrentLive(entries: Entries, employee: nat)
    requires Keyed(entries)
    ensures OneId(Current(entries, employee))
    ensures var es := InOrder(Current(entries, employee)); forall i :: 0 <= i < |es| ==> es[i].supersededBy == 0
  {
    hide InOrder;
    var es := InOrder(Current(entries, employee));
    forall i | 0 <= i < |es| ensures es[i].supersededBy == 0 { assert es[i] in Current(entries, employee); }
  }

  // ----- replayed batches

  ghost predicate IdsBelow(b: Books) { forall id :: id in b.entries ==> id < b.nextEntry }

  /** Every punch of a batch with a positive time is recorded by the end of it. */
  lemma {:induction false} BatchRecorded(b: Books, employee: nat, device: nat, batch: seq<Punch>)
    requires IdsBelow(b)
    ensures var b' := WithBatch(b, employee, device, batch);
            && IdsBelow(b')
            && (forall uuid :: KnownUuid(b.entries, uuid) ==> KnownUuid(b'.entries, uuid))
            && forall i :: 0 <= i < |batch| && batch[i].time > 0 ==> KnownUuid(b'.entries, Sent(batch[i].uuid))
    decreases |batch|
  {
    if batch != [] {
      var n := |batch| - 1;
      var b1 := WithBatch(b, employee, device, batch[..n]);
      BatchRecorded(b, employee, device, batch[..n]);
      PunchRecorded(b1, employee, device, batch[n]);
      forall i | 0 <= i < n && batch[i].time > 0 ensures KnownUuid(b1.entries, Sent(batch[i].uuid)) {
        assert batch[..n][i] == batch[i];
      }
    }
  }

  lemma PunchRecorded(b: Books, employee: nat, device: nat, p: Punch)
    requires IdsBelow(b)
    ensures var b' := WithPunch(b, employee, device, p);
            && IdsBelow(b')
            && (forall uuid :: KnownUuid(b.entries, uuid) ==> KnownUuid(b'.entries, uuid))
            && (p.time > 0 ==> KnownUuid(b'.entries, Sent(p.uuid)))
  {
    var b' := WithPunch(b, employee, device, p);
    forall uuid | KnownUuid(b.entries, uuid) ensures KnownUuid(b'.entries, uuid) {
      var id :| id in b.entries && b.entries[id].uuid == uuid;
      assert b'.entries[id].uuid == uuid;
    }
    if b' != b { assert b'.entries[b.nextEntry].uuid == Sent(p.uuid); }
  }

  /** A batch sent again, whole or in part, after an outage changes nothing. */
  lemma {:induction false} ReplayChangesNothing(b: Books, employee: nat, device: nat, batch: seq<Punch>)
    requires forall i :: 0 <= i < |batch| && batch[i].time > 0 ==> KnownUuid(b.entries, Sent(batch[i].uuid))
    ensures WithBatch(b, employee, device, batch) == b
    decreases |batch|
  {
    if batch != [] { ReplayChangesNothing(b, employee, device, batch[..|batch| - 1]); }
  }

  lemma SyncedTwice(b: Books, employee: nat, device: nat, batch: seq<Punch>)
    requires IdsBelow(b)
    ensures var b' := WithBatch(b, employee, device, batch); WithBatch(b', employee, device, batch) == b'
  {
    BatchRecorded(b, employee, device, batch);
    ReplayChangesNothing(WithBatch(b, employee, device, batch), employee, device, batch);
  }

  // ----- whole runs

  datatype Command =
    | Sync(employee: nat, device: nat, batch: seq<Punch>)
    | Manual(employee: nat, device: nat, punch: Punch, correctionOf: nat, allowed: bool)
    | Transition(period: nat, employee: nat, to: State, allowed: bool, held: bool)
    | Lock(period: nat, allowed: bool)

  lemma KeptTrans(a: Entries, b: Entries, c: Entries, x: Shifts, y: Shifts, z: Shifts)
    requires EntriesKept(a, b) && EntriesKept(b, c) && SettledKept(x, y) && SettledKept(y, z)
    ensures EntriesKept(a, c) && SettledKept(x, z)
  {
    forall id | id in x && Settled(x[id].state)
      ensures id in z && Rank(x[id].state) <= Rank(z[id].state) && z[id] == x[id].(state := z[id].state)
    {
      assert Settled(y[id].state);
    }
  }

  function Effect(b: Books, c: Command): Books {
    match c
    case Sync(employee, device, batch) => WithBatch(b, employee, device, batch)
    case Manual(employee, device, punch, correctionOf, allowed) =>
      WithManual(b, employee, device, punch, correctionOf, allowed)
    case Transition(period, employee, to, allowed, held) => WithTransition(b, period, employee, to, allowed, held)
    case Lock(period, allowed) => WithLock(b, period, allowed)
  }

  function Effects(b: Books, script: seq<Command>): Books
    decreases |script|
  {
    if script == [] then b else Effect(Effects(b, script[..|script| - 1]), script[|script| - 1])
  }

  /** What one command does to the shifts. */
  ghost function RowsAfter(b: Books, rows: set<Shift>, c: Command): set<Shift> {
    match c
    case Sync(employee, device, batch) =>
      var from := BatchFrom(b, employee, device, batch);
      if from == 0 then rows else Rebuild(rows, employee, from, Effect(b, c).entries)
    case Manual(employee, device, punch, correctionOf, allowed) =>
      if !ManualOk(b, employee, punch, correctionOf, allowed) then rows
      else Rebuild(rows, employee, ManualFrom(b, punch, correctionOf), Effect(b, c).entries)
    case Transition(period, employee, to, allowed, held) =>
      if !TransitionOk(b, period, employee, to, allowed, held) then rows
      else RaisedRows(rows, period, Some(employee), Predecessor(to).value, to)
    case Lock(period, allowed) =>
      if !LockOk(b, period, allowed) then rows else RaisedRows(rows, period, None, Released, Locked)
  }

  ghost function RowsAfterAll(b: Books, rows: set<Shift>, script: seq<Command>): set<Shift>
    decreases |script|
  {
    if script == [] then rows else
    var before := script[..|script| - 1];
    RowsAfter(Effects(b, before), RowsAfterAll(b, rows, before), script[|script| - 1])
  }

  predicate Approves(c: Command) { c.Transition? && c.to == Approved }

  /** The command is not an approval that the employee's pairing does not survive. */
  ghost predicate Spares(b: Books, c: Command, anyone: nat) {
    Approves(c) && c.employee == anyone && TransitionOk(b, c.period, anyone, Approved, c.allowed, c.held)
      && Keyed(b.entries) ==>
      Survives(InOrder(Current(b.entries, anyone)), c.period)
  }

  ghost predicate SparesAll(b: Books, script: seq<Command>, anyone: nat)
    decreases |script|
  {
    script != [] ==>
      var before := script[..|script| - 1];
      SparesAll(b, before, anyone) && Spares(Effects(b, before), script[|script| - 1], anyone)
  }

  /** Over any run from any consistent ledger: books and shifts are what the script says, shifts stand on the rung of
      their in punch, every rung climbed has its approval row, what is settled at the start keeps its punches and
      times, what was locked stays locked; and whose shifts were the pairing of their punches, they still are unless
      an approval did not spare them. */
  method Run(ledger: Ledger, script: seq<Command>)
    requires ledger.Valid()
    modifies ledger
    ensures ledger.Valid() && ledger.Book() == Effects(old(ledger.Book()), script)
    ensures Rows(ledger.shifts) == RowsAfterAll(old(ledger.Book()), Rows(old(ledger.shifts)), script)
    ensures EntriesKept(old(ledger.entries), ledger.entries) && SettledKept(old(ledger.shifts), ledger.shifts)
    ensures forall p :: p in old(ledger.open) ==> p in ledger.open && (!old(ledger.open)[p] ==> !ledger.open[p])
    ensures forall anyone ::
              Paired(old(ledger.entries), old(ledger.shifts), anyone)
                && SparesAll(old(ledger.Book()), script, anyone) ==>
              Paired(ledger.entries, ledger.shifts, anyone)
  {
    hide Ledger.Valid, EntriesKept, SettledKept, Paired, Effect, Rows, RowsAfter, Spares;
    KeptRefl(ledger.entries, ledger.shifts);
    ghost var b := ledger.Book();
    var n := 0;
    while n < |script|
      invariant n <= |script| && ledger.Valid() && ledger.Book() == Effects(b, script[..n])
      invariant Rows(ledger.shifts) == RowsAfterAll(b, Rows(old(ledger.shifts)), script[..n])
      invariant EntriesKept(old(ledger.entries), ledger.entries) && SettledKept(old(ledger.shifts), ledger.shifts)
      invariant forall p :: p in old(ledger.open) ==> p in ledger.open && (!old(ledger.open)[p] ==> !ledger.open[p])
      invariant forall anyone ::
                  Paired(old(ledger.entries), old(ledger.shifts), anyone) && SparesAll(b, script[..n], anyone) ==>
                  Paired(ledger.entries, ledger.shifts, anyone)
    {
      ghost var entries, shifts := ledger.entries, ledger.shifts;
      assert script[..n + 1][..n] == script[..n];
      ledger.Do(script[n]);
      KeptTrans(old(ledger.entries), entries, ledger.entries, old(ledger.shifts), shifts, ledger.shifts);
      n := n + 1;
    }
    assert script[..n] == script;
  }
}

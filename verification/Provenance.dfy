/** What the ledger promises, said of punches, entries and shifts alone: where every entry comes from, who raised it,
    what a lock and a hold prevent, and which punches a shift is (modules/punchline/src/sync.cpp, lifecycle.cpp). */
module Provenance {
  import opened PageFormat
  import opened Pairing
  import opened Timesheet

  // ----- where an entry comes from

  /** The entry has what a command sent: the employee's punch, its kind, time, device, pay code and pay period. */
  ghost predicate CameFrom(e: Entry, c: Command) {
    || (c.Sync? && exists j :: 0 <= j < |c.batch| && FromPunch(e, c, c.batch[j]))
    || (c.Manual? && c.allowed && e.employee == c.employee && e.kind == c.punch.kind && e.time == c.punch.time > 0
        && e.payCode == c.punch.payCode && e.period in {0, c.punch.period} && e.uuid == Derived(e.id)
        && (c.correctionOf == 0 ==> e.device == c.device))
  }

  ghost predicate FromPunch(e: Entry, c: Command, p: Punch)
    requires c.Sync?
  {
    && e.employee == c.employee && e.device == c.device && e.uuid == Sent(p.uuid) && e.kind == p.kind
    && e.time == p.time > 0 && e.payCode == p.payCode && e.period in {0, p.period}
  }

  /** Whether an entry is what it was, apart from its rung and from being superseded. */
  ghost predicate SameEntry(e: Entry, e': Entry) {
    && e'.id == e.id && e'.uuid == e.uuid && e'.employee == e.employee && e'.device == e.device && e'.kind == e.kind
    && e'.time == e.time && e'.period == e.period && e'.payCode == e.payCode
  }

  lemma {:induction false} BatchEntries(b: Books, c: Command, batch: seq<Punch>, id: nat)
    requires IdsBelow(b) && c.Sync? && batch <= c.batch && id in WithBatch(b, c.employee, c.device, batch).entries
    ensures var e := WithBatch(b, c.employee, c.device, batch).entries[id];
            if id in b.entries then e == b.entries[id] else e.state == Recorded && e.supersededBy == 0 && CameFrom(e, c)
    decreases |batch|
  {
    if batch != [] {
      var n := |batch| - 1;
      var before := WithBatch(b, c.employee, c.device, batch[..n]);
      BatchRecorded(b, c.employee, c.device, batch[..n]);
      BatchIds(b, c.employee, c.device, batch[..n]);
      if id in before.entries {
        BatchEntries(b, c, batch[..n], id);
      } else {
        assert c.batch[n] == batch[n];
        assert FromPunch(WithPunch(before, c.employee, c.device, batch[n]).entries[id], c, c.batch[n]);
      }
    }
  }

  lemma {:induction false} BatchIds(b: Books, employee: nat, device: nat, batch: seq<Punch>)
    ensures var b' := WithBatch(b, employee, device, batch);
            b.entries.Keys <= b'.entries.Keys && b.nextEntry <= b'.nextEntry && b'.open == b.open
    decreases |batch|
  {
    if batch != [] { BatchIds(b, employee, device, batch[..|batch| - 1]); }
  }

  lemma StepEntries(b: Books, c: Command, id: nat)
    requires IdsBelow(b) && id in Effect(b, c).entries
    ensures IdsBelow(Effect(b, c)) && b.entries.Keys <= Effect(b, c).entries.Keys
    ensures var e := Effect(b, c).entries[id];
            if id in b.entries then SameEntry(b.entries[id], e) else e.state == Recorded && CameFrom(e, c)
  {
    if c.Sync? {
      BatchRecorded(b, c.employee, c.device, c.batch);
      BatchIds(b, c.employee, c.device, c.batch);
      BatchEntries(b, c, c.batch, id);
    }
  }

  /** Over any run no entry is made up and none is altered: each was there and is what it was, apart from its rung and
      from being superseded, or is what one of the commands sent. */
  lemma {:induction false} EntryIsPunch(b: Books, script: seq<Command>, id: nat)
    requires IdsBelow(b) && id in Effects(b, script).entries
    ensures IdsBelow(Effects(b, script))
    ensures var e := Effects(b, script).entries[id];
            if id in b.entries then SameEntry(b.entries[id], e)
            else exists n :: 0 <= n < |script| && CameFrom(e, script[n])
    decreases |script|
  {
    hide Effect, CameFrom;
    if script != [] {
      var n := |script| - 1;
      var before := Effects(b, script[..n]);
      RunIds(b, script[..n]);
      StepEntries(before, script[n], id);
      if id in before.entries {
        EntryIsPunch(b, script[..n], id);
        if id !in b.entries {
          var m :| 0 <= m < n && CameFrom(before.entries[id], script[..n][m]);
          SameCameFrom(before.entries[id], Effects(b, script).entries[id], script[m]);
        }
      }
    }
  }

  lemma SameCameFrom(e: Entry, e': Entry, c: Command)
    requires SameEntry(e, e') && CameFrom(e, c)
    ensures CameFrom(e', c)
  {
    if c.Sync? {
      var j :| 0 <= j < |c.batch| && FromPunch(e, c, c.batch[j]);
      assert FromPunch(e', c, c.batch[j]);
    }
  }

  lemma {:induction false} RunIds(b: Books, script: seq<Command>)
    requires IdsBelow(b)
    ensures IdsBelow(Effects(b, script)) && b.entries.Keys <= Effects(b, script).entries.Keys
    decreases |script|
  {
    hide Effect;
    if script != [] {
      RunIds(b, script[..|script| - 1]);
      StepIds(Effects(b, script[..|script| - 1]), script[|script| - 1]);
    }
  }

  lemma StepIds(b: Books, c: Command)
    requires IdsBelow(b)
    ensures IdsBelow(Effect(b, c)) && b.entries.Keys <= Effect(b, c).entries.Keys
  {
    if c.Sync? {
      BatchRecorded(b, c.employee, c.device, c.batch);
      BatchIds(b, c.employee, c.device, c.batch);
    }
  }

  /** And no punch is lost: one with a positive time and a new uuid is recorded as it was sent, in its pay period if
      that is open and in none otherwise. */
  lemma {:induction false} PunchIsEntry(b: Books, employee: nat, device: nat, batch: seq<Punch>, j: nat)
    returns (id: nat)
    requires IdsBelow(b) && j < |batch| && batch[j].time > 0
    requires forall i :: i in b.entries ==> b.entries[i].uuid != Sent(batch[j].uuid)
    requires forall i :: 0 <= i < j ==> batch[i].uuid != batch[j].uuid
    ensures var e, p := WithBatch(b, employee, device, batch).entries, batch[j];
            && id in e && id !in b.entries && e[id].id == id && e[id].uuid == Sent(p.uuid) && e[id].employee == employee
            && e[id].device == device && e[id].kind == p.kind && e[id].time == p.time && e[id].payCode == p.payCode
            && e[id].period == (if p.period in b.open && b.open[p.period] then p.period else 0)
            && e[id].state == Recorded && e[id].supersededBy == 0
    decreases |batch|
  {
    var n := |batch| - 1;
    var before := WithBatch(b, employee, device, batch[..n]);
    BatchRecorded(b, employee, device, batch[..n]);
    BatchIds(b, employee, device, batch[..n]);
    if j < n {
      id := PunchIsEntry(b, employee, device, batch[..n], j);
    } else {
      id := before.nextEntry;
      if KnownUuid(before.entries, Sent(batch[j].uuid)) {
        var i :| i in before.entries && before.entries[i].uuid == Sent(batch[j].uuid);
        var c := Sync(employee, device, batch[..n]);
        BatchEntries(b, c, batch[..n], i);
        assert false;
      }
    }
  }

  // ----- who raised it

  /** Over any run an entry that is submitted, approved, released or locked and was not so, was raised by an allowed
      command for its employee and its pay period, and released by one without a hold. */
  lemma {:induction false} RaisedBy(b: Books, script: seq<Command>, id: nat)
    requires IdsBelow(b) && id in Effects(b, script).entries
    ensures var e := Effects(b, script).entries[id];
            && (e.state != Recorded && (id in b.entries ==> b.entries[id].state == Recorded) ==>
                  Transition(e.period, e.employee, Submitted, true, false) in script
                  || Transition(e.period, e.employee, Submitted, true, true) in script)
            && (e.state in {Approved, Released, Locked}
                && (id in b.entries ==> b.entries[id].state !in {Approved, Released, Locked}) ==>
                  Transition(e.period, e.employee, Approved, true, false) in script
                  || Transition(e.period, e.employee, Approved, true, true) in script)
            && (e.state in {Released, Locked} && (id in b.entries ==> b.entries[id].state !in {Released, Locked}) ==>
                  Transition(e.period, e.employee, Released, true, false) in script)
            && (e.state == Locked && (id in b.entries ==> b.entries[id].state != Locked) ==>
                  Lock(e.period, true) in script)
    decreases |script|
  {
    hide Effect, CameFrom;
    if script != [] {
      var n := |script| - 1;
      var before := Effects(b, script[..n]);
      RunIds(b, script[..n]);
      StepEntries(before, script[n], id);
      assert script == script[..n] + [script[n]];
      if id in before.entries {
        RaisedBy(b, script[..n], id);
        EntryIsPunch(b, script[..n], id);
        RaisedIn(before, script[n], id);
      }
    }
  }

  /** One command: only a step of the ladder changes a rung, and only by one. */
  lemma RaisedIn(b: Books, c: Command, id: nat)
    requires IdsBelow(b) && id in b.entries
    ensures var e, e' := b.entries[id], Effect(b, c).entries;
            && id in e'
            && (e'[id].state != e.state ==>
                  || (e.state == Recorded && e'[id].state == Submitted && c.Transition? && c.to == Submitted
                      && c.period == e.period && c.employee == e.employee && c.allowed)
                  || (e.state == Submitted && e'[id].state == Approved && c.Transition? && c.to == Approved
                      && c.period == e.period && c.employee == e.employee && c.allowed)
                  || (e.state == Approved && e'[id].state == Released && c.Transition? && c.to == Released
                      && c.period == e.period && c.employee == e.employee && c.allowed && !c.held)
                  || (e.state == Released && e'[id].state == Locked && c == Lock(e.period, true)))
  {
    StepIds(b, c);
    if c.Sync? { BatchEntries(b, c, c.batch, id); }
  }

  // ----- what each command asks, and what it does

  /** A step up the ladder is taken exactly if the pay period is open, the step is allowed and, to release, the
      timesheet is not held; if no live entry of the employee in the period is still below the rung it starts from; and
      if one is on it. Then those move, and nothing else. */
  lemma TransitionExactly(b: Books, period: nat, employee: nat, from: State, to: State, allowed: bool, held: bool)
    requires (from, to) in {(Recorded, Submitted), (Submitted, Approved), (Approved, Released)}
    ensures var b', es := Effect(b, Transition(period, employee, to, allowed, held)), b.entries;
            if && period in b.open && b.open[period] && allowed && (to == Released ==> !held)
               && (forall id :: id in es && es[id].period == period && es[id].employee == employee ==>
                     || es[id].supersededBy != 0 || from == Recorded
                     || (es[id].state != Recorded && (from == Submitted || es[id].state != Submitted)))
               && (exists id :: id in es && es[id].period == period && es[id].employee == employee
                     && es[id].supersededBy == 0 && es[id].state == from)
            then
              && b'.open == b.open && b'.nextEntry == b.nextEntry && b'.entries.Keys == es.Keys
              && b'.approvals == b.approvals + {Approval(period, employee, from, to)}
              && forall id :: id in es ==>
                   b'.entries[id] ==
                   if && es[id].period == period && es[id].employee == employee && es[id].supersededBy == 0
                      && es[id].state == from
                   then es[id].(state := to) else es[id]
            else b' == b
  {
    hide Raised, AtLeast, SomeAt;
    StillBelow(b.entries, period, employee, from, to);
    OnTheRung(b.entries, period, employee, from, to);
    RaisedEach(b.entries, period, Some(employee), from, to);
  }

  lemma StillBelow(es: Entries, period: nat, employee: nat, from: State, to: State)
    requires (from, to) in {(Recorded, Submitted), (Submitted, Approved), (Approved, Released)}
    ensures AtLeast(es, period, employee, Rank(to) - 1) <==>
              forall id :: id in es && es[id].period == period && es[id].employee == employee ==>
                || es[id].supersededBy != 0 || from == Recorded
                || (es[id].state != Recorded && (from == Submitted || es[id].state != Submitted))
  {
    forall id | id in es && es[id].period == period && es[id].employee == employee && es[id].supersededBy == 0
      ensures Rank(es[id].state) >= Rank(to) - 1 <==>
                from == Recorded || (es[id].state != Recorded && (from == Submitted || es[id].state != Submitted))
    {
    }
  }

  lemma OnTheRung(es: Entries, period: nat, employee: nat, from: State, to: State)
    requires (from, to) in {(Recorded, Submitted), (Submitted, Approved), (Approved, Released)}
    ensures SomeAt(es, period, employee, Rank(to) - 1) <==>
              exists id :: id in es && es[id].period == period && es[id].employee == employee
                && es[id].supersededBy == 0 && es[id].state == from
  {
    if id :| id in es && es[id].period == period && es[id].employee == employee && es[id].supersededBy == 0
             && es[id].state == from
    {
      assert InScope(es[id], period, Some(employee)) && Rank(es[id].state) == Rank(to) - 1;
    }
  }

  lemma RaisedEach(es: Entries, period: nat, who: Option<nat>, from: State, to: State)
    ensures Raised(es, period, who, from, to).Keys == es.Keys
    ensures forall id :: id in es ==>
              Raised(es, period, who, from, to)[id] == RaisedEntry(es[id], period, who, from, to)
  {
  }

  /** There is no step to any other state. */
  lemma NoOtherTransition(b: Books, period: nat, employee: nat, to: State, allowed: bool, held: bool)
    requires to == Recorded || to == Locked
    ensures Effect(b, Transition(period, employee, to, allowed, held)) == b
  {
  }

  /** A period is locked exactly if it is open, this is allowed, and every live entry in it is released. */
  lemma LockExactly(b: Books, period: nat, allowed: bool)
    ensures var b', es := Effect(b, Lock(period, allowed)), b.entries;
            if && period in b.open && b.open[period] && allowed
               && (forall id :: id in es && es[id].period == period && es[id].supersededBy == 0 ==>
                     es[id].state == Released)
            then
              && b'.open == b.open[period := false] && b'.nextEntry == b.nextEntry && b'.entries.Keys == es.Keys
              && (forall id :: id in es ==>
                    b'.entries[id] ==
                    if es[id].period == period && es[id].supersededBy == 0 then es[id].(state := Locked) else es[id])
              && forall a :: a in b'.approvals <==>
                   || a in b.approvals
                   || (a.period == period && a.from == Released && a.to == Locked
                       && exists id :: id in es && es[id].period == period && es[id].supersededBy == 0
                            && es[id].employee == a.employee)
            else b' == b
  {
    hide Raised;
    RaisedEach(b.entries, period, None, Released, Locked);
    if AllReleased(b.entries, period) {
      LockRowsIs(b.entries, period);
    }
  }

  lemma LockRowsIs(es: Entries, period: nat)
    ensures forall a :: a in LockRows(es, period) <==>
              && a.period == period && a.from == Released && a.to == Locked
              && exists id :: id in es && es[id].period == period && es[id].supersededBy == 0
                   && es[id].employee == a.employee
  {
    forall a: Approval | && a.period == period && a.from == Released && a.to == Locked
                         && exists id :: id in es && es[id].period == period && es[id].supersededBy == 0
                              && es[id].employee == a.employee
      ensures a in LockRows(es, period)
    {
      var id :| id in es && es[id].period == period && es[id].supersededBy == 0 && es[id].employee == a.employee;
      assert InScope(es[id], period, None) && a == Approval(period, es[id].employee, Released, Locked);
    }
  }

  /** A manual entry is taken exactly if it is allowed, has a positive time and names no locked period; a correction, if
      also the entry that it corrects is the employee's, is live and is not approved, released or locked. It is recorded
      on the device of the entry that it corrects, and supersedes it. */
  lemma ManualExactly(b: Books, employee: nat, device: nat, p: Punch, correctionOf: nat, allowed: bool)
    requires b.nextEntry !in b.entries
    ensures var b', es := Effect(b, Manual(employee, device, p, correctionOf, allowed)), b.entries;
            if && allowed && p.time > 0 && !(p.period in b.open && !b.open[p.period])
               && (correctionOf != 0 ==>
                     && correctionOf in es && es[correctionOf].employee == employee
                     && es[correctionOf].supersededBy == 0 && es[correctionOf].state in {Recorded, Submitted})
            then
              && b'.open == b.open && b'.approvals == b.approvals && b'.nextEntry == b.nextEntry + 1
              && b'.entries.Keys == es.Keys + {b.nextEntry}
              && b'.entries[b.nextEntry] ==
                 Entry(b.nextEntry, Derived(b.nextEntry), employee,
                       if correctionOf == 0 then device else es[correctionOf].device, p.kind, p.time, Recorded,
                       if p.period in b.open then p.period else 0, p.payCode, 0)
              && forall id :: id in es ==>
                   b'.entries[id] ==
                   if id == correctionOf != 0 then es[id].(supersededBy := b.nextEntry) else es[id]
            else b' == b
  {
  }

  // ----- what a lock is for

  /** Over any run, what is in a locked period stays as it is, and nothing comes to it. */
  lemma {:induction false} LockedStays(b: Books, script: seq<Command>, period: nat)
    requires IdsBelow(b) && 0 !in b.open && period in b.open && !b.open[period]
    requires forall id :: id in b.entries && b.entries[id].period == period ==>
               b.entries[id].supersededBy != 0 || b.entries[id].state == Locked
    ensures var b' := Effects(b, script);
            && 0 !in b'.open && period in b'.open && !b'.open[period]
            && (forall id :: id in b.entries && b.entries[id].period == period ==>
                  id in b'.entries && b'.entries[id] == b.entries[id])
            && forall id :: id in b'.entries && b'.entries[id].period == period ==>
                 id in b.entries && b'.entries[id] == b.entries[id]
    decreases |script|
  {
    hide Effect;
    if script != [] {
      var n := |script| - 1;
      var before := Effects(b, script[..n]);
      LockedStays(b, script[..n], period);
      RunIds(b, script[..n]);
      LockedStep(before, script[n], period);
    }
  }

  lemma LockedStep(b: Books, c: Command, period: nat)
    requires IdsBelow(b) && 0 !in b.open && period in b.open && !b.open[period]
    requires forall id :: id in b.entries && b.entries[id].period == period ==>
               b.entries[id].supersededBy != 0 || b.entries[id].state == Locked
    ensures var b' := Effect(b, c);
            && 0 !in b'.open && period in b'.open && !b'.open[period]
            && (forall id :: id in b.entries && b.entries[id].period == period ==>
                  id in b'.entries && b'.entries[id] == b.entries[id])
            && forall id :: id in b'.entries && b'.entries[id].period == period ==>
                 id in b.entries && b'.entries[id] == b.entries[id]
  {
    if c.Sync? {
      BatchLocked(b, c.employee, c.device, c.batch, period);
    }
  }

  lemma {:induction false} BatchLocked(b: Books, employee: nat, device: nat, batch: seq<Punch>, period: nat)
    requires IdsBelow(b) && 0 !in b.open && period in b.open && !b.open[period]
    ensures var b' := WithBatch(b, employee, device, batch);
            && IdsBelow(b') && b'.open == b.open && b.entries.Keys <= b'.entries.Keys
            && (forall id :: id in b.entries ==> b'.entries[id] == b.entries[id])
            && forall id :: id in b'.entries && b'.entries[id].period == period ==> id in b.entries
    decreases |batch|
  {
    if batch != [] { BatchLocked(b, employee, device, batch[..|batch| - 1], period); }
  }

  /** Settled shifts keep everything but their rung. */
  lemma SettledStays(shifts: Shifts, shifts': Shifts, id: nat)
    requires SettledKept(shifts, shifts') && id in shifts && shifts[id].state in {Approved, Released, Locked}
    ensures id in shifts' && shifts'[id].state in {Approved, Released, Locked}
    ensures var a, b := shifts[id], shifts'[id];
            && b.employee == a.employee && b.device == a.device && b.inEntry == a.inEntry && b.outEntry == a.outEntry
            && b.inTime == a.inTime && b.outTime == a.outTime && b.payCode == a.payCode && b.period == a.period
            && (a.state == Locked ==> b.state == Locked) && (a.state == Released ==> b.state != Approved)
  {
  }

  // ----- which punches a shift is

  /** Punches are paired by device time, and by id where times are equal. */
  lemma {:induction false} InOrderSorted(s: set<Entry>)
    requires OneId(s)
    ensures Sorted(InOrder(s))
    decreases s
  {
    if s != {} {
      var m := FirstExists(s);
      InOrderFirst(s, m);
      InOrderSorted(s - {m});
      SortedAfter(s, m, InOrder(s - {m}));
    }
  }

  ghost predicate Sorted(r: seq<Entry>) {
    forall i, j :: 0 <= i < j < |r| ==> r[i].time < r[j].time || (r[i].time == r[j].time && r[i].id < r[j].id)
  }

  lemma SortedAfter(s: set<Entry>, m: Entry, rest: seq<Entry>)
    requires First(s, m) && Sorted(rest) && forall e :: e in rest ==> e in s && e != m
    ensures Sorted([m] + rest)
  {
    assert forall j :: 0 <= j < |rest| ==> rest[j] in rest;
  }

  /** The id is of one of the employee's live punches that are only recorded or submitted. */
  ghost predicate IsCurrent(es: Entries, employee: nat, id: nat) {
    && id in es && es[id].employee == employee && es[id].supersededBy == 0
    && (es[id].state == Recorded || es[id].state == Submitted)
  }

  lemma CurrentAt(es: Entries, employee: nat, e: Entry)
    requires Keyed(es)
    ensures OneId(Current(es, employee))
    ensures e in InOrder(Current(es, employee)) <==> IsCurrent(es, employee, e.id) && es[e.id] == e
  {
    CurrentOneId(es, employee);
    assert e in Current(es, employee) <==> IsCurrent(es, employee, e.id) && es[e.id] == e;
  }

  /** A shift that is not settled is a live in punch of its employee and, once it is closed, the live out punch on the
      same device, later, with no punch of the employee in between but out punches on other devices. */
  lemma ShiftIsPunches(es: Entries, shifts: Shifts, employee: nat, id: nat)
    requires Paired(es, shifts, employee) && id in shifts && shifts[id].employee == employee
    requires shifts[id].state == Recorded || shifts[id].state == Submitted
    ensures var sh := shifts[id];
            && IsCurrent(es, employee, sh.inEntry) && es[sh.inEntry].kind == In && es[sh.inEntry].device == sh.device
            && es[sh.inEntry].time == sh.inTime && es[sh.inEntry].period == sh.period
            && es[sh.inEntry].state == sh.state
            && (sh.outEntry != 0 ==>
                  && IsCurrent(es, employee, sh.outEntry) && es[sh.outEntry].kind == Out
                  && es[sh.outEntry].device == sh.device && es[sh.outEntry].time == sh.outTime > sh.inTime
                  && sh.payCode == (if es[sh.inEntry].payCode == "" then es[sh.outEntry].payCode
                                    else es[sh.inEntry].payCode)
                  && forall x :: IsCurrent(es, employee, x) && sh.inTime < es[x].time < sh.outTime ==>
                       es[x].kind == Out && es[x].device != sh.device)
  {
    hide Fold, Current, InOrder;
    CurrentOneId(es, employee);
    var sh, r := shifts[id], InOrder(Current(es, employee));
    assert sh in Unsettled(shifts, employee);
    var i, j := ShiftIsPair(r, sh);
    CurrentAt(es, employee, r[i]);
    if sh.outEntry != 0 {
      CurrentAt(es, employee, r[j]);
      InOrderSorted(Current(es, employee));
      forall x | IsCurrent(es, employee, x) && sh.inTime < es[x].time < sh.outTime
        ensures es[x].kind == Out && es[x].device != sh.device
      {
        CurrentAt(es, employee, es[x]);
        var k :| 0 <= k < |r| && r[k] == es[x];
      }
    }
  }

  /** And two such punches are one shift. */
  lemma PunchesAreShift(es: Entries, shifts: Shifts, employee: nat, a: nat, o: nat) returns (id: nat)
    requires Paired(es, shifts, employee)
    requires IsCurrent(es, employee, a) && es[a].kind == In && IsCurrent(es, employee, o) && es[o].kind == Out
    requires es[o].device == es[a].device && es[a].time < es[o].time
    requires forall x :: IsCurrent(es, employee, x) && es[a].time <= es[x].time <= es[o].time && x != a && x != o ==>
               es[x].kind == Out && es[x].device != es[a].device
    ensures id in shifts && shifts[id].employee == employee && shifts[id].inEntry == a && shifts[id].outEntry == o
    ensures shifts[id].inTime == es[a].time && shifts[id].outTime == es[o].time
    ensures shifts[id].state == es[a].state && shifts[id].period == es[a].period
  {
    hide Fold, Current, InOrder, Sorted;
    CurrentOneId(es, employee);
    var r := InOrder(Current(es, employee));
    var i, j := PunchesInOrder(es, employee, a, o);
    PairIsShift(r, i, j);
    var sh := Shift(es[a].employee, es[a].device, es[a].id, es[o].id, es[a].time, es[o].time,
                    if es[a].payCode == "" then es[o].payCode else es[a].payCode, es[a].period, es[a].state);
    assert sh in AsSet(Fold(None, r));
    id :| id in shifts && shifts[id] == sh;
  }

  lemma PunchesInOrder(es: Entries, employee: nat, a: nat, o: nat) returns (i: nat, j: nat)
    requires Keyed(es) && OneId(Current(es, employee))
    requires IsCurrent(es, employee, a) && IsCurrent(es, employee, o) && es[a].time < es[o].time
    requires forall x :: IsCurrent(es, employee, x) && es[a].time <= es[x].time <= es[o].time && x != a && x != o ==>
               es[x].kind == Out && es[x].device != es[a].device
    ensures var r := InOrder(Current(es, employee));
            && i < j < |r| && r[i] == es[a] && r[j] == es[o]
            && forall k :: i < k < j ==> r[k].kind == Out && r[k].device != es[a].device
  {
    hide Current, InOrder;
    var r := InOrder(Current(es, employee));
    CurrentAt(es, employee, es[a]);
    CurrentAt(es, employee, es[o]);
    InOrderSorted(Current(es, employee));
    i :| 0 <= i < |r| && r[i] == es[a];
    j :| 0 <= j < |r| && r[j] == es[o];
    forall k | i < k < j ensures r[k].kind == Out && r[k].device != es[a].device {
      CurrentAt(es, employee, r[k]);
      assert es[a].time <= r[k].time <= es[o].time;
    }
  }

  /** Every live in punch that is not settled begins a shift. */
  lemma InPunchBegins(es: Entries, shifts: Shifts, employee: nat, a: nat) returns (id: nat)
    requires Paired(es, shifts, employee) && IsCurrent(es, employee, a) && es[a].kind == In
    ensures id in shifts && shifts[id].employee == employee && shifts[id].inEntry == a
    ensures shifts[id].device == es[a].device && shifts[id].inTime == es[a].time && shifts[id].state == es[a].state
  {
    hide Fold, Current, InOrder, Begun, Ender;
    CurrentOneId(es, employee);
    var r := InOrder(Current(es, employee));
    CurrentAt(es, employee, es[a]);
    var i :| 0 <= i < |r| && r[i] == es[a];
    BegunAt(r, i);
    FoldAll(r);
    var sh := ShiftOf(r[i], Ender(r[i], r[i + 1..]));
    assert sh in AsSet(Fold(None, r));
    id :| id in shifts && shifts[id] == sh;
  }

  /** Unless a shift of the employee is open or ends later, a change at `from` leaves alone every shift that ended
      before it, every settled one and every one of another employee; and new ones begin at `from` or later. */
  lemma RepairedFrom(rows: set<Shift>, employee: nat, from: int, es: Entries, sh: Shift)
    requires forall x :: x in rows && x.employee == employee && x.state in {Recorded, Submitted} && x.inTime < from ==>
               x.outEntry != 0 && x.outTime < from
    ensures sh in rows && (sh.employee != employee || sh.state in {Approved, Released, Locked} || sh.inTime < from) ==>
              sh in Rebuild(rows, employee, from, es)
    ensures sh in Rebuild(rows, employee, from, es) && sh !in rows ==> sh.employee == employee && from <= sh.inTime
  {
    hide Fold, Current, InOrder;
    assert Closed(rows, employee, from);
    assert StartOf(rows, employee, from) == from;
    if Keyed(es) {
      CurrentOneId(es, employee);
      var later := Later(Current(es, employee), from);
      assert OneId(later);
      if sh in Fold(None, InOrder(later)) {
        var i, j := ShiftIsPair(InOrder(later), sh);
        var e := InOrder(later)[i];
        assert e in later && e in InOrder(Current(es, employee));
        CurrentAt(es, employee, e);
      }
    }
  }
}

/** Punches, shifts, and the fold that pairs them (repair_pairing in
    modules/punchline/src/sync.cpp, pair_out in modules/punchline/src/rules.cpp). */
module Pairing {
  import opened PageFormat

  datatype Kind = In | Out

  /** The approval ladder. */
  datatype State = Recorded | Submitted | Approved | Released | Locked

  predicate Settled(s: State) { s == Approved || s == Released || s == Locked }

  /** Given by a device, or derived from the entry's own id. */
  datatype Uuid = Sent(number: nat) | Derived(id: nat)

  datatype Entry = Entry(
    id: nat, uuid: Uuid, employee: nat, device: nat, kind: Kind, time: int, state: State,
    period: nat, payCode: string, supersededBy: nat)

  /** A shift row but for its id. `outEntry` is 0 while it is open. */
  datatype Shift = Shift(
    employee: nat, device: nat, inEntry: nat, outEntry: nat, inTime: int, outTime: int,
    payCode: string, period: nat, state: State)

  // ----- the fold

  predicate PairsOut(open: Shift, e: Entry) {
    e.kind == Out && e.employee == open.employee && e.device == open.device && e.time > open.inTime
  }

  function OpenedBy(e: Entry): Shift {
    Shift(e.employee, e.device, e.id, 0, e.time, 0, e.payCode, e.period, e.state)
  }

  function ClosedBy(open: Shift, e: Entry): Shift {
    open.(outEntry := e.id, outTime := e.time, payCode := if open.payCode == "" then e.payCode else open.payCode)
  }

  /** What is open after a punch. An out punch from another device leaves an open shift as it is. */
  function OpenNext(open: Option<Shift>, e: Entry): Option<Shift> {
    if e.kind == In then Some(OpenedBy(e))
    else if open.Some? && !PairsOut(open.value, e) && open.value.device != e.device then open
    else None
  }

  /** The shift that a punch completes, or leaves open for good. */
  function Stored(open: Option<Shift>, e: Entry): seq<Shift> {
    if open.None? then []
    else if e.kind == In then [open.value]
    else if PairsOut(open.value, e) then [ClosedBy(open.value, e)]
    else if open.value.device != e.device then []
    else [open.value]
  }

  function OpenAfter(open: Option<Shift>, es: seq<Entry>): Option<Shift>
    decreases |es|
  {
    if es == [] then open else OpenAfter(OpenNext(open, es[0]), es[1..])
  }

  function StoredBy(open: Option<Shift>, es: seq<Entry>): seq<Shift>
    decreases |es|
  {
    if es == [] then [] else Stored(open, es[0]) + StoredBy(OpenNext(open, es[0]), es[1..])
  }

  function Rest(open: Option<Shift>): seq<Shift> { if open.Some? then [open.value] else [] }

  /** The pairing of a list of punches: the shifts stored along the way, and the one open at the end. */
  function Fold(open: Option<Shift>, es: seq<Entry>): seq<Shift> { StoredBy(open, es) + Rest(OpenAfter(open, es)) }

  lemma {:induction false} FoldConcat(open: Option<Shift>, a: seq<Entry>, b: seq<Entry>)
    ensures OpenAfter(open, a + b) == OpenAfter(OpenAfter(open, a), b)
    ensures StoredBy(open, a + b) == StoredBy(open, a) + StoredBy(OpenAfter(open, a), b)
    ensures Fold(open, a + b) == StoredBy(open, a) + Fold(OpenAfter(open, a), b)
    decreases |a|
  {
    hide OpenNext, Stored, Rest;
    if a == [] {
      assert a + b == b;
    } else {
      assert (a + b)[0] == a[0] && (a + b)[1..] == a[1..] + b;
      FoldConcat(OpenNext(open, a[0]), a[1..], b);
    }
  }

  /** Where a shift comes from. */
  predicate SameIn(a: Shift, b: Shift) {
    && a.inEntry == b.inEntry && a.inTime == b.inTime && a.employee == b.employee && a.device == b.device
    && a.period == b.period && a.state == b.state
  }

  predicate From(sh: Shift, e: Entry) { e.kind == In && SameIn(sh, OpenedBy(e)) }

  ghost predicate FromSome(sh: Shift, open: Option<Shift>, es: seq<Entry>) {
    || (exists i :: 0 <= i < |es| && From(sh, es[i]))
    || (open.Some? && SameIn(sh, open.value))
  }

  /** Every shift of the fold begins with one of the punches, and closes before `until` if it closes. */
  lemma {:induction false} FoldFrom(open: Option<Shift>, es: seq<Entry>, until: int)
    requires forall i :: 0 <= i < |es| ==> es[i].time < until
    ensures OpenAfter(open, es).Some? ==> FromSome(OpenAfter(open, es).value, open, es)
    ensures forall sh :: sh in StoredBy(open, es) ==> FromSome(sh, open, es)
    ensures (open.Some? ==> open.value.outEntry == 0) ==>
              (OpenAfter(open, es).Some? ==> OpenAfter(open, es).value.outEntry == 0)
              && (forall sh :: sh in StoredBy(open, es) ==> sh.outEntry == 0 || sh.outTime < until)
    decreases |es|
  {
    if es != [] {
      var next := OpenNext(open, es[0]);
      FoldFrom(next, es[1..], until);
      forall sh | FromSome(sh, next, es[1..]) ensures FromSome(sh, open, es) {
        if i :| 0 <= i < |es[1..]| && From(sh, es[1..][i]) {
          assert From(sh, es[i + 1]);
        } else if es[0].kind == In {
          assert From(sh, es[0]);
        }
      }
    }
  }

  /** A shift open before some punches at or after `start` is among the results, still open or closed then. */
  lemma {:induction false} OpenSurvives(open: Shift, es: seq<Entry>, start: int) returns (sh: Shift)
    requires open.outEntry == 0 && forall i :: 0 <= i < |es| ==> es[i].time >= start
    ensures sh in Fold(Some(open), es) && SameIn(sh, open) && (sh.outEntry == 0 || sh.outTime >= start)
    decreases |es|
  {
    if es == [] {
      sh := open;
    } else {
      var next, kept := OpenNext(Some(open), es[0]), Stored(Some(open), es[0]);
      if kept != [] {
        sh := kept[0];
        assert sh in StoredBy(Some(open), es);
      } else {
        sh := OpenSurvives(open, es[1..], start);
        assert Fold(Some(open), es) == Fold(Some(open), es[1..]);
      }
    }
  }

  // ----- what a repair that starts at `start` leaves alone

  /** shifts_from: open, or ending or beginning at or after `start`. */
  predicate Touches(sh: Shift, start: int) { sh.outEntry == 0 || sh.outTime >= start || sh.inTime >= start }

  /** When no touched shift begins before `start`, nothing is open there: the fold of the punches before it and the
      fold of those after it are independent, and the touched shifts are exactly those of the latter. */
  lemma CleanCut(a: seq<Entry>, b: seq<Entry>, start: int)
    requires forall i :: 0 <= i < |a| ==> a[i].time < start
    requires forall i :: 0 <= i < |b| ==> b[i].time >= start
    requires forall sh :: sh in Fold(None, a + b) && Touches(sh, start) ==> sh.inTime >= start
    ensures OpenAfter(None, a) == None
    ensures forall sh :: sh in StoredBy(None, a) ==> !Touches(sh, start)
    ensures forall sh :: sh in Fold(None, b) ==> Touches(sh, start)
    ensures Fold(None, a + b) == StoredBy(None, a) + Fold(None, b)
  {
    FoldConcat(None, a, b);
    FoldFrom(None, a, start);
    var open := OpenAfter(None, a);
    if open.Some? {
      var sh := OpenSurvives(open.value, b, start);
    }
    InTimes(b, start);
  }

  lemma InTimes(b: seq<Entry>, start: int)
    requires forall i :: 0 <= i < |b| ==> b[i].time >= start
    ensures forall sh :: sh in Fold(None, b) ==> sh.inTime >= start
  {
    var until := AllBefore(b);
    FoldFrom(None, b, until);
  }

  lemma {:induction false} AllBefore(b: seq<Entry>) returns (until: int)
    ensures forall i :: 0 <= i < |b| ==> b[i].time < until
  {
    if b == [] {
      until := 0;
    } else {
      until := AllBefore(b[..|b| - 1]);
      if until <= b[|b| - 1].time { until := b[|b| - 1].time + 1; }
      forall i | 0 <= i < |b| ensures b[i].time < until {
        if i < |b| - 1 { assert b[..|b| - 1][i] == b[i]; }
      }
    }
  }

  predicate DistinctIns(shs: seq<Shift>) { forall i, j :: 0 <= i < j < |shs| ==> shs[i].inEntry != shs[j].inEntry }

  predicate DistinctIds(es: seq<Entry>) { forall i, j :: 0 <= i < j < |es| ==> es[i].id != es[j].id }

  /** Distinct in punches begin distinct shifts. */
  lemma {:induction false} FoldDistinct(open: Option<Shift>, es: seq<Entry>)
    requires DistinctIds(es) && (open.Some? ==> forall i :: 0 <= i < |es| ==> es[i].id != open.value.inEntry)
    ensures DistinctIns(Fold(open, es))
    decreases |es|
  {
    if es != [] {
      var next, kept := OpenNext(open, es[0]), Stored(open, es[0]);
      FoldDistinct(next, es[1..]);
      var until := AllBefore(es[1..]);
      FoldFrom(next, es[1..], until);
      assert Fold(open, es) == kept + Fold(next, es[1..]);
      if kept != [] {
        forall sh | sh in Fold(next, es[1..]) ensures sh.inEntry != kept[0].inEntry {
          assert FromSome(sh, next, es[1..]);
        }
      }
    }
  }

  ghost function AsSet(shs: seq<Shift>): set<Shift> { set sh | sh in shs }

  // ----- in punch by in punch

  /** The punch that ends the shift of `e`, among those after it. */
  function Ender(e: Entry, after: seq<Entry>): Option<Entry>
    decreases |after|
  {
    if after == [] || after[0].kind == In then None
    else if PairsOut(OpenedBy(e), after[0]) then Some(after[0])
    else if after[0].device != e.device then Ender(e, after[1..])
    else None
  }

  function ShiftOf(e: Entry, end: Option<Entry>): Shift {
    if end.Some? then ClosedBy(OpenedBy(e), end.value) else OpenedBy(e)
  }

  /** Every in punch begins one shift, which ends where it may. */
  function Begun(es: seq<Entry>): seq<Shift>
    decreases |es|
  {
    if es == [] then [] else (if es[0].kind == In then [ShiftOf(es[0], Ender(es[0], es[1..]))] else []) + Begun(es[1..])
  }

  function OpenedByAny(e: Option<Entry>): Option<Shift> { if e.Some? then Some(OpenedBy(e.value)) else None }

  function BegunBefore(e: Option<Entry>, es: seq<Entry>): seq<Shift> {
    if e.Some? then [ShiftOf(e.value, Ender(e.value, es))] else []
  }

  /** That is what the fold computes. */
  lemma {:induction false} FoldIsBegun(e: Option<Entry>, es: seq<Entry>)
    ensures Fold(OpenedByAny(e), es) == BegunBefore(e, es) + Begun(es)
    decreases |es|
  {
    if es != [] {
      hide Fold, PairsOut, ClosedBy;
      var next := NextOpen(e, es[0]);
      StepIsBegun(e, es[0], es[1..]);
      FoldIsBegun(next, es[1..]);
      FoldStep(OpenedByAny(e), es);
      assert es == [es[0]] + es[1..];
    }
  }

  /** Whose shift is open after a punch. */
  function NextOpen(e: Option<Entry>, punch: Entry): Option<Entry> {
    if punch.kind == In then Some(punch)
    else if e.Some? && !PairsOut(OpenedBy(e.value), punch) && e.value.device != punch.device then e
    else None
  }

  lemma StepIsBegun(e: Option<Entry>, punch: Entry, rest: seq<Entry>)
    ensures OpenNext(OpenedByAny(e), punch) == OpenedByAny(NextOpen(e, punch))
    ensures Stored(OpenedByAny(e), punch) + BegunBefore(NextOpen(e, punch), rest)
         == BegunBefore(e, [punch] + rest) + if punch.kind == In then [ShiftOf(punch, Ender(punch, rest))] else []
  {
    assert ([punch] + rest)[1..] == rest;
  }

  lemma FoldStep(open: Option<Shift>, es: seq<Entry>)
    requires es != []
    ensures Fold(open, es) == Stored(open, es[0]) + Fold(OpenNext(open, es[0]), es[1..])
  {
  }

  lemma {:induction false} EnderIn(e: Entry, after: seq<Entry>)
    ensures Ender(e, after).Some? ==> Ender(e, after).value in after
    decreases |after|
  {
    if after != [] { EnderIn(e, after[1..]); }
  }

  lemma {:induction false} BegunFrom(es: seq<Entry>, sh: Shift)
    requires sh in Begun(es)
    ensures exists i :: 0 <= i < |es| && es[i].id == sh.inEntry
    decreases |es|
  {
    if sh in Begun(es[1..]) {
      BegunFrom(es[1..], sh);
      var i :| 0 <= i < |es[1..]| && es[1..][i].id == sh.inEntry;
      assert es[i + 1].id == sh.inEntry;
    } else {
      assert es[0].id == sh.inEntry;
    }
  }

  // ----- the pairing on the punches themselves

  lemma {:induction false} EnderIs(e: Entry, after: seq<Entry>, j: nat)
    requires e.kind == In
    ensures j < |after| && after[j].kind == Out && after[j].employee == e.employee && after[j].device == e.device
            && e.time < after[j].time ==>
              (forall k :: 0 <= k < j ==> after[k].kind == Out && after[k].device != e.device) ==>
              Ender(e, after) == Some(after[j])
    decreases |after|
  {
    if after != [] && j > 0 { EnderIs(e, after[1..], j - 1); }
  }

  lemma {:induction false} EnderAt(e: Entry, after: seq<Entry>) returns (j: nat)
    requires e.kind == In && Ender(e, after).Some?
    ensures j < |after| && Ender(e, after) == Some(after[j])
    ensures after[j].kind == Out && after[j].employee == e.employee && after[j].device == e.device
    ensures e.time < after[j].time && forall k :: 0 <= k < j ==> after[k].kind == Out && after[k].device != e.device
    decreases |after|
  {
    if PairsOut(OpenedBy(e), after[0]) {
      j := 0;
    } else {
      j := EnderAt(e, after[1..]);
      j := j + 1;
    }
  }

  lemma {:induction false} BegunAt(es: seq<Entry>, i: nat)
    requires i < |es| && es[i].kind == In
    ensures ShiftOf(es[i], Ender(es[i], es[i + 1..])) in Begun(es)
    decreases |es|
  {
    hide Ender, ShiftOf;
    if i > 0 {
      BegunAt(es[1..], i - 1);
      assert es[1..][i - 1] == es[i] && es[1..][i..] == es[i + 1..];
    }
  }

  lemma {:induction false} BegunOf(es: seq<Entry>, sh: Shift) returns (i: nat)
    requires sh in Begun(es)
    ensures i < |es| && es[i].kind == In && sh == ShiftOf(es[i], Ender(es[i], es[i + 1..]))
    decreases |es|
  {
    hide Ender, ShiftOf;
    if sh in Begun(es[1..]) {
      i := BegunOf(es[1..], sh);
      assert es[1..][i] == es[i + 1] && es[1..][i + 1..] == es[i + 2..];
      i := i + 1;
    } else {
      i := 0;
    }
  }

  lemma FoldAll(es: seq<Entry>)
    ensures Fold(None, es) == Begun(es)
  {
    hide Fold;
    FoldIsBegun(None, es);
    assert [] + Begun(es) == Begun(es);
  }

  /** An in punch and an out punch of one employee on one device, the out punch later, with nothing in between but out
      punches of other devices, are one shift, with the pay code of the in punch or else of the out punch. */
  lemma PairIsShift(es: seq<Entry>, i: nat, j: nat)
    requires i < j < |es| && es[i].kind == In && es[j].kind == Out
    requires es[j].employee == es[i].employee && es[j].device == es[i].device && es[i].time < es[j].time
    requires forall k :: i < k < j ==> es[k].kind == Out && es[k].device != es[i].device
    ensures Shift(es[i].employee, es[i].device, es[i].id, es[j].id, es[i].time, es[j].time,
                  if es[i].payCode == "" then es[j].payCode else es[i].payCode, es[i].period, es[i].state)
            in Fold(None, es)
  {
    hide Fold, Ender, Begun;
    var after := es[i + 1..];
    assert after[j - i - 1] == es[j] && forall k :: 0 <= k < j - i - 1 ==> after[k] == es[i + 1 + k];
    EnderIs(es[i], after, j - i - 1);
    BegunAt(es, i);
    FoldAll(es);
  }

  /** An in punch with no such out punch is an open shift. */
  lemma UnpairedIsOpen(es: seq<Entry>, i: nat)
    requires i < |es| && es[i].kind == In
    requires forall j :: i < j < |es| && es[j].kind == Out && es[j].device == es[i].device ==>
               || es[j].employee != es[i].employee || es[j].time <= es[i].time
               || exists k :: i < k < j && (es[k].kind == In || es[k].device == es[i].device)
    ensures Shift(es[i].employee, es[i].device, es[i].id, 0, es[i].time, 0, es[i].payCode, es[i].period, es[i].state)
            in Fold(None, es)
  {
    hide Fold, Begun, Ender;
    var after := es[i + 1..];
    assert forall k :: i < k < |es| ==> es[k] == after[k - i - 1];
    if Ender(es[i], after).Some? {
      var j := EnderAt(es[i], after);
      assert false;
    }
    BegunAt(es, i);
    FoldAll(es);
  }

  /** And there is no other shift. */
  lemma ShiftIsPair(es: seq<Entry>, sh: Shift) returns (i: nat, j: nat)
    requires sh in Fold(None, es)
    ensures i < |es| && es[i].kind == In && sh.inEntry == es[i].id && sh.inTime == es[i].time
    ensures sh.employee == es[i].employee && sh.device == es[i].device
    ensures sh.period == es[i].period && sh.state == es[i].state
    ensures sh.outEntry != 0 ==>
              && i < j < |es| && es[j].kind == Out && sh.outEntry == es[j].id && sh.outTime == es[j].time
              && es[j].employee == es[i].employee && es[j].device == es[i].device && es[i].time < es[j].time
              && sh.payCode == (if es[i].payCode == "" then es[j].payCode else es[i].payCode)
              && forall k :: i < k < j ==> es[k].kind == Out && es[k].device != es[i].device
  {
    hide Fold, Begun, Ender;
    FoldAll(es);
    i := BegunOf(es, sh);
    j := 0;
    var after := es[i + 1..];
    if Ender(es[i], after).Some? {
      j := EnderAt(es[i], after);
      assert after[j] == es[i + 1 + j] && forall k :: i < k < i + 1 + j ==> es[k] == after[k - i - 1];
      j := j + i + 1;
    }
  }

  // ----- with the punches of one period gone

  function Without(es: seq<Entry>, period: nat): (r: seq<Entry>)
    ensures forall e :: e in r <==> e in es && e.period != period
    decreases |es|
  {
    if es == [] then [] else (if es[0].period != period then [es[0]] else []) + Without(es[1..], period)
  }

  ghost function OfOthers(shs: set<Shift>, period: nat): set<Shift> { set sh | sh in shs && sh.period != period }

  /** Every in punch of another period is ended by the same punch, or by none, with and without those of this one. */
  predicate Survives(es: seq<Entry>, period: nat)
    decreases |es|
  {
    es != [] ==>
      && (es[0].kind == In && es[0].period != period ==>
            Ender(es[0], es[1..]) == Ender(es[0], Without(es[1..], period)))
      && Survives(es[1..], period)
  }

  /** Two ends of the same shift differ in the shift. */
  lemma ShiftsDiffer(e: Entry, es: seq<Entry>, a: Option<Entry>, b: Option<Entry>)
    requires DistinctIds(es) && forall i :: 0 <= i < |es| ==> es[i].id != 0
    requires (a.Some? ==> a.value in es) && (b.Some? ==> b.value in es)
    ensures ShiftOf(e, a) == ShiftOf(e, b) <==> a == b
  {
    if a.Some? && b.Some? && a.value.id == b.value.id {
      var i :| 0 <= i < |es| && es[i] == a.value;
      var j :| 0 <= j < |es| && es[j] == b.value;
    }
  }

  lemma OneMore(a: Shift, b: Shift, x: set<Shift>, y: set<Shift>)
    requires a.inEntry == b.inEntry && forall sh :: sh in x + y ==> sh.inEntry != a.inEntry
    ensures {a} + x == {b} + y <==> a == b && x == y
  {
    if {a} + x == {b} + y {
      assert a in {b} + y;
      forall sh ensures sh in x <==> sh in y { assert sh in {a} + x <==> sh in {b} + y; }
    }
  }

  lemma BegunCons(e: Entry, rest: seq<Entry>)
    ensures Begun([e] + rest) == (if e.kind == In then [ShiftOf(e, Ender(e, rest))] else []) + Begun(rest)
  {
    assert ([e] + rest)[1..] == rest;
  }

  lemma WithoutCons(e: Entry, rest: seq<Entry>, period: nat)
    ensures Without([e] + rest, period) == (if e.period != period then [e] else []) + Without(rest, period)
  {
    assert ([e] + rest)[1..] == rest;
  }

  /** An in punch of another period adds its shift on both sides. */
  lemma OneBegun(e: Entry, rest: seq<Entry>, period: nat)
    requires e.kind == In && e.period != period
    ensures OfOthers(AsSet(Begun([e] + rest)), period) == {ShiftOf(e, Ender(e, rest))}
            + OfOthers(AsSet(Begun(rest)), period)
    ensures AsSet(Begun(Without([e] + rest, period)))
         == {ShiftOf(e, Ender(e, Without(rest, period)))} + AsSet(Begun(Without(rest, period)))
  {
    hide Ender, Begun, Without;
    BegunCons(e, rest);
    WithoutCons(e, rest, period);
    BegunCons(e, Without(rest, period));
  }

  /** Any other punch adds none. */
  lemma NoneBegun(e: Entry, rest: seq<Entry>, period: nat)
    requires e.kind == Out || e.period == period
    ensures OfOthers(AsSet(Begun([e] + rest)), period) == OfOthers(AsSet(Begun(rest)), period)
    ensures AsSet(Begun(Without([e] + rest, period))) == AsSet(Begun(Without(rest, period)))
  {
    hide Ender, Begun, Without;
    BegunCons(e, rest);
    WithoutCons(e, rest, period);
    BegunCons(e, Without(rest, period));
    assert [] + Begun(rest) == Begun(rest) && [] + Without(rest, period) == Without(rest, period);
  }

  lemma AnotherIn(e: Entry, rest: seq<Entry>, period: nat, sh: Shift)
    requires DistinctIds([e] + rest) && (sh in Begun(rest) || sh in Begun(Without(rest, period)))
    ensures sh.inEntry != e.id
  {
    hide Begun, Without;
    forall x | x in rest ensures x.id != e.id {
      var i :| 0 <= i < |rest| && rest[i] == x;
      assert ([e] + rest)[0] == e && ([e] + rest)[i + 1] == x;
    }
    if sh in Begun(rest) {
      BegunFrom(rest, sh);
    } else {
      var rest' := Without(rest, period);
      BegunFrom(rest', sh);
      var i :| 0 <= i < |rest'| && rest'[i].id == sh.inEntry;
      assert rest'[i] in rest;
    }
  }

  /** Its shift is the same on both sides exactly if it is ended by the same punch. */
  lemma HeadSurvives(e: Entry, rest: seq<Entry>, period: nat)
    requires DistinctIds([e] + rest) && (forall i :: 0 <= i < |rest| ==> rest[i].id != 0) && e.kind == In
    requires e.period != period
    ensures OfOthers(AsSet(Begun([e] + rest)), period) == AsSet(Begun(Without([e] + rest, period))) <==>
              && Ender(e, rest) == Ender(e, Without(rest, period))
              && OfOthers(AsSet(Begun(rest)), period) == AsSet(Begun(Without(rest, period)))
  {
    hide Ender, Begun, Without;
    var rest' := Without(rest, period);
    DistinctRest(e, rest);
    OneBegun(e, rest, period);
    EnderIn(e, rest);
    EnderIn(e, rest');
    ShiftsDiffer(e, rest, Ender(e, rest), Ender(e, rest'));
    forall sh | sh in Begun(rest) || sh in Begun(rest') ensures sh.inEntry != e.id { AnotherIn(e, rest, period, sh); }
    OneMore(ShiftOf(e, Ender(e, rest)), ShiftOf(e, Ender(e, rest')), OfOthers(AsSet(Begun(rest)), period),
            AsSet(Begun(rest')));
  }

  lemma DistinctRest(e: Entry, rest: seq<Entry>)
    requires DistinctIds([e] + rest)
    ensures DistinctIds(rest)
  {
    forall i, j | 0 <= i < j < |rest| ensures rest[i].id != rest[j].id {
      assert ([e] + rest)[i + 1] == rest[i] && ([e] + rest)[j + 1] == rest[j];
    }
  }

  /** The shifts of the other periods are the pairing of their punches exactly if those survive. */
  lemma {:induction false} SurvivesExactly(es: seq<Entry>, period: nat)
    requires DistinctIds(es) && forall i :: 0 <= i < |es| ==> es[i].id != 0
    ensures OfOthers(AsSet(Begun(es)), period) == AsSet(Begun(Without(es, period))) <==> Survives(es, period)
    decreases |es|
  {
    if es != [] {
      hide Ender, Begun, Without, AsSet, OfOthers, DistinctIds;
      var e, rest := es[0], es[1..];
      assert es == [e] + rest;
      DistinctRest(e, rest);
      SurvivesExactly(rest, period);
      if e.kind == In && e.period != period {
        HeadSurvives(e, rest, period);
      } else {
        NoneBegun(e, rest, period);
      }
    }
  }
}

/** Log archiving and point-in-time recovery (engine/src/engine/recovery.cpp, and the
    archiving step of Db::checkpoint_locked).

    A history is the sequence of transactions committed since the database was
    created; the change counter is its length. An archived segment is a stretch of it. */
module Archive {
  import opened PageFormat
  import opened Disk
  import opened LogFormat
  import opened Protocol
  import opened WalFile

  // ----- histories

  /** The committed state at change counter `k`. */
  ghost function StateAt(first: State, history: seq<Txn>, k: nat): State
    requires k <= |history|
  {
    if k == 0 then first else After(StateAt(first, history, k - 1), history[k - 1])
  }

  ghost predicate IsHistory(first: State, history: seq<Txn>) {
    && IsState(first) && HeaderOf(first).changeCounter == 0
    && forall k :: 0 <= k < |history| ==> Extends(StateAt(first, history, k), history[k])
  }

  lemma {:induction false} StateAtIsState(first: State, history: seq<Txn>, k: nat)
    requires IsHistory(first, history) && k <= |history|
    ensures IsState(StateAt(first, history, k))
    ensures HeaderOf(StateAt(first, history, k)).changeCounter == k
    ensures HeaderOf(StateAt(first, history, k)).dbId == HeaderOf(first).dbId
    ensures k > 0 ==> HeaderOf(StateAt(first, history, k)) == history[k - 1].header
  {
    if k > 0 {
      StateAtIsState(first, history, k - 1);
      AfterIsState(StateAt(first, history, k - 1), history[k - 1]);
    }
  }

  lemma {:induction false} StateAtPrefix(first: State, history: seq<Txn>, more: seq<Txn>, k: nat)
    requires k <= |history|
    ensures StateAt(first, history + more, k) == StateAt(first, history, k)
  {
    if k > 0 {
      StateAtPrefix(first, history, more, k - 1);
      assert (history + more)[k - 1] == history[k - 1];
    }
  }

  // ----- the archive over any run

  function TxnsOf(log: Log): seq<Txn> {
    if log.Start? then [] else TxnsOf(log.before) + [log.txn]
  }

  /** `log` is the stretch of `history` that starts at its base. */
  ghost predicate SliceOf(log: Log, history: seq<Txn>) {
    var b := log.Header().base;
    b + |TxnsOf(log)| <= |history| && TxnsOf(log) == history[b..b + |TxnsOf(log)|]
  }

  function EndOf(log: Log): nat { log.Header().base + |TxnsOf(log)| }

  /** A database that archives: its history, its live log, the segments by the base in their names, and the base that
      the process has in memory. The two bases differ after a reset that failed before the log was emptied, until the
      database is reopened. */
  datatype Keeper = Keeper(history: seq<Txn>, log: Log, name: nat, archive: map<nat, Log>)
  {
    predicate Stale() { name != log.Header().base }
  }

  datatype Event =
    | Committed(txn: Txn)
    | Archived                     // the segment is in place under its final name
    | Emptied(header: WalHeader)   // the log was reset after it was archived
    | Unemptied                    // the reset failed before it emptied the log
    | Reopened
    | Failed                       // a checkpoint stopped anywhere else

  /** Db::checkpoint_locked: the log is reset only after all of it is archived. A log that has failed takes no commit
      and no reset. */
  ghost predicate Enabled(k: Keeper, e: Event) {
    match e
    case Committed(t) => !k.Stale()
    case Archived => k.log.Then?
    case Emptied(h) => ResetNext(k) && h.base == |k.history| && h.dbId == k.log.Header().dbId
    case Unemptied => ResetNext(k)
    case Reopened => true
    case Failed => true
  }

  ghost predicate ResetNext(k: Keeper) {
    !k.Stale() && k.log.Then? && k.name in k.archive && k.archive[k.name] == k.log
  }

  function Next(k: Keeper, e: Event): Keeper {
    match e
    case Committed(t) => k.(history := k.history + [t], log := Then(k.log, t))
    case Archived => k.(archive := k.archive[k.name := k.log])
    case Emptied(h) => k.(log := Start(h), name := h.base)
    case Unemptied => k.(name := |k.history|)
    case Reopened => k.(name := k.log.Header().base)
    case Failed => k
  }

  ghost predicate IsRun(k: Keeper, events: seq<Event>)
    decreases |events|
  {
    events != [] ==> Enabled(k, events[0]) && IsRun(Next(k, events[0]), events[1..])
  }

  function RunOf(k: Keeper, events: seq<Event>): Keeper
    decreases |events|
  {
    if events == [] then k else RunOf(Next(k, events[0]), events[1..])
  }

  /** A segment under its own base, or one under its end, which nothing that picks it needs. */
  predicate Named(b: nat, log: Log) { log.Header().base == b || (log.Header().base < b && EndOf(log) == b) }

  predicate Own(archive: map<nat, Log>, b: nat) { b in archive && archive[b].Header().base == b }

  /** Segments and the live log are stretches of the history; the live log reaches its end; and
      wherever an archived segment ends, the next one, or the live log, begins. */
  ghost predicate Kept(k: Keeper) {
    && SliceOf(k.log, k.history) && EndOf(k.log) == |k.history| && (k.Stale() ==> k.log.Then? && k.name == |k.history|)
    && (forall b :: b in k.archive ==>
          Named(b, k.archive[b]) && k.archive[b].Then? && k.archive[b].Header().base <= k.log.Header().base)
    && (forall b :: b in k.archive ==>
          SliceOf(k.archive[b], k.history) && k.archive[b].Header().dbId == k.log.Header().dbId)
    && (forall b: nat :: Own(k.archive, b) && b < k.log.Header().base ==>
          Own(k.archive, EndOf(k.archive[b])) || EndOf(k.archive[b]) == k.log.Header().base)
    && (k.log.Header().base != 0 ==> Own(k.archive, 0))
  }

  /** A new database, with nothing committed and nothing archived. */
  function NewKeeper(h: WalHeader): Keeper { Keeper([], Start(h), h.base, map[]) }

  lemma NewIsKept(h: WalHeader)
    requires h.base == 0
    ensures Kept(NewKeeper(h))
  {
  }

  lemma SliceGrows(log: Log, history: seq<Txn>, t: Txn)
    requires SliceOf(log, history)
    ensures SliceOf(log, history + [t])
    ensures log.Header().base + |TxnsOf(log)| == |history| ==> SliceOf(Then(log, t), history + [t])
  {
    var b, n := log.Header().base, |TxnsOf(log)|;
    assert (history + [t])[b..b + n] == history[b..b + n];
    if b + n == |history| {
      assert (history + [t])[b..b + n + 1] == history[b..b + n] + [t];
    }
  }

  lemma StepKeeps(k: Keeper, e: Event)
    requires Kept(k) && Enabled(k, e)
    ensures Kept(Next(k, e))
  {
    match e
    case Committed(t) => CommitKeeps(k, t);
    case Archived => ArchiveKeeps(k);
    case Emptied(h) => EmptyKeeps(k, h);
    case Unemptied =>
    case Reopened =>
    case Failed =>
  }

  lemma CommitKeeps(k: Keeper, t: Txn)
    requires Kept(k) && !k.Stale()
    ensures Kept(Next(k, Committed(t)))
  {
    hide SliceOf;
    SliceGrows(k.log, k.history, t);
    forall b | b in k.archive ensures SliceOf(k.archive[b], k.history + [t]) { SliceGrows(k.archive[b], k.history, t); }
  }

  /** Under a stale name the segment ends where it is named, and takes the place of no other segment's own name. */
  lemma ArchiveKeeps(k: Keeper)
    requires Kept(k) && k.log.Then?
    ensures Kept(Next(k, Archived))
  {
    hide SliceOf;
    var archive := Next(k, Archived).archive;
    forall b: nat | Own(archive, b) && b < k.log.Header().base
      ensures Own(archive, EndOf(archive[b])) || EndOf(archive[b]) == k.log.Header().base
    {
      assert b != k.name && Own(k.archive, b);
    }
  }

  lemma EmptyKeeps(k: Keeper, h: WalHeader)
    requires Kept(k) && Enabled(k, Emptied(h))
    ensures Kept(Next(k, Emptied(h)))
  {
    hide SliceOf, EndOf;
    EmptySlice(h, k.history);
    EmptyEnds(h);
    EndsAfter(k.log);
    assert Own(k.archive, k.log.Header().base);
    forall b: nat | Own(k.archive, b) && b < h.base
      ensures Own(k.archive, EndOf(k.archive[b])) || EndOf(k.archive[b]) == h.base
    {
      if b == k.log.Header().base { assert k.archive[b] == k.log; }
    }
  }

  lemma EndsAfter(log: Log)
    ensures log.Header().base <= EndOf(log) && (log.Then? ==> log.Header().base < EndOf(log))
  {
  }

  lemma EmptyEnds(h: WalHeader)
    ensures EndOf(Start(h)) == h.base
  {
  }

  lemma EmptySlice(h: WalHeader, history: seq<Txn>)
    requires h.base == |history|
    ensures SliceOf(Start(h), history)
  {
  }

  /** Over any run of commits, archivings, resets and failures in between, including a segment archived
      again, longer, after its reset failed. */
  lemma {:induction false} RunKeeps(k: Keeper, events: seq<Event>)
    requires Kept(k) && IsRun(k, events)
    ensures Kept(RunOf(k, events))
    decreases |events|
  {
    if events != [] {
      StepKeeps(k, events[0]);
      RunKeeps(Next(k, events[0]), events[1..]);
    }
  }

  // ----- replaying one transaction

  /** The file is exactly the pages of `st`. */
  ghost predicate FileIs(cells: seq<Option<Cell>>, st: State) {
    && IsState(st) && |cells| == HeaderOf(st).pageCount
    && forall p :: 0 <= p < |cells| ==> cells[p] == Some(PageCell(st[p]))
  }

  function CellAt(cells: seq<Option<Cell>>, p: PageNo): Option<Cell> {
    if p < |cells| then cells[p] else None
  }

  /** Page `p` of the file after the first `j` images were written over `before`. */
  function Overlay(before: seq<Option<Cell>>, images: seq<Image>, j: nat, p: PageNo): Option<Cell>
    requires j <= |images|
  {
    var image := Newest(images, j, p);
    if image.Some? then Some(PageCell(image.value)) else CellAt(before, p)
  }

  ghost predicate Overlaid(cells: seq<Option<Cell>>, before: seq<Option<Cell>>, images: seq<Image>, j: nat)
    requires j <= |images|
  {
    |before| <= |cells| && forall p: PageNo :: CellAt(cells, p) == Overlay(before, images, j, p)
  }

  lemma OverlaidNone(cells: seq<Option<Cell>>, images: seq<Image>)
    ensures Overlaid(cells, cells, images, 0)
  {
  }

  lemma OverlaidNext(cells: seq<Option<Cell>>, before: seq<Option<Cell>>, images: seq<Image>, j: nat)
    requires j < |images| && Overlaid(cells, before, images, j)
    ensures Overlaid(Overwritten(cells, images[j].0, [PageCell(images[j].1)], false), before, images, j + 1)
  {
    var after := Overwritten(cells, images[j].0, [PageCell(images[j].1)], false);
    forall p: PageNo ensures CellAt(after, p) == Overlay(before, images, j + 1, p) {
      assert CellAt(cells, p) == Overlay(before, images, j, p);
      assert Newest(images, j + 1, p) == if images[j].0 == p then Some(images[j].1) else Newest(images, j, p);
    }
  }

  lemma OverlaidIsAfter(cells: seq<Option<Cell>>, before: seq<Option<Cell>>, st: State, t: Txn)
    requires FileIs(before, st) && Extends(st, t) && Overlaid(cells, before, t.Images(), |t.Images()|)
    ensures |cells| >= t.dbSize && FileIs(cells[..t.dbSize], After(st, t))
  {
    AfterIsState(st, t);
    var n := t.dbSize;
    forall p: PageNo | p < n ensures CellAt(cells, p) == Some(PageCell(After(st, t)[p])) {
      NewestInTxn(t, p);
      assert CellAt(cells, p) == Overlay(before, t.Images(), |t.Images()|, p);
    }
    assert CellAt(cells, n - 1).Some?;
    forall p: PageNo | p < n ensures cells[..n][p] == Some(PageCell(After(st, t)[p])) {
      assert CellAt(cells, p) == Some(PageCell(After(st, t)[p]));
    }
  }

  /** Writes the frames of one commit and cuts the file to its size. */
  method Replay(cells: seq<Option<Cell>>, log: Log, prev: FrameNo, c: WalCommit, ghost st: State, ghost t: Txn)
    returns (r: seq<Option<Cell>>)
    requires prev < c.frame <= |log.Flat()|
    ensures FileIs(cells, st) && Extends(st, t) && log.Flat()[prev..c.frame] == t.Images() && c.dbSize == t.dbSize
            ==> FileIs(r, After(st, t))
  {
    hide Overlaid, FileIs, Extends, Overwritten, After;
    r := cells;
    var f := prev + 1;
    ghost var images := log.Flat()[prev..c.frame];
    OverlaidNone(cells, images);
    while f <= c.frame
      invariant prev < f <= c.frame + 1 && Overlaid(r, cells, images, f - 1 - prev)
    {
      var image := log.Flat()[f - 1];
      assert images[f - 1 - prev] == image;
      OverlaidNext(r, cells, images, f - 1 - prev);
      r := Overwritten(r, image.0, [PageCell(image.1)], false);
      f := f + 1;
    }
    if FileIs(cells, st) && Extends(st, t) && images == t.Images() && c.dbSize == t.dbSize {
      OverlaidIsAfter(r, cells, st, t);
      assert |r| == c.dbSize ==> r[..c.dbSize] == r;
    }
    if |r| > c.dbSize { r := r[..c.dbSize]; }
  }

  // ----- what the commits of a segment are

  lemma {:induction false} CommitAt(log: Log, i: nat)
    requires i < |TxnsOf(log)|
    ensures |CommitsOf(log)| == |TxnsOf(log)| && |log.Flat()| == log.Size()
    ensures var prev, c := if i == 0 then 0 else CommitsOf(log)[i - 1].frame, CommitsOf(log)[i];
            && prev < c.frame <= |log.Flat()|
            && log.Flat()[prev..c.frame] == TxnsOf(log)[i].Images()
            && c.dbSize == TxnsOf(log)[i].dbSize
            && c.changeCounter == TxnsOf(log)[i].header.changeCounter
            && c.commitTime == TxnsOf(log)[i].header.commitTime
  {
    var n := |TxnsOf(log.before)|;
    log.FlatSize();
    log.before.FlatSize();
    CommitsCount(log.before);
    if i < n {
      CommitAt(log.before, i);
      var prev, c := if i == 0 then 0 else CommitsOf(log)[i - 1].frame, CommitsOf(log)[i];
      assert log.Flat()[prev..c.frame] == log.before.Flat()[prev..c.frame];
    } else {
      LastFrame(log.before);
      assert log.Flat()[log.before.Size()..log.Size()] == log.txn.Images();
    }
  }

  lemma {:induction false} CommitsCount(log: Log)
    ensures |CommitsOf(log)| == |TxnsOf(log)| == log.Count()
  {
    if log.Then? { CommitsCount(log.before); }
  }

  lemma LastFrame(log: Log)
    ensures log.Size() == if CommitsOf(log) == [] then 0 else CommitsOf(log)[|CommitsOf(log)| - 1].frame
  {
  }

  // ----- recovery to a point

  datatype Target = Target(counter: Option<nat>, time: Option<int>)

  datatype Report = Report(start: nat, counter: nat, time: int, segments: nat, transactions: nat, reached: bool)

  predicate Within(target: Target, counter: nat, time: int) {
    && (target.counter.Some? ==> counter <= target.counter.value)
    && (target.time.Some? ==> time <= target.time.value)
  }

  predicate Done(target: Target, counter: nat) { target.counter.Some? && counter >= target.counter.value }

  /** Where recovery from counter `k` should stop: before the first transaction past the target. */
  function PointOf(history: seq<Txn>, k: nat, target: Target): (r: nat)
    requires k <= |history|
    ensures k <= r <= |history|
    decreases |history| - k
  {
    if k == |history| || Done(target, k) || !Within(target, k + 1, history[k].header.commitTime) then k
    else PointOf(history, k + 1, target)
  }

  /** A counter target at or after the start, and within the history, is met exactly. */
  lemma {:induction false} PointOfCounter(history: seq<Txn>, k: nat, target: Target)
    requires k <= |history| && target.time.None?
    ensures target.counter.None? ==> PointOf(history, k, target) == |history|
    ensures target.counter.Some? && k <= target.counter.value <= |history| ==>
              PointOf(history, k, target) == target.counter.value
    decreases |history| - k
  {
    if k < |history| { PointOfCounter(history, k + 1, target); }
  }

  /** Every transaction up to the point is within the target, and the next one is not. */
  lemma {:induction false} PointOfIsLast(history: seq<Txn>, k: nat, target: Target)
    requires k <= |history| && !Done(target, k)
    ensures var r := PointOf(history, k, target);
            && (forall j :: k <= j < r ==> Within(target, j + 1, history[j].header.commitTime))
            && (r < |history| ==> !Within(target, r + 1, history[r].header.commitTime))
    decreases |history| - k
  {
    if PointOf(history, k, target) != k && !Done(target, k + 1) { PointOfIsLast(history, k + 1, target); }
  }

  /** The same on counters and commit times: the point is not past the counter asked for, no transaction up to it is
      later than the time asked for, and it ends there, at the counter, or before a transaction that is later. */
  lemma {:induction false} PointOfIs(history: seq<Txn>, k: nat, target: Target)
    requires k <= |history|
    ensures var r := PointOf(history, k, target);
            && (target.counter.Some? ==> r <= target.counter.value || r == k)
            && (target.time.Some? ==> forall j :: k <= j < r ==> history[j].header.commitTime <= target.time.value)
            && (r < |history| ==>
                  || (target.counter.Some? && r >= target.counter.value)
                  || (target.time.Some? && history[r].header.commitTime > target.time.value))
    decreases |history| - k
  {
    if PointOf(history, k, target) != k { PointOfIs(history, k + 1, target); }
  }

  /** The state at `counter` is in the file, and its counter and time are those reported. */
  ghost predicate Recovered(cells: seq<Option<Cell>>, rep: Report, first: State, history: seq<Txn>) {
    && IsHistory(first, history)
    && rep.counter <= |history| && FileIs(cells, StateAt(first, history, rep.counter))
    && rep.time == HeaderOf(StateAt(first, history, rep.counter)).commitTime
  }

  /** Counters of a stretch of the history number its transactions. */
  lemma SliceCounters(log: Log, first: State, history: seq<Txn>, i: nat)
    requires IsHistory(first, history) && SliceOf(log, history) && i < |TxnsOf(log)|
    ensures log.Header().base + i < |history| && TxnsOf(log)[i] == history[log.Header().base + i]
    ensures TxnsOf(log)[i].header.changeCounter == log.Header().base + i + 1
    ensures Extends(StateAt(first, history, log.Header().base + i), TxnsOf(log)[i])
  {
    hide Extends, After, IsState;
    var b, n := log.Header().base, |TxnsOf(log)|;
    assert history[b..b + n][i] == history[b + i];
    StateAtIsState(first, history, b + i + 1);
  }

  /** What the segment loop keeps: a true state, on the way to the point asked for. */
  ghost predicate OnCourse(cells: seq<Option<Cell>>, rep: Report, target: Target, point: nat, first: State,
                           history: seq<Txn>) {
    Recovered(cells, rep, first, history) && PointOf(history, rep.counter, target) == point
  }

  lemma OnCourseNext(cells: seq<Option<Cell>>, rep: Report, cells': seq<Option<Cell>>, rep': Report, target: Target,
                     point: nat, first: State, history: seq<Txn>)
    requires OnCourse(cells, rep, target, point, first, history) && !Done(target, rep.counter)
    requires rep.counter < |history|
    requires Within(target, rep.counter + 1, history[rep.counter].header.commitTime)
    requires rep'.counter == rep.counter + 1 && rep'.time == history[rep.counter].header.commitTime
    requires FileIs(cells', After(StateAt(first, history, rep.counter), history[rep.counter]))
    ensures OnCourse(cells', rep', target, point, first, history)
  {
    StateAtIsState(first, history, rep.counter + 1);
  }

  lemma OnCourseEnds(cells: seq<Option<Cell>>, rep: Report, target: Target, point: nat, first: State, history: seq<Txn>)
    requires OnCourse(cells, rep, target, point, first, history)
    ensures rep.counter <= point <= |history|
    ensures Done(target, rep.counter) ==> rep.counter == point
    ensures rep.counter < |history| && !Within(target, rep.counter + 1, history[rep.counter].header.commitTime) ==>
              rep.counter == point
    ensures rep.counter <= |history| && FileIs(cells, StateAt(first, history, rep.counter)) && IsHistory(first, history)
    ensures forall reached :: Recovered(cells, rep.(reached := reached), first, history)
  {
  }

  lemma OnCourseSame(cells: seq<Option<Cell>>, rep: Report, rep': Report, target: Target,
                     point: nat, first: State, history: seq<Txn>)
    requires OnCourse(cells, rep, target, point, first, history) && rep'.counter == rep.counter && rep'.time == rep.time
    ensures OnCourse(cells, rep', target, point, first, history)
  {
  }

  /** The loop over the commits of one segment, oldest first. */
  method ApplySegment(log: Log, cells: seq<Option<Cell>>, rep: Report, target: Target,
                      ghost point: nat, ghost first: State, ghost history: seq<Txn>)
    returns (s: Status, cells': seq<Option<Cell>>, rep': Report, stop: bool)
    requires !Done(target, rep.counter)
    ensures s in {Ok, Corrupt} && rep'.start == rep.start && rep'.counter >= rep.counter
    ensures OnCourse(cells, rep, target, point, first, history) && SliceOf(log, history)
            && log.Header().base <= rep.counter ==>
              && s == Ok && OnCourse(cells', rep', target, point, first, history)
              && (stop ==> rep'.counter == point)
              && (!stop ==> rep'.counter >= log.Header().base + |TxnsOf(log)|)
  {
    hide SliceOf, IsHistory, FileIs, StateAt, Extends, OnCourse, PointOf, Within, Done, CommitsOf, TxnsOf, After;
    hide Log.Flat;
    cells', rep', stop, s := cells, rep, false, Ok;
    var commits := CommitsOf(log);
    var prev, i, applied := 0, 0, false;
    CommitsCount(log);
    ghost var genuine := OnCourse(cells, rep, target, point, first, history) && SliceOf(log, history)
      && log.Header().base <= rep.counter;
    while i < |commits|
      invariant 0 <= i <= |commits| == |TxnsOf(log)| && s == Ok && !stop
      invariant prev == if i == 0 then 0 else commits[i - 1].frame
      invariant rep'.start == rep.start && rep'.counter >= rep.counter && !Done(target, rep'.counter)
      invariant genuine ==>
                  OnCourse(cells', rep', target, point, first, history) && rep'.counter >= log.Header().base + i
    {
      var c := commits[i];
      CommitAt(log, i);
      if genuine {
        OnCourseEnds(cells', rep', target, point, first, history);
        SliceCounters(log, first, history, i);
      }
      if c.changeCounter <= rep'.counter {
        prev, i := c.frame, i + 1;
        continue;
      }
      if !Within(target, c.changeCounter, c.commitTime) {
        stop := true;
        break;
      }
      if c.changeCounter != rep'.counter + 1 {
        s := Corrupt;
        return;
      }
      ghost var wasCells, was := cells', rep';
      cells' := Replay(cells', log, prev, c, if genuine then StateAt(first, history, was.counter)
                       else first, TxnsOf(log)[i]);
      prev := c.frame;
      rep' := rep'.(counter := c.changeCounter, time := c.commitTime, transactions := rep'.transactions + 1);
      if genuine {
        OnCourseNext(wasCells, was, cells', rep', target, point, first, history);
        OnCourseEnds(cells', rep', target, point, first, history);
      }
      applied := true;
      i := i + 1;
      if Done(target, rep'.counter) {
        stop := true;
        break;
      }
    }
    if applied {
      if genuine { OnCourseSame(cells', rep', rep'.(segments := rep'.segments + 1), target, point, first, history); }
      rep' := rep'.(segments := rep'.segments + 1);
    }
  }

  /** What opening a segment or the live log gives: its intact prefix, if the file is a log at all. */
  type Opened = Option<Log>

  /** Archived segments, by the base in their names, are stretches of the history, and so is the live
      log, up to its end; a live log of another database may be in its place. */
  ghost predicate Genuine(archive: map<nat, Opened>, live: Opened, first: State, history: seq<Txn>) {
    && IsHistory(first, history)
    && (forall b :: b in archive ==>
          && archive[b].Some? && SliceOf(archive[b].value, history)
          && Named(b, archive[b].value) && archive[b].value.Header().dbId == HeaderOf(first).dbId)
    && (live.Some? && live.value.Header().dbId == HeaderOf(first).dbId ==>
          SliceOf(live.value, history) && EndOf(live.value) == |history|)
  }

  predicate Has(log: Log, c: nat) { log.Header().base <= c < EndOf(log) }

  /** Some segment, or the live log, carries on from counter `c`. */
  ghost predicate Carries(archive: map<nat, Opened>, live: Opened, dbId: nat, c: nat) {
    || (exists b :: b in archive && archive[b].Some? && archive[b].value.Header().base == b && Has(archive[b].value, c))
    || (live.Some? && live.value.Header().dbId == dbId && Has(live.value, c))
  }

  ghost predicate Unbroken(archive: map<nat, Opened>, live: Opened, dbId: nat, from: nat, to: nat) {
    forall c :: from <= c < to ==> Carries(archive, live, dbId, c)
  }

  lemma LargestExists(keys: set<nat>, n: nat) returns (b: nat)
    requires exists k :: k in keys && k <= n
    ensures b in keys && b <= n && forall k :: k in keys && k <= n ==> k <= b
    decreases n
  {
    if n in keys {
      b := n;
    } else {
      b := LargestExists(keys, n - 1);
    }
  }

  predicate IsLargest(keys: set<nat>, counter: nat, b: nat) {
    b <= counter && forall k :: k in keys && k <= counter ==> k <= b
  }

  /** Of the segments that begin by `counter`, the one that begins last. */
  method Pick(segments: map<nat, Opened>, counter: nat) returns (b: Option<nat>)
    ensures b.None? ==> forall k :: k in segments ==> k > counter
    ensures b.Some? ==> b.value in segments && b.value <= counter
                        && forall k :: k in segments && k <= counter ==> k <= b.value
  {
    b := None;
    if k :| k in segments && k <= counter {
      ghost var largest := LargestExists(segments.Keys, counter);
      assert IsLargest(segments.Keys, counter, largest);
      var chosen: nat :| chosen in segments.Keys && IsLargest(segments.Keys, counter, chosen);
      assert IsLargest(segments.Keys, counter, chosen);
      b := Some(chosen);
    }
  }

  /** When every segment left starts past the counter and every segment used ends before it, only the
      live log can carry on. */
  lemma CarriedByLive(archive: map<nat, Opened>, segments: map<nat, Opened>, live: Opened, dbId: nat, from: nat,
                      to: nat, c: nat)
    requires from <= c < to && Unbroken(archive, live, dbId, from, to)
    requires forall b :: b in archive ==> archive[b].Some?
    requires forall b :: b in archive && b in segments ==> b > c
    requires forall b :: b in archive && b !in segments ==> EndOf(archive[b].value) <= c
    ensures live.Some? && live.value.Header().dbId == dbId && Has(live.value, c)
  {
    assert Carries(archive, live, dbId, c);
  }

  lemma BackupHeader(backup: seq<Option<Cell>>, first: State, history: seq<Txn>, k: nat)
    requires IsHistory(first, history) && k <= |history| && FileIs(backup, StateAt(first, history, k))
    ensures |backup| > 0 && backup[0].Some? && backup[0].value.PageCell? && backup[0].value.page.HeaderPage?
    ensures var h := backup[0].value.page.header;
            h.changeCounter == k && h.dbId == HeaderOf(first).dbId && h == HeaderOf(StateAt(first, history, k))
  {
    StateAtIsState(first, history, k);
  }

  lemma OnCourseStarts(backup: seq<Option<Cell>>, rep: Report, target: Target, first: State, history: seq<Txn>, k: nat)
    requires IsHistory(first, history) && k <= |history| && FileIs(backup, StateAt(first, history, k))
    requires rep.counter == k && rep.time == HeaderOf(StateAt(first, history, k)).commitTime
    ensures OnCourse(backup, rep, target, PointOf(history, k, target), first, history)
  {
  }

  /** The segment loop: the segment to pick, then the live log. */
  method ReplaySegments(backup: seq<Option<Cell>>, archive: map<nat, Opened>, live: Opened, target: Target,
                        ghost first: State, ghost history: seq<Txn>, ghost k: nat)
    returns (s: Status, cells: seq<Option<Cell>>, rep: Report)
    ensures s == Ok && target.counter.Some? ==> (rep.reached <==> rep.counter == target.counter.value)
    ensures Genuine(archive, live, first, history) && k <= |history| && FileIs(backup, StateAt(first, history, k)) ==>
              && s == Ok && rep.start == k
              && Recovered(cells, rep, first, history)
              && k <= rep.counter <= PointOf(history, k, target)
              && (Unbroken(archive, live, HeaderOf(first).dbId, k, PointOf(history, k, target)) ==>
                    rep.counter == PointOf(history, k, target))
  {
    hide SliceOf, FileIs, StateAt, OnCourse, PointOf, Within, Done, CommitsOf, TxnsOf, Unbroken, IsHistory, Recovered;
    hide Has;
    ghost var genuine := Genuine(archive, live, first, history) && k <= |history|
      && FileIs(backup, StateAt(first, history, k));
    if genuine { BackupHeader(backup, first, history, k); }
    if |backup| == 0 || backup[0].None? || !backup[0].value.PageCell? || !backup[0].value.page.HeaderPage? {
      return Corrupt, backup, Report(0, 0, 0, 0, 0, false);
    }
    var header := backup[0].value.page.header;
    s, cells, rep := Ok, backup, Report(header.changeCounter, header.changeCounter, header.commitTime, 0, 0, false);
    ghost var point := if genuine then PointOf(history, k, target) else 0;
    if genuine { OnCourseStarts(backup, rep, target, first, history, k); }
    var segments, stop := archive, false;
    while !stop && !Done(target, rep.counter)
      invariant s == Ok && rep.start == header.changeCounter && segments.Keys <= archive.Keys
      invariant forall b :: b in segments ==> segments[b] == archive[b]
      invariant genuine ==> OnCourse(cells, rep, target, point, first, history) && rep.counter >= k
      invariant genuine && !stop ==> forall b :: b in archive && b !in segments ==>
                  EndOf(archive[b].value) <= rep.counter
      invariant genuine && stop && Unbroken(archive, live, header.dbId, k, point) ==> rep.counter == point
      decreases |segments|
    {
      var picked := Pick(segments, rep.counter);
      if genuine { OnCourseEnds(cells, rep, target, point, first, history); }
      if picked.Some? {
        var segment := segments[picked.value];
        segments := segments - {picked.value};
        if segment.None? || segment.value.Header().dbId != header.dbId || segment.value.Header().base > rep.counter {
          return Corrupt, cells, rep;
        }
        s, cells, rep, stop := ApplySegment(segment.value, cells, rep, target, point, first, history);
        if s != Ok { return; }
      } else {
        if genuine && rep.counter < point && Unbroken(archive, live, header.dbId, k, point) {
          CarriedByLive(archive, segments, live, header.dbId, k, point, rep.counter);
        }
        if live.None? || live.value.Header().dbId != header.dbId || live.value.Header().base > rep.counter {
          break;
        }
        s, cells, rep, stop := ApplySegment(live.value, cells, rep, target, point, first, history);
        if s != Ok { return; }
        break;
      }
    }
    if genuine { OnCourseEnds(cells, rep, target, point, first, history); }
    rep := rep.(reached := target.counter.None? || rep.counter == target.counter.value);
  }

  /** recover_to_point. `first` and `history` are what the backup and the logs were taken from. */
  method RecoverToPoint(backup: seq<Option<Cell>>, archive: map<nat, Opened>, live: Opened, target: Target,
                        ghost first: State, ghost history: seq<Txn>, ghost k: nat)
    returns (s: Status, cells: seq<Option<Cell>>, rep: Report)
    ensures s == Ok && target.counter.Some? ==> (rep.reached <==> rep.counter == target.counter.value)
    ensures Genuine(archive, live, first, history) && k <= |history| && FileIs(backup, StateAt(first, history, k)) ==>
              && s == Ok && rep.start == k
              && Recovered(cells, rep, first, history)
              && k <= rep.counter <= PointOf(history, k, target)
              && (target.counter.Some? ==> rep.counter <= target.counter.value || rep.counter == k)
              && (target.time.Some? ==>
                    forall j :: k <= j < rep.counter ==> history[j].header.commitTime <= target.time.value)
              && (Unbroken(archive, live, HeaderOf(first).dbId, k, PointOf(history, k, target)) ==>
                    && rep.counter == PointOf(history, k, target)
                    && (rep.counter < |history| ==>
                          || (target.counter.Some? && rep.counter >= target.counter.value)
                          || (target.time.Some? && history[rep.counter].header.commitTime > target.time.value)))
  {
    hide Genuine, FileIs, StateAt, PointOf, Unbroken, IsHistory, Recovered;
    if k <= |history| { PointOfIs(history, k, target); }
    s, cells, rep := ReplaySegments(backup, archive, live, target, first, history, k);
    if Genuine(archive, live, first, history) && k <= |history| && FileIs(backup, StateAt(first, history, k)) {
      WithinHistory(cells, rep, first, history);
    }
  }

  lemma WithinHistory(cells: seq<Option<Cell>>, rep: Report, first: State, history: seq<Txn>)
    requires Recovered(cells, rep, first, history)
    ensures rep.counter <= |history|
  {
  }

  // ----- the pages of the file that recovery leaves

  lemma {:induction false} WrittenAt(first: State, history: seq<Txn>, n: nat, j: nat, w: nat)
    requires IsHistory(first, history) && j < n <= |history| && w < |history[j].writes|
    requires forall x :: w < x < |history[j].writes| ==> history[j].writes[x].0 != history[j].writes[w].0
    requires forall m :: j < m < n ==> history[j].writes[w].0 !in PagesOf(history[m].writes)
    ensures var page := history[j].writes[w].0;
            0 < page && page in StateAt(first, history, n)
            && StateAt(first, history, n)[page] == history[j].writes[w].1
    decreases n
  {
    hide IsHistory, StateAt, Newest, PagesOf;
    var page := history[j].writes[w].0;
    if j == n - 1 {
      LastIsNewest(history[j].writes, w);
      PageWritten(first, history, j, w);
    } else {
      WrittenAt(first, history, n - 1, j, w);
      NotIn(history[n - 1].writes, page);
    }
    OneMore(first, history, n, page);
  }

  lemma {:induction false} UnwrittenAt(first: State, history: seq<Txn>, n: nat, page: PageNo)
    requires IsHistory(first, history) && n <= |history| && 0 < page && page in first
    requires forall m :: 0 <= m < n ==> page !in PagesOf(history[m].writes)
    ensures page in StateAt(first, history, n) && StateAt(first, history, n)[page] == first[page]
    decreases n
  {
    hide IsHistory, Newest, PagesOf, After;
    if n > 0 {
      UnwrittenAt(first, history, n - 1, page);
      NotIn(history[n - 1].writes, page);
      OneMore(first, history, n, page);
    }
  }

  lemma NotIn(writes: seq<Image>, page: PageNo)
    requires page !in PagesOf(writes)
    ensures Newest(writes, |writes|, page) == None
  {
    hide Newest;
    NotWritten(writes, page);
  }

  lemma PageWritten(first: State, history: seq<Txn>, j: nat, w: nat)
    requires IsHistory(first, history) && j < |history| && w < |history[j].writes|
    ensures 0 < history[j].writes[w].0
  {
    hide StateAt, Newest;
    assert Extends(StateAt(first, history, j), history[j]);
  }

  lemma OneMore(first: State, history: seq<Txn>, n: nat, page: PageNo)
    requires IsHistory(first, history) && 0 < n <= |history| && 0 < page
    ensures var st, st' := StateAt(first, history, n - 1), StateAt(first, history, n);
            var newest := Newest(history[n - 1].writes, |history[n - 1].writes|, page);
            if newest.Some? then page in st' && st'[page] == newest.value
            else page in st ==> page in st' && st'[page] == st[page]
  {
    hide After, Newest, IsState;
    var st, t := StateAt(first, history, n - 1), history[n - 1];
    assert Extends(st, t);
    NewestInTxn(t, page);
    AfterPage(st, t, page);
    if Newest(t.writes, |t.writes|, page).Some? { SomeWrite(t.writes, page); }
    if page in st { PageCounted(st, page); }
  }

  lemma SomeWrite(writes: seq<Image>, page: PageNo)
    requires Newest(writes, |writes|, page).Some?
    ensures exists i :: 0 <= i < |writes| && writes[i].0 == page
  {
  }

  lemma PageCounted(st: State, page: PageNo)
    requires IsState(st) && page in st
    ensures page < HeaderOf(st).pageCount
  {
  }

  lemma AfterPage(st: State, t: Txn, page: PageNo)
    requires Extends(st, t)
    ensures var newest := Newest(t.Images(), |t.Images()|, page);
            page < t.header.pageCount && (newest.Some? || page in st) ==>
              page in After(st, t) && After(st, t)[page] == if newest.Some? then newest.value else st[page]
    ensures IsState(st) && t.header.pageCount >= HeaderOf(st).pageCount
  {
    hide Newest;
  }

  /** A file recovered to counter `n` has exactly the pages the `n`-th header counts; each that was written by then has
      the image written last, and any other but page 0 is as at the start of the history. */
  lemma RecoveredPages(cells: seq<Option<Cell>>, first: State, history: seq<Txn>, n: nat, j: nat, w: nat, page: PageNo)
    requires IsHistory(first, history) && 0 < n <= |history| && FileIs(cells, StateAt(first, history, n))
    requires j < n && w < |history[j].writes|
    requires forall x :: w < x < |history[j].writes| ==> history[j].writes[x].0 != history[j].writes[w].0
    requires forall m :: j < m < n ==> history[j].writes[w].0 !in PagesOf(history[m].writes)
    requires 0 < page && page in first && forall m :: 0 <= m < n ==> page !in PagesOf(history[m].writes)
    ensures |cells| == history[n - 1].header.pageCount && cells[0] == Some(PageCell(HeaderPage(history[n - 1].header)))
    ensures history[j].writes[w].0 < |cells| && cells[history[j].writes[w].0] == Some(PageCell(history[j].writes[w].1))
    ensures page < |cells| && cells[page] == Some(PageCell(first[page]))
  {
    hide StateAt, IsHistory;
    StateAtIsState(first, history, n);
    WrittenAt(first, history, n, j, w);
    UnwrittenAt(first, history, n, page);
  }

  // ----- what the archive of any run supports

  function Segments(k: Keeper): map<nat, Opened> { map b | b in k.archive :: Some(k.archive[b]) }

  /** Walking from one segment to the next reaches every counter below the live log. */
  lemma {:induction false} ChainCarries(k: Keeper, b: nat, c: nat) returns (at: nat)
    requires Kept(k) && Own(k.archive, b) && b <= c < k.log.Header().base
    ensures Own(k.archive, at) && Has(k.archive[at], c)
    decreases k.log.Header().base - b
  {
    hide SliceOf;
    if Has(k.archive[b], c) {
      at := b;
    } else {
      at := ChainCarries(k, EndOf(k.archive[b]), c);
    }
  }

  /** The archive of any run is genuine, carries everything up to the live log, and with the live log the
      whole history. */
  lemma KeptIsUnbroken(k: Keeper, first: State)
    requires Kept(k) && IsHistory(first, k.history) && k.log.Header().dbId == HeaderOf(first).dbId
    ensures Genuine(Segments(k), Some(k.log), first, k.history) && Genuine(Segments(k), None, first, k.history)
    ensures Unbroken(Segments(k), Some(k.log), HeaderOf(first).dbId, 0, |k.history|)
    ensures Unbroken(Segments(k), None, HeaderOf(first).dbId, 0, k.log.Header().base)
  {
    hide SliceOf, StateAt;
    forall c: nat | c < k.log.Header().base
      ensures Carries(Segments(k), None, HeaderOf(first).dbId, c)
      ensures Carries(Segments(k), Some(k.log), HeaderOf(first).dbId, c)
    {
      var at := ChainCarries(k, 0, c);
      assert at in Segments(k) && Segments(k)[at].value.Header().base == at && Has(Segments(k)[at].value, c);
    }
    assert forall c :: k.log.Header().base <= c < |k.history| ==> Has(k.log, c);
  }

  lemma {:induction false} RunKeepsId(k: Keeper, events: seq<Event>)
    requires IsRun(k, events)
    ensures RunOf(k, events).log.Header().dbId == k.log.Header().dbId
    decreases |events|
  {
    if events != [] { RunKeepsId(Next(k, events[0]), events[1..]); }
  }

  /** The transactions of the commits among the events. */
  function CommitsIn(events: seq<Event>): seq<Txn>
    decreases |events|
  {
    if events == [] then [] else (if events[0].Committed? then [events[0].txn] else []) + CommitsIn(events[1..])
  }

  lemma {:induction false} HistoryIsCommits(k: Keeper, events: seq<Event>)
    ensures RunOf(k, events).history == k.history + CommitsIn(events)
    decreases |events|
  {
    if events != [] {
      HistoryIsCommits(Next(k, events[0]), events[1..]);
      var e := events[0];
      if e.Committed? {
        assert k.history + [e.txn] + CommitsIn(events[1..]) == k.history + ([e.txn] + CommitsIn(events[1..]));
      }
    }
  }

  /** From a new database on, after any run, and from a backup taken at any counter: with the live log, recovery
      reports exactly the point asked for, and a counter target between the backup and the end is reached; without
      it, so it does for every point up to the live log's base. */
  method RecoverFromRun(h: WalHeader, events: seq<Event>, k: Keeper, backup: seq<Option<Cell>>, at: nat, target: Target,
                        withLog: bool, ghost first: State)
    returns (s: Status, cells: seq<Option<Cell>>, rep: Report)
    requires IsRun(NewKeeper(h), events) && k == RunOf(NewKeeper(h), events) && IsHistory(first, k.history)
    requires h.base == 0 && h.dbId == HeaderOf(first).dbId && at <= |k.history|
    requires FileIs(backup, StateAt(first, k.history, at))
    ensures k.history == CommitsIn(events)
    ensures s == Ok && Recovered(cells, rep, first, k.history) && rep.counter <= PointOf(k.history, at, target)
    ensures at <= rep.counter && (target.counter.Some? ==> rep.counter <= target.counter.value || rep.counter == at)
    ensures target.time.Some? ==>
              forall j :: at <= j < rep.counter ==> k.history[j].header.commitTime <= target.time.value
    ensures withLog && rep.counter < |k.history| ==>
              || (target.counter.Some? && rep.counter >= target.counter.value)
              || (target.time.Some? && k.history[rep.counter].header.commitTime > target.time.value)
    ensures withLog || PointOf(k.history, at, target) <= k.log.Header().base ==>
              rep.counter == PointOf(k.history, at, target)
    ensures target.time.None? && target.counter.Some? && at <= target.counter.value <= |k.history|
            && (withLog || target.counter.value <= k.log.Header().base) ==>
              rep.reached && FileIs(cells, StateAt(first, k.history, target.counter.value))
    ensures target == Target(None, None) && withLog ==> FileIs(cells, StateAt(first, k.history, |k.history|))
  {
    hide Genuine, IsHistory, FileIs, StateAt, PointOf, Kept, IsRun, RunOf;
    NewIsKept(h);
    RunKeeps(NewKeeper(h), events);
    RunKeepsId(NewKeeper(h), events);
    HistoryIsCommits(NewKeeper(h), events);
    KeptIsUnbroken(k, first);
    KeptEnds(k);
    if target.time.None? { PointOfCounter(k.history, at, target); }
    s, cells, rep :=
      RecoverToPoint(backup, Segments(k), if withLog then Some(k.log) else None, target, first, k.history, at);
  }

  lemma KeptEnds(k: Keeper)
    requires Kept(k)
    ensures k.log.Header().base <= |k.history|
  {
  }
}

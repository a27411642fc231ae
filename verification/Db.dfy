/** The pager (engine/src/engine/db.cpp): opening and recovery, commits, checkpoints,
    snapshot reads through the page cache, and whole runs of all of them.

    `acked` is the last acknowledged state. `Valid` says that whatever happens to the
    pending operations of both files, opening will find that state, or that state
    plus the one transaction in doubt. */
module Database {
  import opened PageFormat
  import opened Disk
  import opened LogFormat
  import opened Protocol
  import opened WalFile

  /** A reader: its snapshot frame, and the committed state it must see. */
  datatype View = View(snapshot: FrameNo, state: State)

  type Key = (PageNo, FrameNo)

  /** Reading as of frame `n` gives exactly the pages of `st`. */
  ghost predicate Shows(flat: seq<Image>, cells: seq<Option<Cell>>, n: FrameNo, st: State) {
    && n <= |flat|
    && forall p :: p in st ==> PageAt(flat, cells, n, p) == Some(PageCell(st[p]))
  }

  /** The uncached read: the newest frame in the snapshot, else the data file. */
  function PageAt(flat: seq<Image>, cells: seq<Option<Cell>>, n: FrameNo, p: PageNo): Option<Cell>
    requires n <= |flat|
  {
    var f := NewestFrame(flat, n, p);
    if f != 0 then Some(PageCell(flat[f - 1].1)) else if p < |cells| then cells[p] else None
  }

  /** A cached page is what an uncached read of the same key would return. A copy of a data-file
      page may be out of date only if a checkpoint may have overwritten the page, and then the
      first `floor` frames hold it, so no snapshot looks for it in the file. */
  ghost predicate Coherent(key: Key, page: Page, flat: seq<Image>, cells: seq<Option<Cell>>, floor: nat)
    requires floor <= |flat|
  {
    if key.1 != 0 then key.1 <= |flat| && flat[key.1 - 1] == (key.0, page)
    else NewestFrame(flat, floor, key.0) != 0 || (key.0 < |cells| && cells[key.0] == Some(PageCell(page)))
  }

  lemma {:induction false} NewestGrows(flat: seq<Image>, a: nat, b: nat, p: PageNo)
    requires a <= b <= |flat| && NewestFrame(flat, a, p) != 0
    ensures NewestFrame(flat, b, p) != 0
    decreases b
  {
    if a < b && flat[b - 1].0 != p { NewestGrows(flat, a, b - 1, p); }
  }

  /** A cache hit returns what the uncached read would. */
  lemma HitIsRight(key: Key, page: Page, flat: seq<Image>, cells: seq<Option<Cell>>, floor: nat, n: nat)
    requires floor <= n <= |flat| && Coherent(key, page, flat, cells, floor)
    requires key.1 == NewestFrame(flat, n, key.0)
    ensures PageAt(flat, cells, n, key.0) == Some(PageCell(page))
  {
    if key.1 == 0 && NewestFrame(flat, floor, key.0) != 0 { NewestGrows(flat, floor, n, key.0); }
  }

  /** A commit changes no snapshot. */
  lemma ShowsAppend(flat: seq<Image>, more: seq<Image>, cells: seq<Option<Cell>>, n: FrameNo, st: State)
    requires Shows(flat, cells, n, st)
    ensures Shows(flat + more, cells, n, st)
  {
    forall p | p in st ensures PageAt(flat + more, cells, n, p) == Some(PageCell(st[p])) {
      NewestPrefix(flat, more, n, p);
    }
  }

  lemma CoherentAppend(key: Key, page: Page, flat: seq<Image>, more: seq<Image>, cells: seq<Option<Cell>>, floor: nat)
    requires floor <= |flat| && Coherent(key, page, flat, cells, floor)
    ensures Coherent(key, page, flat + more, cells, floor)
  {
    NewestPrefix(flat, more, floor, key.0);
  }

  /** An admissible data file under its log shows the acknowledged state. */
  lemma LiveShows(log: Log, doubt: Option<Txn>, f: File, st: State)
    requires EndsAt(log, st) && DataFits(f, Live(log, doubt), st)
    ensures Shows(log.Flat(), f.cells, |log.Flat()|, st)
  {
    forall p | p in st ensures PageAt(log.Flat(), f.cells, |log.Flat()|, p) == Some(PageCell(st[p])) {
      assert Logged(log, p).Some? ==> st[p] == Logged(log, p).value;
    }
  }

  /** The eviction list has the keys of the cache. */
  ghost predicate InStep(cache: map<Key, Page>, lru: seq<Key>) { forall k :: k in cache <==> k in lru }

  lemma Evicted(cache: map<Key, Page>, lru: seq<Key>)
    requires InStep(cache, lru) && lru != []
    ensures var last := lru[|lru| - 1]; InStep(cache - {last}, Without(lru[..|lru| - 1], last))
  {
    hide Without;
    var n := |lru| - 1;
    assert lru == lru[..n] + [lru[n]];
  }

  datatype Handle = Handle(snapshot: FrameNo, pageCount: nat)

  class Db {
    const vfs: FaultVfs
    const wal: Wal
    const threshold: nat     // checkpoint_threshold_frames
    const capacity: nat      // cache_pages, at least 8
    var isOpen: bool
    var dbId: nat
    var cache: map<Key, Page>
    var lru: seq<Key>
    var activeReaders: nat
    var nextReader: nat

    ghost var mode: Mode
    ghost var acked: State
    ghost var views: map<nat, View>   // the active readers
    ghost var floor: nat              // frames the last checkpoint attempt may have copied

    /** What survives the process: the files, under the protocol. */
    ghost predicate Durable()
      reads this`mode, this`acked, vfs`files, vfs`entropy
    {
      && Sound(mode, acked, vfs.entropy)
      && Safe(DataFile, vfs.files.data, mode, acked)
      && Safe(LogFile, vfs.files.log, mode, acked)
    }

    /** The log in memory against the protocol. */
    ghost predicate LogInForce()
      reads this`mode, this`dbId, wal, vfs`files
    {
      && wal.vfs == vfs
      && wal.Memory()
      && wal.header.dbId == dbId
      && match mode
         case Creating => false
         case Settled(_, _) => wal.failed && wal.log.Start?
         case Live(log, doubt) => wal.log == log && (!wal.failed ==> doubt.None? && wal.Clean())
    }

    ghost predicate CacheOk()
      reads this`cache, this`lru, this`floor, this`acked, wal, vfs`files
    {
      CacheOver(wal.log.Flat(), acked, vfs.files.data.cache)
    }

    ghost predicate CacheOver(frames: seq<Image>, st: State, data: File)
      reads this`cache, this`lru, this`floor
    {
      && floor <= |frames| && data.Present?
      && (forall k :: k in cache ==> k.0 in st && Coherent(k, cache[k], frames, data.cells, floor))
      && (forall k :: k in cache <==> k in lru)
    }

    ghost predicate ViewsOk()
      reads this`views, this`activeReaders, this`nextReader, this`floor, this`acked, wal, vfs`files
    {
      ViewsOver(wal.log.Flat(), acked, vfs.files.data.cache)
    }

    ghost predicate ViewsOver(frames: seq<Image>, st: State, data: File)
      reads this`views, this`activeReaders, this`nextReader, this`floor
    {
      && |views| == activeReaders && (forall r :: r in views ==> r < nextReader) && data.Present?
      && forall r :: r in views ==>
           && floor <= views[r].snapshot
           && IsState(views[r].state) && views[r].state.Keys <= st.Keys
           && Shows(frames, data.cells, views[r].snapshot, views[r].state)
    }

    ghost predicate Valid()
      reads this, wal, vfs
    {
      && wal.vfs == vfs && vfs.Valid() && Durable()
      && (isOpen && !vfs.crashed ==> Running())
    }

    ghost predicate Running()
      requires wal.vfs == vfs && Durable()
      reads this, wal, vfs`files, vfs`entropy
    {
      mode != Creating && HeaderOf(acked).dbId == dbId && LogInForce() && CacheOk() && ViewsOk()
    }

    constructor (cachePages: nat, checkpointFrames: nat)
      ensures Valid() && fresh(vfs) && fresh(wal) && !vfs.crashed && !isOpen && mode == Creating
    {
      var disk := new FaultVfs();
      vfs := disk;
      wal := new Wal(disk);
      threshold := checkpointFrames;
      capacity := if cachePages < 8 then 8 else cachePages;
      isOpen, dbId, cache, lru, activeReaders, nextReader := false, 0, map[], [], 0, 0;
      mode, acked, views, floor := Creating, map[], map[], 0;
    }

    // ----- opening

    /** Db::open, on whatever the files hold: a fresh file is created, a torn page 0 is taken from the
        log, the log is recovered. It never refuses: it fails only if the medium fails under it, and
        then nothing acknowledged is lost. */
    method Open() returns (s: Status)
      requires Valid()
      modifies this, wal, vfs
      ensures Valid() && s in {Ok, IoError, Crashed} && (s == Crashed ==> vfs.crashed)
      ensures vfs.injecting == old(vfs.injecting)
      ensures s == Ok ==> isOpen && !vfs.crashed && mode.Live? && InDoubt(mode) == None && !wal.failed && views == map[]
      ensures s != Ok ==> !isOpen
      ensures !vfs.injecting ==> s == Ok
      ensures old(vfs.crashed) ==> s == Crashed
      ensures Resolved(old(mode), old(acked), mode, acked, s)
    {
      hide Safe, Sound, EndsAt, OpensTo, IsState, Wal.Memory, After, HeaderContinues, Db.Running;
      isOpen, cache, lru, activeReaders := false, map[], [], 0;
      views, floor := map[], 0;
      if vfs.crashed { return Crashed; }
      s := OpenFile();
      if s != Ok { return; }
      var header, fromLog;
      s, header, fromLog := FindHeader();
      if s != Ok { return; }
      s := BarrierData();
      if s != Ok { return; }
      if !fromLog {
        s := OpenLog(header);
        if s != Ok { return; }
      }
      Finish(header);
    }

    /** Creates the data file if there is none or it is empty. */
    method OpenFile() returns (s: Status)
      requires Valid() && !isOpen && !vfs.crashed
      modifies vfs
      ensures Valid() && s in {Ok, IoError, Crashed} && (s == Crashed <==> vfs.crashed)
      ensures !vfs.injecting ==> s == Ok
      ensures vfs.injecting == old(vfs.injecting)
      ensures s == Ok ==> vfs.files.data.cache.Present? && vfs.files.data.cache.cells != []
    {
      hide EndsAt;
      SafeCache(DataFile, vfs.files.data, mode, acked, vfs.entropy);
      var found;
      s, found := vfs.Exists(DataFile);
      s := vfs.Open(DataFile);
      if s != Ok { return; }
      if !found {
        SafeRecord(DataFile, old(vfs.files.data), Create, mode, acked);
      }
      if !found || |vfs.files.data.cache.cells| == 0 {
        s := InitFile();
      }
    }

    /** The `init` step of Db::open. */
    method InitFile() returns (s: Status)
      requires Valid() && !isOpen && !vfs.crashed && mode == Creating && vfs.files.data.cache.Present?
      modifies vfs
      ensures Valid() && s in {Ok, IoError, Crashed} && (s == Crashed <==> vfs.crashed)
      ensures !vfs.injecting ==> s == Ok
      ensures vfs.injecting == old(vfs.injecting)
      ensures s == Ok ==> vfs.files.data.cache.Present? && |vfs.files.data.cache.cells| == 1
      ensures s == Ok ==> vfs.files.data.cache.cells[0].Some? && IsInitial(vfs.files.data.cache.cells[0].value)
    {
      hide Safe;
      var id := vfs.Random();
      var page := HeaderPage(DbHeader(1, 0, 0, 0, id, 0));
      SafeRecord(DataFile, vfs.files.data, Truncate(0), mode, acked);
      s := vfs.Truncate(DataFile, 0);
      if s != Ok { return; }
      ghost var data := vfs.files.data;
      assert data.cache.cells == [];
      s := vfs.Write(DataFile, 0, [PageCell(page)]);
      if s != Ok {
        SafeWroteSome(DataFile, data, 0, [PageCell(page)], vfs.files.data, mode, acked);
        return;
      }
      SafeRecord(DataFile, data, Write(0, [PageCell(page)], false), mode, acked);
      SafeSynced(DataFile, vfs.files.data, mode, acked, vfs.entropy);
      s := vfs.Sync(DataFile);
      if s != Ok { return; }
      s := vfs.SyncDirectory();
    }

    /** Page 0, from the file or, if a crash tore it there, from the log. */
    method FindHeader() returns (s: Status, header: DbHeader, fromLog: bool)
      requires Valid() && !isOpen && !vfs.crashed
      requires vfs.files.data.cache.Present? && vfs.files.data.cache.cells != []
      modifies this`mode, wal, vfs
      ensures Valid() && s in {Ok, IoError, Crashed} && (s == Crashed <==> vfs.crashed)
      ensures !vfs.injecting ==> s == Ok
      ensures vfs.injecting == old(vfs.injecting) && mode == old(mode)
      ensures s == Ok && !fromLog ==> HeaderInFile(header)
      ensures s == Ok && mode.Creating? ==> !fromLog && |vfs.files.data.cache.cells| == 1
      ensures s == Ok && fromLog ==> LogOpened() && mode.Live? && HeaderContinues(header, wal.log)
    {
      header, fromLog := DbHeader(0, 0, 0, 0, 0, 0), false;
      var cell;
      s, cell := vfs.Read(DataFile, 0);
      if s != Ok { return; }
      if cell.Some? && cell.value.PageCell? && cell.value.page.HeaderPage? && cell.value.page.header.pageCount != 0 {
        header := cell.value.page.header;
        SafeCache(DataFile, vfs.files.data, mode, acked, vfs.entropy);
        return;
      }
      TornHeader();
      s, fromLog, header := HeaderFromLog();
      if s != Ok || fromLog { return; }
      // Power was lost while the database was being made: nothing but a first page can be there.
      if |vfs.files.data.cache.cells| > 1 { assert false; }
      s := InitFile();
      if s != Ok { return; }
      s, cell := vfs.Read(DataFile, 0);
      if s != Ok { return; }
      header := cell.value.page.header;
    }

    /** Where the data file holds no usable header page, the committed header is in the log or there is none yet. */
    lemma TornHeader()
      requires Valid() && vfs.files.data.cache.Present? && vfs.files.data.cache.cells != []
      requires var c := vfs.files.data.cache.cells[0];
               !(c.Some? && c.value.PageCell? && c.value.page.HeaderPage? && c.value.page.header.pageCount != 0)
      ensures mode.Creating? || (mode.Live? && mode.log.Then?)
      ensures mode.Creating? ==> |vfs.files.data.cache.cells| <= 1 && vfs.files.log.cache.Absent?
    {
      SafeCache(DataFile, vfs.files.data, mode, acked, vfs.entropy);
      SafeCache(LogFile, vfs.files.log, mode, acked, vfs.entropy);
    }

    /** Db::recover_page0_from_wal. */
    method HeaderFromLog() returns (s: Status, found: bool, header: DbHeader)
      requires Valid() && !isOpen && !vfs.crashed
      requires mode.Creating? || (mode.Live? && mode.log.Then?)
      requires mode.Creating? ==> vfs.files.log.cache.Absent?
      modifies wal, vfs
      ensures Valid() && s in {Ok, IoError, Crashed} && (s == Crashed <==> vfs.crashed)
      ensures !vfs.injecting ==> s == Ok
      ensures vfs.injecting == old(vfs.injecting) && vfs.files.data == old(vfs.files.data)
      ensures s == Ok ==> found == mode.Live?
      ensures s == Ok && found ==> LogOpened() && HeaderContinues(header, wal.log)
    {
      hide Safe, EndsAt, IsState, Sound, OpensTo;
      header, found := DbHeader(0, 0, 0, 0, 0, 0), false;
      SafeCache(LogFile, vfs.files.log, mode, acked, vfs.entropy);
      s, found := vfs.Exists(LogFile);
      if !found { return; }
      LiveHeader(vfs.files.log.cache, mode, acked, vfs.entropy);
      var cell;
      s, cell := vfs.Read(LogFile, 0);
      if s != Ok { return; }
      ghost var after;
      s, after := wal.Open(cell.value.header.dbId, cell.value.header.base, mode, acked);
      SoundLater(mode, acked, old(vfs.entropy), vfs.entropy);
      if s != Ok { return; }
      s, header := PageZero();
    }

    method PageZero() returns (s: Status, header: DbHeader)
      requires Valid() && !isOpen && !vfs.crashed && mode.Live? && mode.log.Then? && LogOpened()
      modifies vfs`crashed
      ensures Valid() && s in {Ok, Crashed} && (s == Crashed <==> vfs.crashed)
      ensures !vfs.injecting ==> s == Ok
      ensures LogOpened() && (s == Ok ==> HeaderContinues(header, wal.log))
    {
      hide Safe, EndsAt, IsState, Sound, OpensTo, HeaderContinues;
      PageZeroLogged();
      var frame := wal.Find(0, wal.lastCommit);
      var page;
      s, page := wal.ReadFramePage(frame);
      header := if s == Ok then page.header else DbHeader(0, 0, 0, 0, 0, 0);
    }

    /** The newest page 0 in a recovered log is its last commit's. */
    lemma PageZeroLogged()
      requires Valid() && LogOpened() && mode.Live? && mode.log.Then?
      ensures wal.Backed() && wal.lastCommit == |wal.log.Flat()|
      ensures var f := NewestFrame(wal.log.Flat(), |wal.log.Flat()|, 0);
              f != 0 && wal.log.Flat()[f - 1].1.HeaderPage? && HeaderContinues(wal.log.Flat()[f - 1].1.header, wal.log)
    {
      wal.log.FlatSize();
      OutcomeSound(mode, acked, wal.log, vfs.entropy);
      LoggedHeader(wal.log);
    }

    /** Invariant I7: what was read from the data file is durable before anything builds on it. */
    method BarrierData() returns (s: Status)
      requires Valid() && !isOpen && !vfs.crashed
      requires mode.Creating? ==>
                 vfs.files.data.cache.Present? && |vfs.files.data.cache.cells| == 1
                   && vfs.files.data.cache.cells[0].Some?
      modifies this`mode, this`acked, vfs`files, vfs`crashed
      ensures Valid() && s in {Ok, IoError, Crashed} && (s == Crashed <==> vfs.crashed)
      ensures !vfs.injecting ==> s == Ok
      ensures vfs.files.data.cache == old(vfs.files.data).cache && vfs.files.log == old(vfs.files.log)
      ensures old(mode).Creating? ==> if s == Ok then mode == Settled(None, 0) && IsFresh(acked) else mode.Creating?
      ensures !old(mode).Creating? ==> mode == old(mode) && acked == old(acked)
      ensures s == Ok ==> vfs.files.data.pending == Nothing
    {
      hide IsState, EndsAt, Safe;
      SafeSynced(DataFile, vfs.files.data, mode, acked, vfs.entropy);
      s := vfs.Sync(DataFile);
      if s != Ok { return; }
      s := vfs.SyncDirectory();
      if s == Ok && mode.Creating? {
        Created(vfs.files, acked, vfs.entropy);
        mode, acked := Settled(None, 0), map[0 := vfs.files.data.cache.cells[0].value.page];
      }
    }

    method OpenLog(header: DbHeader) returns (s: Status)
      requires Valid() && !isOpen && !vfs.crashed && !mode.Creating?
      requires HeaderInFile(header) && vfs.files.data.pending == Nothing
      modifies this`mode, wal, vfs
      ensures Valid() && s in {Ok, IoError, Crashed} && (s == Crashed <==> vfs.crashed)
      ensures !vfs.injecting ==> s == Ok
      ensures vfs.injecting == old(vfs.injecting) && vfs.files.data == old(vfs.files.data)
      ensures !mode.Creating? && InDoubt(mode) == InDoubt(old(mode))
      ensures s == Ok ==> LogOpened() && HeaderContinues(header, wal.log)
    {
      hide Safe, EndsAt, IsState;
      ghost var after;
      HeaderFits(header);
      s, after := wal.Open(header.dbId, header.changeCounter, mode, acked);
      FollowsData(vfs.files.data, mode, after, acked, old(vfs.entropy));
      if s == Ok { OpenedContinues(header, mode, after, acked, vfs.entropy, wal.log); }
      mode := after;
    }

    lemma HeaderFits(header: DbHeader)
      requires Valid() && !mode.Creating? && HeaderInFile(header)
      ensures IsState(acked) && header.dbId == HeaderOf(acked).dbId
      ensures mode.Settled? ==> header == HeaderOf(acked)
      ensures mode.Live? ==> HeaderContinues(header, mode.log)
    {
      SafeCache(DataFile, vfs.files.data, mode, acked, vfs.entropy);
    }

    /** The end of Db::open: the file and the log always belong to one history. */
    method Finish(header: DbHeader)
      requires Valid() && !isOpen && !vfs.crashed && !mode.Creating? && LogOpened() && HeaderContinues(header, wal.log)
      requires vfs.files.data.pending == Nothing
      requires cache == map[] && lru == [] && views == map[] && activeReaders == 0 && floor == 0
      modifies this`mode, this`acked, this`isOpen, this`dbId
      ensures Valid() && isOpen && mode == Live(wal.log, None)
      ensures acked == Outcome(old(mode), old(acked), wal.log)
    {
      hide Safe, Sound, EndsAt, OpensTo, Follows, Outcome;
      OpenedSafe(vfs.files.data, vfs.files.log, mode, acked, wal.log, vfs.entropy);
      ghost var st := Outcome(mode, acked, wal.log);
      InHistory(wal.log, st, vfs.entropy);
      var base, commits := wal.header.base, wal.commitList;
      if base != header.changeCounter
        && (commits == [] || !(base < header.changeCounter <= commits[|commits| - 1].changeCounter)) {
        assert false;
      }
      dbId := header.dbId;
      isOpen := true;
      mode, acked := Live(wal.log, None), Outcome(mode, acked, wal.log);
    }

    ghost predicate HeaderInFile(h: DbHeader)
      reads vfs`files
    {
      var f := vfs.files.data.cache;
      f.Present? && f.cells != [] && f.cells[0] == Some(PageCell(HeaderPage(h)))
    }

    /** The log is open, clean, and one the protocol allows. */
    ghost predicate LogOpened()
      requires wal.vfs == vfs && Durable()
      reads this`mode, this`acked, wal, vfs`files, vfs`entropy
    {
      && wal.Memory() && wal.Clean() && !wal.failed
      && (mode.Settled? || mode.Live?) && OpensTo(mode, acked, wal.log)
    }

    // ----- power loss, and whole runs

    /** Power loss and reboot: whatever subset of the pending operations landed, in whatever order and
        torn wherever, the files stay admissible for the same acknowledged state. */
    method PowerLoss()
      requires Valid()
      modifies this`isOpen, vfs`files, vfs`crashed
      ensures Valid() && !isOpen && !vfs.crashed
    {
      hide Sound;
      ghost var before := vfs.files;
      vfs.Reboot();
      assert forall id: FileId :: SurvivesAs(before.At(id).durable, before.At(id).pending, vfs.files.At(id).durable);
      assert before.At(DataFile) == before.data && before.At(LogFile) == before.log;
      SafeCrash(DataFile, before.data, mode, acked, vfs.entropy, vfs.files.At(DataFile).durable);
      SafeCrash(LogFile, before.log, mode, acked, vfs.entropy, vfs.files.At(LogFile).durable);
      isOpen := false;
    }

    /** The database is where the account says. */
    ghost predicate Agrees(a: Account)
      reads this`isOpen, this`mode, this`acked
    {
      && a.up == isOpen
      && (if a.model == map[] then !isOpen && (mode.Creating? || (IsFresh(acked) && InDoubt(mode) == None))
          else !mode.Creating? && a.model == acked)
      && (InDoubt(mode).Some? ==> a.candidate == Some(After(acked, InDoubt(mode).value)))
      && (!isOpen ==> a.readers == map[])
    }

    /** Every reader the caller holds has the view the account says; a log that may hold a commit which failed takes
        no more; and the account knows of whatever is no longer in order. */
    ghost predicate Serves(a: Account, handles: map<nat, Handle>)
      reads this`isOpen, this`views, wal`failed, vfs`crashed
    {
      && handles.Keys == a.readers.Keys
      && (isOpen && !vfs.crashed ==> views.Keys == handles.Keys && (a.candidate.Some? ==> wal.failed))
      && (isOpen && !vfs.crashed ==> forall r :: r in handles ==>
            views[r].state == a.readers[r] && HandleOk(views[r], handles[r]))
      && (isOpen && !vfs.crashed && wal.failed ==> a.failed) && (vfs.crashed ==> a.lost)
    }

    /** The medium may fail during this step, or not. */
    method Allow(faulty: bool)
      requires Valid()
      modifies vfs`injecting
      ensures Valid() && vfs.injecting == (faulty || vfs.crashed)
    {
      hide Durable, Running;
      vfs.injecting := faulty || vfs.crashed;
    }

    /** One command, as any caller might issue it, and the answer: both move the account. */
    method Step(c: Command, faulty: bool, handles: map<nat, Handle>, ghost a: Account)
      returns (handles': map<nat, Handle>, answer: Answer, ghost a': Account)
      requires Valid() && Agrees(a) && Serves(a, handles)
      modifies this, wal, vfs
      ensures Valid() && Agrees(a') && Serves(a', handles')
      ensures Moves(faulty, a, c, answer, a')
      ensures forall r :: r in handles && r in handles' && isOpen && !vfs.crashed && !c.DoOpen? ==>
        r in old(views) && r in views && views[r] == old(views)[r]
    {
      hide Durable, Running, After, Moves;
      handles', a' := handles, a;
      Allow(faulty);
      match c {
        case DoOpen => handles', answer, a' := OpenStep(faulty, a);
        case DoClose =>
          Close();
          handles', answer, a' := map[], Status(Ok), Down(a);
          DownMoves(faulty, a);
        case DoPowerLoss =>
          PowerLoss();
          handles', answer, a' := map[], Status(Ok), Down(a).(lost := false);
          DownMoves(faulty, a);
        case DoCommit(_, _, _, _, _) => answer, a' := CommitStep(c, faulty, handles, a);
        case DoCheckpoint => answer, a' := CheckpointStep(faulty, handles, a);
        case DoBeginRead => handles', answer, a' := BeginStep(faulty, handles, a);
        case DoReadPage(r, page) => answer, a' := ReadStep(r, page, faulty, handles, a);
        case DoEndRead(r) => handles', answer, a' := EndStep(r, faulty, handles, a);
      }
    }

    lemma NotCreating()
      requires Valid()
      ensures isOpen && !vfs.crashed ==> !mode.Creating?
      ensures !mode.Creating? ==> IsState(acked)
    {
    }

    /** Opening decides a doubt. */
    method OpenStep(ghost faulty: bool, ghost a: Account)
      returns (handles: map<nat, Handle>, answer: Answer, ghost a': Account)
      requires Valid() && Agrees(a) && vfs.injecting == (faulty || vfs.crashed) && (vfs.crashed ==> a.lost)
      modifies this, wal, vfs
      ensures Valid() && Agrees(a') && Serves(a', handles)
      ensures Moves(faulty, a, DoOpen, answer, a')
    {
      hide Durable, Running, After;
      NotCreating();
      var s := Open();
      NotCreating();
      handles, answer := map[], Status(s);
      a' := if s == Ok then Account(acked, None, true, map[], false, false) else Down(a).(lost := true);
    }

    method CommitStep(c: Command, ghost faulty: bool, handles: map<nat, Handle>, ghost a: Account)
      returns (answer: Answer, ghost a': Account)
      requires Valid() && c.DoCommit? && Agrees(a) && Serves(a, handles) && vfs.injecting == (faulty || vfs.crashed)
      modifies this, wal, vfs
      ensures Valid() && Agrees(a') && Serves(a', handles)
      ensures Moves(faulty, a, c, answer, a') && views == old(views) && isOpen == old(isOpen)
      ensures (old(isOpen && vfs.crashed) ==> vfs.crashed)
    {
      hide Durable, Running, After, Extends, Fitting, NoChange, IsState, Moves, Committed;
      if !isOpen {
        CommitRefused(faulty, a, c);
        return Refused, a;
      }
      NotCreating();
      var s := Crashed;
      if !vfs.crashed { s := Commit(c.writes, c.pageCount, c.freeHead, c.freeCount, c.time); }
      answer := Status(s);
      ghost var t := TxnOf(a.model, c.writes, c.pageCount, c.freeHead, c.freeCount, c.time);
      a' := Committed(faulty, a, t, s);
      CommittedIs(faulty, a, t, s);
      CommitMoves(faulty, a, c, s);
      NotCreating();
    }

    method CheckpointStep(ghost faulty: bool, handles: map<nat, Handle>, ghost a: Account)
      returns (answer: Answer, ghost a': Account)
      requires Valid() && Agrees(a) && Serves(a, handles) && vfs.injecting == (faulty || vfs.crashed)
      modifies this, wal, vfs
      ensures Valid() && Agrees(a') && Serves(a', handles)
      ensures Moves(faulty, a, DoCheckpoint, answer, a') && views == old(views) && isOpen == old(isOpen)
      ensures old(isOpen && vfs.crashed) ==> vfs.crashed
    {
      hide Durable, Running, After;
      if !isOpen { return Refused, a; }
      if vfs.crashed { return Status(Crashed), Troubled(a); }
      ViewsCounted();
      NotCreating();
      var s := Checkpoint();
      answer, a' := Status(s), if s == IoError || s == Crashed then Troubled(a) else a;
    }

    lemma ViewsCounted()
      requires Valid() && isOpen && !vfs.crashed
      ensures |views| == activeReaders && (views == map[] <==> activeReaders == 0)
    {
    }

    method BeginStep(ghost faulty: bool, handles: map<nat, Handle>, ghost a: Account)
      returns (handles': map<nat, Handle>, answer: Answer, ghost a': Account)
      requires Valid() && Agrees(a) && Serves(a, handles) && vfs.injecting == (faulty || vfs.crashed)
      modifies this`activeReaders, this`views, this`nextReader, this`cache, this`lru, vfs`crashed
      ensures Valid() && Agrees(a') && Serves(a', handles')
      ensures Moves(faulty, a, DoBeginRead, answer, a')
      ensures !vfs.crashed ==> forall r :: r in old(views) ==> r in views && views[r] == old(views)[r]
      ensures old(isOpen && vfs.crashed) ==> vfs.crashed
    {
      hide Durable, Running, After, NoChange, Fitting, Finds, IsState, Committed;
      handles', a' := handles, a;
      if !isOpen { return handles, Refused, a; }
      if vfs.crashed { return handles, Status(Crashed), a.(lost := true); }
      NotCreating();
      var s, r, snapshot, pageCount := BeginRead();
      if s == Ok {
        handles', answer, a' := handles[r := Handle(snapshot, pageCount)], Reader(r),
          a.(readers := a.readers[r := a.model]);
      } else {
        answer, a' := Status(s), a.(lost := true);
      }
    }

    method ReadStep(r: nat, page: PageNo, ghost faulty: bool, handles: map<nat, Handle>, ghost a: Account)
      returns (answer: Answer, ghost a': Account)
      requires Valid() && Agrees(a) && Serves(a, handles) && vfs.injecting == (faulty || vfs.crashed)
      modifies this`cache, this`lru, vfs`crashed
      ensures Valid() && Agrees(a') && Serves(a', handles)
      ensures Moves(faulty, a, DoReadPage(r, page), answer, a') && (old(isOpen && vfs.crashed) ==> vfs.crashed)
    {
      hide Durable, Running, After;
      if !isOpen || r !in handles { return Refused, a; }
      if vfs.crashed { return Status(Crashed), a.(lost := true); }
      ViewIsState(r);
      var s, out := ReadPage(r, handles[r].snapshot, handles[r].pageCount, page);
      answer, a' := if s == Ok then Contents(out) else Status(s), if s == Crashed then a.(lost := true) else a;
    }

    lemma ViewIsState(r: nat)
      requires Valid() && isOpen && !vfs.crashed && r in views
      ensures IsState(views[r].state)
    {
    }

    method EndStep(r: nat, ghost faulty: bool, handles: map<nat, Handle>, ghost a: Account)
      returns (handles': map<nat, Handle>, answer: Answer, ghost a': Account)
      requires Valid() && Agrees(a) && Serves(a, handles)
      modifies this`activeReaders, this`views
      ensures Valid() && Agrees(a') && Serves(a', handles')
      ensures Moves(faulty, a, DoEndRead(r), answer, a')
      ensures forall q :: q in old(views) && q in handles' ==> q in views && views[q] == old(views)[q]
    {
      hide Durable, Running, After;
      if !isOpen || r !in handles { return handles, Refused, a; }
      if !vfs.crashed { EndRead(r); }
      handles', answer, a' := handles - {r}, Status(Ok), a.(readers := a.readers - {r});
    }

    /** Any run: opens, closes, commits, checkpoints and readers in any interleaving, with power losses, and with I/O
        errors in the steps that `faults` says. The trace of accounts explains every answer. */
    method Run(script: seq<Command>, faults: seq<bool>) returns (answers: seq<Answer>, ghost trace: seq<Account>)
      requires Valid() && mode.Creating? && !isOpen && !vfs.crashed && |faults| == |script|
      modifies this, wal, vfs
      ensures Valid() && Explains(faults, script, answers, trace) && Agrees(trace[|script|])
    {
      hide Durable, Running, After, Moves;
      trace, answers := [NOTHING_YET], [];
      var handles: map<nat, Handle> := map[];
      var i := 0;
      while i < |script|
        invariant 0 <= i <= |script| && Valid()
        invariant Explains(faults[..i], script[..i], answers, trace) && Agrees(trace[i]) && Serves(trace[i], handles)
      {
        var answer;
        ghost var a;
        handles, answer, a := Step(script[i], faults[i], handles, trace[i]);
        ExplainsMore(faults, script, i, answers, trace, answer, a);
        answers, trace := answers + [answer], trace + [a];
        i := i + 1;
      }
      assert script[..i] == script && faults[..i] == faults;
    }

    method Close()
      requires Valid()
      modifies this`isOpen
      ensures Valid() && !isOpen
    {
      hide Durable, Running;
      isOpen := false;
    }

    // ----- the page cache

    /** Impl::cache_get. */
    method CacheGet(key: Key) returns (hit: bool, page: Page)
      requires forall k :: k in cache <==> k in lru
      modifies this`lru
      ensures forall k :: k in cache <==> k in lru
      ensures hit <==> key in cache
      ensures hit ==> page == cache[key]
    {
      hit, page := key in cache, BodyPage([]);
      if hit {
        page := cache[key];
        lru := [key] + Without(lru, key);
      }
    }

    /** Impl::cache_put: insert or replace, then evict from the back. */
    method CachePut(key: Key, page: Page)
      requires forall k :: k in cache <==> k in lru
      modifies this`cache, this`lru
      ensures forall k :: k in cache <==> k in lru
      ensures forall k :: k in cache ==>
                (k == key && cache[k] == page) || (k in old(cache) && cache[k] == old(cache)[k])
      ensures |cache| <= capacity || key in old(cache)
    {
      hide Without;
      if key in cache {
        cache := cache[key := page];
        lru := [key] + Without(lru, key);
        return;
      }
      lru := [key] + lru;
      cache := cache[key := page];
      while |cache| > capacity && lru != []
        invariant InStep(cache, lru)
        invariant forall k :: k in cache ==>
                    (k == key && cache[k] == page) || (k in old(cache) && cache[k] == old(cache)[k])
        decreases |lru|
      {
        hide InStep;
        Evicted(cache, lru);
        var last := lru[|lru| - 1];
        cache := cache - {last};
        lru := Without(lru[..|lru| - 1], last);
      }
      if lru == [] { assert cache == map[]; }
    }

    // ----- reading

    /** Reads of committed frames find them in the log file. */
    lemma LogBacked()
      requires Valid() && isOpen && !vfs.crashed
      ensures wal.Backed()
    {
      SafeCache(LogFile, vfs.files.log, mode, acked, vfs.entropy);
    }

    lemma LogReady()
      requires Valid() && isOpen && !vfs.crashed
      ensures wal.Memory()
    {
    }

    /** Db::read_committed. For every page of the state a reader was promised, the read returns
        that page, cached or not, or fails with the medium; it never returns another page. */
    method ReadCommitted(page: PageNo, snapshot: FrameNo, ghost st: State) returns (s: Status, out: Page)
      requires Valid() && isOpen && !vfs.crashed
      requires page in st && page in acked && floor <= snapshot
      requires Shows(wal.log.Flat(), vfs.files.data.cache.cells, snapshot, st)
      modifies this`cache, this`lru, vfs`crashed
      ensures Valid() && s in {Ok, Crashed} && (s == Crashed <==> vfs.crashed)
      ensures !vfs.injecting ==> s == Ok
      ensures s == Ok ==> out == st[page]
    {
      hide Sound, Safe, IsState, Coherent, Durable, ViewsOk, LogInForce;
      LogReady();
      var frame := wal.Find(page, snapshot);
      var hit;
      hit, out := CacheGet((page, frame));
      if hit {
        HitIsRight((page, frame), out, wal.log.Flat(), vfs.files.data.cache.cells, floor, snapshot);
        return Ok, out;
      }
      s, out := ReadUncached(page, frame, snapshot, st);
      if s != Ok { return; }
      CachePut((page, frame), out);
    }

    method ReadUncached(page: PageNo, frame: FrameNo, ghost snapshot: FrameNo, ghost st: State)
      returns (s: Status, out: Page)
      requires Valid() && isOpen && !vfs.crashed
      requires page in st && Shows(wal.log.Flat(), vfs.files.data.cache.cells, snapshot, st)
      requires frame == NewestFrame(wal.log.Flat(), snapshot, page)
      modifies vfs`crashed
      ensures Valid() && s in {Ok, Crashed} && (s == Crashed <==> vfs.crashed)
      ensures !vfs.injecting ==> s == Ok
      ensures s == Ok ==>
                out == st[page] && Coherent((page, frame), out, wal.log.Flat(), vfs.files.data.cache.cells, floor)
    {
      hide Sound, Safe, IsState;
      out := BodyPage([]);
      assert PageAt(wal.log.Flat(), vfs.files.data.cache.cells, snapshot, page) == Some(PageCell(st[page]));
      if frame != 0 {
        LogBacked();
        s, out := wal.ReadFramePage(frame);
      } else {
        var cell;
        s, cell := vfs.Read(DataFile, page);
        if s == Ok { out := cell.value.page; }
      }
    }

    /** Db::begin_read: the snapshot and the registration are one step, the header is read after. */
    method BeginRead() returns (s: Status, r: nat, snapshot: FrameNo, pageCount: nat)
      requires Valid() && isOpen && !vfs.crashed
      modifies this`activeReaders, this`views, this`nextReader, this`cache, this`lru, vfs`crashed
      ensures Valid() && s in {Ok, Crashed} && (s == Crashed <==> vfs.crashed)
      ensures !vfs.injecting ==> s == Ok
      ensures s == Ok ==> r !in old(views) && views == old(views)[r := View(snapshot, acked)]
      ensures IsState(acked) && (s == Ok ==> pageCount == HeaderOf(acked).pageCount)
    {
      hide Safe, Shows, Coherent, Wal.Clean, EndsAt;
      r, snapshot := Register();
      var page;
      s, page := ReadCommitted(0, snapshot, acked);
      pageCount := if s == Ok then page.header.pageCount else 0;
    }

    method Register() returns (r: nat, snapshot: FrameNo)
      requires Valid() && isOpen && !vfs.crashed
      modifies this`activeReaders, this`views, this`nextReader
      ensures Valid() && r !in old(views) && floor <= snapshot
      ensures IsState(acked) && Shows(wal.log.Flat(), vfs.files.data.cache.cells, snapshot, acked)
      ensures views == old(views)[r := View(snapshot, acked)]
    {
      hide Sound, Safe, Wal.Clean, Shows, IsState, Coherent;
      r := nextReader;
      snapshot := wal.lastCommit;
      wal.log.FlatSize();
      AckedShown();
      activeReaders := activeReaders + 1;
      views := views[r := View(snapshot, acked)];
      nextReader := r + 1;
    }

    /** ReadTxn::read_page: for its whole life a reader sees the state at its snapshot. */
    method ReadPage(r: nat, snapshot: FrameNo, pageCount: nat, page: PageNo) returns (s: Status, out: Page)
      requires Valid() && isOpen && !vfs.crashed
      requires r in views && views[r].snapshot == snapshot && pageCount == HeaderOf(views[r].state).pageCount
      modifies this`cache, this`lru, vfs`crashed
      ensures Valid() && s in {Ok, Crashed, Invalid} && (s == Crashed <==> vfs.crashed)
      ensures s == Invalid <==> page >= pageCount
      ensures s == Ok ==> out == views[r].state[page]
      ensures !vfs.injecting && page < pageCount ==> s == Ok
    {
      hide Safe, Shows, Coherent, Wal.Clean, EndsAt;
      if page >= pageCount { return Invalid, BodyPage([]); }
      s, out := ReadCommitted(page, snapshot, views[r].state);
    }

    /** Db::reader_ended. */
    method EndRead(r: nat)
      requires Valid() && isOpen && !vfs.crashed && r in views
      modifies this`activeReaders, this`views
      ensures Valid() && views == old(views) - {r}
    {
      hide Sound, Safe, Wal.Memory, Wal.Clean, Shows, IsState, Coherent;
      activeReaders := activeReaders - 1;
      views := views - {r};
    }

    /** Db::backup: one snapshot, page by page. */
    method Backup() returns (s: Status, pages: seq<Page>, counter: nat)
      requires Valid() && isOpen && !vfs.crashed
      modifies this`activeReaders, this`views, this`nextReader, this`cache, this`lru, vfs`crashed
      ensures Valid() && s in {Ok, Crashed} && (s == Crashed <==> vfs.crashed)
      ensures !vfs.injecting ==> s == Ok
      ensures s == Ok ==> |pages| == HeaderOf(acked).pageCount && counter == HeaderOf(acked).changeCounter
      ensures s == Ok ==> forall p: PageNo :: p in acked ==> pages[p] == acked[p]
      ensures s == Ok ==> views == old(views)
    {
      hide Safe, Shows, Coherent, Sound, LogInForce, CacheOk, ViewsOk;
      pages, counter := [], 0;
      var r, snapshot, pageCount;
      s, r, snapshot, pageCount := BeginRead();
      if s != Ok { return; }
      s, pages := ReadAll(r, snapshot, pageCount);
      if s != Ok { return; }
      assert 0 in acked;
      counter := pages[0].header.changeCounter;
      EndRead(r);
      assert views == old(views);
    }

    method ReadAll(r: nat, snapshot: FrameNo, pageCount: nat) returns (s: Status, pages: seq<Page>)
      requires Valid() && isOpen && !vfs.crashed && r in views && views[r].snapshot == snapshot
      requires IsState(views[r].state) && pageCount == HeaderOf(views[r].state).pageCount
      modifies this`cache, this`lru, vfs`crashed
      ensures Valid() && s in {Ok, Crashed} && (s == Crashed <==> vfs.crashed)
      ensures !vfs.injecting ==> s == Ok
      ensures s == Ok ==> |pages| == pageCount && forall p: PageNo :: p in views[r].state ==>
                pages[p] == views[r].state[p]
    {
      hide Safe, Sound, LogInForce, CacheOk, ViewsOk;
      s, pages := Ok, [];
      while |pages| < pageCount
        invariant Valid() && s == Ok && !vfs.crashed && |pages| <= pageCount
        invariant forall p: PageNo :: p < |pages| ==> pages[p] == views[r].state[p]
      {
        var page;
        s, page := ReadPage(r, snapshot, pageCount, |pages|);
        if s != Ok { return; }
        pages := pages + [page];
      }
    }

    /** The newest snapshot shows the acknowledged state. */
    lemma AckedShown()
      requires Valid() && isOpen && !vfs.crashed
      ensures IsState(acked) && Shows(wal.log.Flat(), vfs.files.data.cache.cells, |wal.log.Flat()|, acked)
    {
      SafeCache(DataFile, vfs.files.data, mode, acked, vfs.entropy);
      if mode.Live? {
        LiveShows(mode.log, mode.doubt, vfs.files.data.cache, acked);
      }
    }

    // ----- checkpoints

    /** Db::checkpoint_locked. At every step and every exit the database holds the same state, and a
        reader can only be turned away, never misled. */
    method Checkpoint() returns (s: Status)
      requires Valid() && isOpen && !vfs.crashed
      modifies this, wal, vfs
      ensures Valid() && s in {Ok, IoError, Crashed, Busy} && (s == Crashed ==> vfs.crashed)
      ensures isOpen && acked == old(acked) && views == old(views) && vfs.injecting == old(vfs.injecting)
      ensures InDoubt(mode) == InDoubt(old(mode)) && !mode.Creating?
      ensures s == Busy <==> old(activeReaders) != 0
      ensures s == Ok || s == Busy ==> !vfs.crashed && wal.failed == old(wal.failed)
      ensures s == Ok && !old(wal.failed) ==> wal.log.Start? && !wal.failed
      ensures !vfs.injecting && !old(wal.failed) && old(activeReaders) == 0 ==> s == Ok
      ensures old(wal.failed) ==> wal.failed
      ensures !vfs.injecting && !old(wal.failed) ==> !wal.failed
    {
      hide Sound, Safe, Shows, Coherent, Wal.Clean, IsState, HoldsAll;
      if activeReaders != 0 { return Busy; }
      if wal.lastCommit == 0 { return Ok; }
      s := CopyToFile();
      if s != Ok { return; }
      // Archiving the log is one more step that can fail; see module Archive.
      s := vfs.SyncDirectory();
      if s != Ok { return; }
      s := EmptyLog();
    }

    /** The data file as the process sees it has page `p` of the acknowledged state. */
    ghost predicate InFile(p: PageNo)
      reads this`acked, vfs`files
    {
      p in acked && vfs.files.data.cache.Present? &&
      p < |vfs.files.data.cache.cells| && vfs.files.data.cache.cells[p] == Some(PageCell(acked[p]))
    }

    /** Copies the newest committed image of every logged page, cuts the file, and syncs it. */
    method CopyToFile() returns (s: Status)
      requires Valid() && isOpen && !vfs.crashed && activeReaders == 0 && wal.log.Then?
      modifies this`floor, vfs`files, vfs`crashed
      ensures Valid() && s in {Ok, IoError, Crashed} && (s == Crashed <==> vfs.crashed)
      ensures !vfs.injecting ==> s == Ok
      ensures vfs.files.log == old(vfs.files.log) && !mode.Creating?
      ensures s == Ok ==> vfs.files.data.pending == Nothing && HoldsAll(vfs.files.data.durable, acked)
    {
      hide Sound, Safe, Shows, Coherent, Wal.Clean, IsState;
      wal.log.FlatSize();
      var latest := wal.LatestFrames(wal.lastCommit);
      RaiseFloor();
      var todo := latest.Keys;
      while todo != {}
        invariant todo <= latest.Keys && Valid() && !vfs.crashed && floor == |wal.log.Flat()|
        invariant vfs.files.log == old(vfs.files.log)
        invariant forall p :: p in latest && p !in todo ==> InFile(p)
        decreases todo
      {
        var p :| p in todo;
        s := CopyPage(p, latest[p]);
        if s != Ok { return; }
        todo := todo - {p};
      }
      AllInFile(latest.Keys);
      s := CutFile();
      if s != Ok { return; }
      s := SyncData();
    }

    /** With no reader left, cached file copies of logged pages are free to go out of date. */
    ghost method RaiseFloor()
      requires Valid() && isOpen && !vfs.crashed && activeReaders == 0
      modifies this`floor
      ensures Valid() && floor == |wal.log.Flat()|
    {
      hide Sound, Safe, Shows, Wal.Memory, Wal.Clean, IsState;
      var flat := wal.log.Flat();
      forall k | k in cache ensures Coherent(k, cache[k], flat, vfs.files.data.cache.cells, |flat|) {
        if k.1 == 0 && NewestFrame(flat, floor, k.0) != 0 { NewestGrows(flat, floor, |flat|, k.0); }
      }
      assert views == map[];
      floor := |flat|;
    }

    /** The pages the log lacks were in the file all along. */
    lemma AllInFile(copied: set<PageNo>)
      requires Valid() && isOpen && !vfs.crashed && wal.log.Then?
      requires forall p: PageNo :: p in copied <==> NewestFrame(wal.log.Flat(), |wal.log.Flat()|, p) != 0
      requires forall p :: p in copied ==> InFile(p)
      ensures forall p :: p in acked ==> InFile(p)
    {
      SafeCache(DataFile, vfs.files.data, mode, acked, vfs.entropy);
    }

    /** A change of the data file that leaves the pages only it holds alone keeps everything else. */
    twostate lemma DataChanged()
      requires old(Valid()) && isOpen && !old(vfs.crashed) && unchanged(this) && unchanged(wal)
      requires activeReaders == 0 && floor == |wal.log.Flat()|
      requires vfs.Valid() && vfs.files.log == old(vfs.files.log) && vfs.entropy == old(vfs.entropy)
      requires Safe(DataFile, vfs.files.data, mode, acked)
      requires vfs.files.data.cache.Present?
      requires var cells, after := old(vfs.files.data).cache.cells, vfs.files.data.cache.cells;
               forall p :: p in acked && p < |cells| && NewestFrame(wal.log.Flat(), floor, p) == 0 ==>
                   p < |after| && after[p] == cells[p]
      ensures Valid()
    {
      hide Sound, Safe, Shows, Wal.Memory, IsState, Is;
    }

    /** One page of the checkpoint. */
    method CopyPage(page: PageNo, frame: FrameNo) returns (s: Status)
      requires Valid() && isOpen && !vfs.crashed && activeReaders == 0 && wal.log.Then? && floor == |wal.log.Flat()|
      requires frame == NewestFrame(wal.log.Flat(), |wal.log.Flat()|, page) != 0
      modifies vfs`files, vfs`crashed
      ensures Valid() && s in {Ok, IoError, Crashed} && (s == Crashed <==> vfs.crashed)
      ensures !vfs.injecting ==> s == Ok
      ensures vfs.files.log == old(vfs.files.log)
      ensures s == Ok ==> InFile(page) && forall p :: old(InFile(p)) ==> InFile(p)
    {
      hide Sound, Safe, Shows, Coherent, Wal.Clean, IsState;
      LogBacked();
      CopyOk(page);
      var image;
      s, image := wal.ReadFramePage(frame);
      if s != Ok { return; }
      ghost var data := vfs.files.data;
      s := vfs.Write(DataFile, page, [PageCell(image)]);
      if s == Ok {
        SafeRecord(DataFile, data, Write(page, [PageCell(image)], false), mode, acked);
      } else {
        SafeWroteSome(DataFile, data, page, [PageCell(image)], vfs.files.data, mode, acked);
      }
      WriteTouches(data, page, PageCell(image), vfs.files.data);
      DataChanged();
    }

    lemma CopyOk(page: PageNo)
      requires Valid() && isOpen && !vfs.crashed && wal.log.Then?
      requires NewestFrame(wal.log.Flat(), |wal.log.Flat()|, page) != 0
      ensures IsState(acked) && page in acked
      ensures acked[page] == wal.log.Flat()[NewestFrame(wal.log.Flat(), |wal.log.Flat()|, page) - 1].1
      ensures OpOk(DataFile, Write(page, [PageCell(acked[page])], false), mode, acked)
    {
      assert Logged(wal.log, page).Some?;
      LoggedHeader(wal.log);
    }

    method CutFile() returns (s: Status)
      requires Valid() && isOpen && !vfs.crashed && activeReaders == 0 && wal.log.Then? && floor == |wal.log.Flat()|
      requires forall p :: p in acked ==> InFile(p)
      modifies vfs`files, vfs`crashed
      ensures Valid() && s in {Ok, IoError, Crashed} && (s == Crashed <==> vfs.crashed)
      ensures !vfs.injecting ==> s == Ok
      ensures vfs.files.log == old(vfs.files.log)
      ensures s == Ok ==> forall p :: p in acked ==> InFile(p)
    {
      hide Safe, Shows, Coherent, Wal.Clean;
      var dbSize := wal.commits[wal.lastCommit];
      s := Ok;
      if |vfs.files.data.cache.cells| > dbSize {
        SafeRecord(DataFile, vfs.files.data, Truncate(dbSize), mode, acked);
        s := vfs.Truncate(DataFile, dbSize);
        DataChanged();
      }
    }

    method SyncData() returns (s: Status)
      requires Valid() && isOpen && !vfs.crashed && activeReaders == 0 && floor == |wal.log.Flat()|
      requires forall p :: p in acked ==> InFile(p)
      modifies vfs`files, vfs`crashed
      ensures Valid() && s in {Ok, IoError, Crashed} && (s == Crashed <==> vfs.crashed)
      ensures !vfs.injecting ==> s == Ok
      ensures vfs.files.log == old(vfs.files.log)
      ensures s == Ok ==> vfs.files.data.pending == Nothing && HoldsAll(vfs.files.data.durable, acked)
    {
      hide Sound, Safe, Shows, Coherent, Wal.Clean, IsState;
      SafeSynced(DataFile, vfs.files.data, mode, acked, vfs.entropy);
      s := vfs.Sync(DataFile);
      DataChanged();
    }

    lemma LastCommit()
      requires Valid() && isOpen && !vfs.crashed && wal.log.Then?
      ensures mode.Live? && mode.log == wal.log && EndsAt(wal.log, acked) && Salt(wal.log) < vfs.entropy
      ensures wal.commitList != []
      ensures wal.commitList[|wal.commitList| - 1].changeCounter == HeaderOf(acked).changeCounter
    {
    }

    /** The cache is dropped first: frame numbers restart with the new log. */
    method EmptyLog() returns (s: Status)
      requires Valid() && isOpen && !vfs.crashed && activeReaders == 0 && wal.log.Then?
      requires vfs.files.data.pending == Nothing && HoldsAll(vfs.files.data.durable, acked)
      modifies this`cache, this`lru, this`floor, this`mode, wal, vfs`files, vfs`crashed, vfs`entropy
      ensures Valid() && s in {Ok, IoError, Crashed} && (s == Crashed ==> vfs.crashed)
      ensures InDoubt(mode) == InDoubt(old(mode)) && !mode.Creating?
      ensures s == Ok ==> wal.log.Start? && !wal.failed && !vfs.crashed
      ensures !vfs.injecting && !old(wal.failed) ==> s == Ok
      ensures old(wal.failed) ==> wal.failed
    {
      hide Safe, Shows, Wal.Memory, Sound, EndsAt, FreshHeader, After, HeaderOf, Wal.Listed, HoldsAll, Is, IsState;
      hide FaultVfs.Valid, CacheOver, ViewsOver;
      ghost var log := wal.log;
      Idle();
      LastCommit();
      cache, lru, floor := map[], [], 0;
      var last := wal.commitList[|wal.commitList| - 1];
      s := wal.Reset(last.changeCounter, acked);
      NothingCached(wal.log.Flat(), acked, vfs.files.data.cache);
      SoundLater(mode, acked, old(vfs.entropy), vfs.entropy);
      if s == Ok {
        FreshAfterCheckpoint(vfs.files.data, vfs.files.log, wal.log, Some(log), acked, vfs.entropy);
        mode := Live(wal.log, None);
      } else if wal.log != log || vfs.files.log != old(vfs.files.log) {
        SettledAfterCheckpoint(vfs.files.data, log, acked, vfs.entropy);
        mode := Settled(Some(log), vfs.entropy);
      }
    }

    lemma Idle()
      requires Valid() && isOpen && !vfs.crashed && activeReaders == 0
      ensures views == map[] && vfs.files.data.cache.Present?
    {
    }

    lemma NothingCached(frames: seq<Image>, st: State, data: File)
      requires cache == map[] && lru == [] && floor == 0 && views == map[] && activeReaders == 0 && data.Present?
      ensures CacheOver(frames, st, data) && ViewsOver(frames, st, data)
    {
    }

    // ----- committing

    /** WriteTxn::commit and Db::commit_frames. `writes` are the transaction's dirty pages; the header
        fields other than the counter come from the transaction. Ok means durable; anything else
        leaves the acknowledged state in force and the transaction, at most, in doubt. */
    method Commit(writes: seq<Image>, pageCount: nat, freeHead: PageNo, freeCount: nat, time: int) returns (s: Status)
      requires Valid() && isOpen && !vfs.crashed
      modifies this, wal, vfs
      ensures Valid() && s in {Ok, IoError, Crashed, Invalid} && (s == Crashed ==> vfs.crashed)
      ensures IsState(old(acked)) && (s == Invalid ==> !Fitting(writes, pageCount, HeaderOf(old(acked)).pageCount))
      ensures old(wal.failed) ==> s != Ok
      ensures (s == Invalid ==> !vfs.crashed) && (s == Ok && !vfs.injecting ==> !vfs.crashed)
      ensures views == old(views) && isOpen && vfs.injecting == old(vfs.injecting)
      ensures var t := TxnOf(old(acked), writes, pageCount, freeHead, freeCount, time);
              && (s == Ok ==> acked == if NoChange(old(acked), t) then old(acked) else After(old(acked), t))
              && !mode.Creating? && (s == Ok ==> InDoubt(mode) == None)
              && (s != Ok ==> acked == old(acked))
              && (s != Ok ==> InDoubt(mode) == InDoubt(old(mode))
                              || (InDoubt(mode) == Some(t) && !old(wal.failed) && Lands(old(acked), t)))
      ensures s == Ok ==> Fitting(writes, pageCount, HeaderOf(old(acked)).pageCount)
      ensures s == Ok ==> Wrote(old(acked), writes, acked)
      ensures s == Invalid ==> old(wal.failed) == wal.failed
      ensures s == IoError || s == Crashed ==> wal.failed || vfs.crashed
      ensures !vfs.injecting && !old(wal.failed) ==> (s == Ok || s == Invalid) && !wal.failed
    {
      hide Safe, Shows, Coherent, Wal.Memory, Wal.Clean, Sound, EndsAt, IsState, After, Wrote, Fitting, NoChange, Lands;
      hide Durable, LogInForce, CacheOk, ViewsOk;
      AckedShown();
      if wal.failed { return IoError; }
      InForce();
      var header;
      s, header := CommittedHeader();
      if s != Ok { return; }
      if !Fitting(writes, pageCount, header.pageCount) { return Invalid; }
      CommitState(acked, writes, pageCount, freeHead, freeCount, time);
      var t := Txn(writes, DbHeader(pageCount, freeHead, freeCount, header.changeCounter + 1, header.dbId, time),
                   pageCount);
      ChangeIs(acked, t);
      if writes == [] && pageCount == header.pageCount && freeHead == header.freeHead && freeCount == header.freeCount {
        return Ok;
      }
      TxnExtends(t);
      s := CommitFrames(t);
      if s == Ok && wal.nextFrame > threshold && activeReaders == 0 {
        // Best effort: the commit is already durable.
        var _ := Checkpoint();
      }
    }

    lemma TxnExtends(t: Txn)
      requires Valid() && isOpen && !vfs.crashed
      requires Fitting(t.writes, t.header.pageCount, HeaderOf(acked).pageCount) && t.dbSize == t.header.pageCount
      requires t.header.changeCounter == HeaderOf(acked).changeCounter + 1 && t.header.dbId == HeaderOf(acked).dbId
      ensures Extends(acked, t)
    {
    }

    /** Db::committed_header of the newest snapshot. */
    method CommittedHeader() returns (s: Status, header: DbHeader)
      requires Valid() && isOpen && !vfs.crashed
      modifies this`cache, this`lru, vfs`crashed
      ensures Valid() && s in {Ok, Crashed} && (s == Crashed <==> vfs.crashed)
      ensures !vfs.injecting ==> s == Ok
      ensures s == Ok ==> header == HeaderOf(acked)
    {
      hide Safe, Wal.Clean, Coherent, Shows;
      AckedShown();
      wal.log.FlatSize();
      var page;
      s, page := ReadCommitted(0, wal.lastCommit, acked);
      header := if s == Ok then page.header else DbHeader(0, 0, 0, 0, 0, 0);
    }

    method CommitFrames(t: Txn) returns (s: Status)
      requires Valid() && isOpen && !vfs.crashed && !wal.failed && Extends(acked, t)
      modifies this`mode, this`acked, this`cache, this`lru, wal, vfs`files, vfs`crashed
      ensures Valid() && s in {Ok, IoError, Crashed} && (s == Crashed ==> vfs.crashed)
      ensures mode.Live? && (s == Ok ==> acked == After(old(acked), t) && InDoubt(mode) == None && !vfs.crashed)
      ensures s != Ok ==> acked == old(acked) && InDoubt(mode) == Some(t)
      ensures wal.failed <==> s != Ok
      ensures !vfs.injecting ==> s == Ok
    {
      hide Sound, Safe, IsState, Extends, Shows, Coherent, Wal.Clean;
      var first := wal.nextFrame;
      ghost var log := wal.log;
      s := AppendTo(t);
      if s != Ok { return; }
      var images := t.Images();
      var i := 0;
      while i < |images|
        invariant 0 <= i <= |images| && Valid() && !vfs.crashed
        invariant wal.log == Then(log, t) && acked == After(old(acked), t) && mode == Live(wal.log, None) && !wal.failed
      {
        WrittenExists(old(acked), t, i);
        PutFrame(images[i].0, first + i, images[i].1, log, t, i);
        i := i + 1;
      }
    }

    /** The append itself: the protocol moves on with the log. */
    method AppendTo(t: Txn) returns (s: Status)
      requires Valid() && isOpen && !vfs.crashed && !wal.failed && Extends(acked, t)
      modifies this`mode, this`acked, wal, vfs`files, vfs`crashed
      ensures Valid() && s in {Ok, IoError, Crashed} && (s == Crashed ==> vfs.crashed)
      ensures s == Ok ==>
                acked == After(old(acked), t) && mode == Live(wal.log, None) && wal.log == Then(old(wal.log), t)
                  && !vfs.crashed
      ensures mode.Live? && (s != Ok ==> acked == old(acked) && InDoubt(mode) == Some(t))
      ensures wal.failed <==> s != Ok
      ensures !vfs.injecting ==> s == Ok
    {
      hide Sound, Safe, EndsAt, Extends, CacheOver, ViewsOver, Wal.Memory, Wal.Clean, After, IsState, Is, Log.Flat;
      ghost var log := wal.log;
      ghost var data := vfs.files.data;
      InForce();
      AfterIsState(acked, t);
      WrittenExists(acked, t, 0);
      s := wal.AppendTransaction(t.Images(), t.dbSize, t, acked);
      if s == Ok {
        CommitSafe(data, vfs.files.log, log, t, acked, vfs.entropy);
        AppendServes(log, t, acked, data.cache);
        mode, acked := Live(wal.log, None), After(acked, t);
      } else {
        DoubtSafe(data, log, t, acked, vfs.entropy);
        mode := Live(log, Some(t));
      }
    }

    /** A log that has not failed is the one the protocol says, and ends at the acknowledged state. */
    lemma InForce()
      requires Valid() && isOpen && !vfs.crashed && !wal.failed
      ensures mode == Live(wal.log, None) && EndsAt(wal.log, acked)
    {
    }

    /** Readers and cached pages are not disturbed by frames appended after them. */
    lemma AppendServes(log: Log, t: Txn, st: State, data: File)
      requires CacheOver(log.Flat(), st, data) && ViewsOver(log.Flat(), st, data) && Extends(st, t)
      ensures CacheOver(Then(log, t).Flat(), After(st, t), data) && ViewsOver(Then(log, t).Flat(), After(st, t), data)
    {
      hide Coherent, Shows, IsState;
      var cells := data.cells;
      AfterGrows(st, t);
      forall k | k in cache ensures Coherent(k, cache[k], Then(log, t).Flat(), cells, floor) {
        CoherentAppend(k, cache[k], log.Flat(), t.Images(), cells, floor);
      }
      forall r | r in views ensures Shows(Then(log, t).Flat(), cells, views[r].snapshot, views[r].state) {
        ShowsAppend(log.Flat(), t.Images(), cells, views[r].snapshot, views[r].state);
      }
    }

    lemma AfterGrows(st: State, t: Txn)
      requires Extends(st, t)
      ensures st.Keys <= After(st, t).Keys
    {
      hide Newest;
    }

    method PutFrame(page: PageNo, frame: FrameNo, image: Page, ghost log: Log, ghost t: Txn, ghost i: nat)
      requires Valid() && isOpen && !vfs.crashed && wal.log == Then(log, t)
      requires page in acked && i < |t.Images()| && t.Images()[i] == (page, image) && frame == log.Size() + 1 + i
      modifies this`cache, this`lru
      ensures Valid()
    {
      hide Sound, Safe, Wal.Memory, Wal.Clean, Shows, IsState;
      log.FlatSize();
      assert wal.log.Flat()[frame - 1] == t.Images()[i];
      CachePut((page, frame), image);
    }
  }

  // ----- whole runs

  datatype Command =
    | DoOpen
    | DoClose
    | DoCommit(writes: seq<Image>, pageCount: nat, freeHead: PageNo, freeCount: nat, time: int)
    | DoCheckpoint
    | DoBeginRead
    | DoReadPage(reader: nat, page: PageNo)
    | DoEndRead(ender: nat)
    | DoPowerLoss

  datatype Answer = Refused | Status(s: Status) | Reader(id: nat) | Contents(page: Page)

  /** What the caller knows from commands and answers: the state that the commits answered ok made (none before the
      first open), the state that the first commit to fail since then would have made, whether the database is open,
      what each reader sees, whether the log may have failed, and whether the power may be lost. */
  datatype Account =
    Account(model: State, candidate: Option<State>, up: bool, readers: map<nat, State>, failed: bool, lost: bool)

  const NOTHING_YET: Account := Account(map[], None, false, map[], false, false)

  function Down(a: Account): Account { a.(up := false, readers := map[], failed := false) }

  function Troubled(a: Account): Account { a.(failed := true, lost := true) }

  ghost predicate HandleOk(v: View, h: Handle) {
    v.snapshot == h.snapshot && 0 in v.state && v.state[0].HeaderPage? && HeaderOf(v.state).pageCount == h.pageCount
  }

  /** What opening may find: the model, or the candidate; or a fresh database, if there was none. */
  ghost predicate Finds(a: Account, found: State) {
    if a.model == map[] then IsFresh(found) else found == a.model || a.candidate == Some(found)
  }

  /** A transaction that writes something, and may be written. */
  ghost predicate Lands(st: State, t: Txn)
    requires 0 in st && st[0].HeaderPage?
  {
    Fitting(t.writes, t.header.pageCount, HeaderOf(st).pageCount) && !NoChange(st, t)
  }

  /** The power is lost: now, where the medium may fail, or before. */
  predicate Dark(faulty: bool, a: Account, answer: Answer) { answer == Status(Crashed) && (faulty || a.lost) }

  /** Or the log cannot be written: now, where the medium may fail, or since an earlier failure. */
  predicate Failure(faulty: bool, a: Account, answer: Answer) {
    Dark(faulty, a, answer) || (answer == Status(IoError) && (faulty || a.failed))
  }

  /** After a commit. Where the medium may fail, the checkpoint behind it may have failed. */
  ghost function Committed(faulty: bool, a: Account, t: Txn, s: Status): Account
    requires 0 in a.model && a.model[0].HeaderPage?
  {
    if s == Ok then
      var a' := a.(model := if NoChange(a.model, t) then a.model else After(a.model, t));
      if faulty then Troubled(a') else a'
    else if s == Invalid then a
    else Troubled(if a.candidate.None? && Lands(a.model, t) then a.(candidate := Some(After(a.model, t))) else a)
  }

  lemma CommittedIs(faulty: bool, a: Account, t: Txn, s: Status)
    requires 0 in a.model && a.model[0].HeaderPage?
    ensures var b := Committed(faulty, a, t, s);
            && b.up == a.up && b.readers == a.readers && (a.failed ==> b.failed) && (a.lost ==> b.lost)
            && (s != Invalid && (faulty || s != Ok) ==> b.failed && b.lost) && (s == Invalid ==> b == a)
            && b.model == (if s == Ok && !NoChange(a.model, t) then After(a.model, t) else a.model)
            && (s == Ok ==> b.candidate == a.candidate)
            && (s != Ok && s != Invalid ==>
                  b.candidate == if a.candidate.None? && Lands(a.model, t) then Some(After(a.model, t))
                    else a.candidate)
  {
    hide NoChange, Lands, After;
  }

  lemma CommitRefused(faulty: bool, a: Account, c: Command)
    requires c.DoCommit? && !a.up
    ensures Moves(faulty, a, c, Refused, a)
  {
  }

  lemma CommitMoves(faulty: bool, a: Account, c: Command, s: Status)
    requires c.DoCommit? && a.up && 0 in a.model && a.model[0].HeaderPage? && (s == Ok ==> a.candidate == None)
    requires s == Ok || s == Invalid ==> (s == Ok <==> Fitting(c.writes, c.pageCount, HeaderOf(a.model).pageCount))
    requires s != Ok && s != Invalid ==> Failure(faulty, a, Status(s))
    ensures Moves(faulty, a, c, Status(s),
                  Committed(faulty, a, TxnOf(a.model, c.writes, c.pageCount, c.freeHead, c.freeCount, c.time), s))
  {
    hide Committed, Fitting;
  }

  /** The answers a command may have, and what the account is after each. The medium works unless `faulty`. */
  ghost predicate Moves(faulty: bool, a: Account, c: Command, answer: Answer, b: Account) {
    match c
    case DoOpen =>
      if answer == Status(Ok) then Finds(a, b.model) && b == Account(b.model, None, true, map[], false, false)
      else (Dark(faulty, a, answer) || (faulty && answer == Status(IoError))) && b == Down(a).(lost := true)
    case DoClose => answer == Status(Ok) && b == Down(a)
    case DoPowerLoss => answer == Status(Ok) && b == Down(a).(lost := false)
    case DoCommit(writes, pageCount, freeHead, freeCount, time) =>
      if !a.up then answer == Refused && b == a
      else
        && 0 in a.model && a.model[0].HeaderPage? && answer.Status?
        && b == Committed(faulty, a, TxnOf(a.model, writes, pageCount, freeHead, freeCount, time), answer.s)
        && (answer.s == Ok ==> a.candidate == None)
        && (answer.s == Ok || answer.s == Invalid ==>
              (answer.s == Ok <==> Fitting(writes, pageCount, HeaderOf(a.model).pageCount)))
        && (answer.s != Ok && answer.s != Invalid ==> Failure(faulty, a, answer))
    case DoCheckpoint =>
      if !a.up then answer == Refused && b == a
      else if answer == Status(IoError) || answer == Status(Crashed) then Failure(faulty, a, answer) && b == Troubled(a)
      else answer == (if a.readers == map[] then Status(Ok) else Status(Busy)) && b == a
    case DoBeginRead =>
      if !a.up then answer == Refused && b == a
      else if answer.Reader? then answer.id !in a.readers && b == a.(readers := a.readers[answer.id := a.model])
      else Dark(faulty, a, answer) && b == a.(lost := true)
    case DoReadPage(r, page) =>
      if !a.up || r !in a.readers then answer == Refused && b == a
      else if answer == Status(Crashed) then Dark(faulty, a, answer) && b == a.(lost := true)
      else answer == (if page in a.readers[r] then Contents(a.readers[r][page]) else Status(Invalid)) && b == a
    case DoEndRead(r) =>
      if !a.up || r !in a.readers then answer == Refused && b == a
      else answer == Status(Ok) && b == a.(readers := a.readers - {r})
  }

  lemma DownMoves(faulty: bool, a: Account)
    ensures Moves(faulty, a, DoClose, Status(Ok), Down(a))
    ensures Moves(faulty, a, DoPowerLoss, Status(Ok), Down(a).(lost := false))
  {
  }

  /** The accounts before and after every command of a script, from nothing on. */
  ghost predicate Explains(faults: seq<bool>, script: seq<Command>, answers: seq<Answer>, trace: seq<Account>) {
    && |faults| == |answers| == |script| && |trace| == |script| + 1 && trace[0] == NOTHING_YET
    && forall i :: 0 <= i < |script| ==> Moves(faults[i], trace[i], script[i], answers[i], trace[i + 1])
  }

  lemma ExplainsMore(faults: seq<bool>, script: seq<Command>, n: nat, answers: seq<Answer>, trace: seq<Account>,
                     answer: Answer, a: Account)
    requires n < |script| == |faults| && Explains(faults[..n], script[..n], answers, trace)
    requires Moves(faults[n], trace[n], script[n], answer, a)
    ensures Explains(faults[..n + 1], script[..n + 1], answers + [answer], trace + [a])
  {
    hide Moves;
    var answers', trace' := answers + [answer], trace + [a];
    forall i | 0 <= i < n + 1
      ensures Moves(faults[..n + 1][i], trace'[i], script[..n + 1][i], answers'[i], trace'[i + 1])
    {
      if i < n { assert Moves(faults[..n][i], trace[i], script[..n][i], answers[i], trace[i + 1]); }
    }
  }

  /** With a medium that works throughout, nothing fails. */
  lemma {:induction false} NoFailures(faults: seq<bool>, script: seq<Command>, answers: seq<Answer>,
                                      trace: seq<Account>, n: nat)
    requires Explains(faults, script, answers, trace) && n <= |script| && forall i :: 0 <= i < n ==> !faults[i]
    ensures !trace[n].failed && !trace[n].lost
    ensures forall i :: 0 <= i < n ==> answers[i] != Status(IoError) && answers[i] != Status(Crashed)
    decreases n
  {
    hide Finds, Fitting, Lands, After, NoChange;
    if n > 0 {
      NoFailures(faults, script, answers, trace, n - 1);
      assert Moves(faults[n - 1], trace[n - 1], script[n - 1], answers[n - 1], trace[n]);
    }
  }

  /** Nothing between `i` and `j` ends the reader. */
  predicate Undisturbed(script: seq<Command>, i: nat, j: nat, r: nat)
    requires j <= |script|
  {
    forall k :: i < k < j ==>
        !script[k].DoOpen? && !script[k].DoClose? && !script[k].DoPowerLoss? && script[k] != DoEndRead(r)
  }

  lemma {:induction false} ReaderKeeps(faults: seq<bool>, script: seq<Command>, answers: seq<Answer>,
                                       trace: seq<Account>, i: nat, j: nat, r: nat)
    requires Explains(faults, script, answers, trace) && i < j <= |script| && answers[i] == Reader(r)
    requires Undisturbed(script, i, j, r)
    ensures r in trace[j].readers && trace[j].readers[r] == trace[i].model && trace[j].up
    decreases j - i
  {
    hide Finds, Fitting, Lands, After, NoChange;
    if i < j - 1 { ReaderKeeps(faults, script, answers, trace, i, j - 1, r); }
    assert Moves(faults[j - 1], trace[j - 1], script[j - 1], answers[j - 1], trace[j]);
  }

  /** Snapshot isolation, over whole runs: whatever was committed and checkpointed since, a page that a reader is
      answered is the page of the state at which it began. */
  lemma SnapshotReads(faults: seq<bool>, script: seq<Command>, answers: seq<Answer>, trace: seq<Account>, i: nat,
                      j: nat, r: nat, page: PageNo)
    requires Explains(faults, script, answers, trace) && i < j < |script| && answers[i] == Reader(r)
    requires Undisturbed(script, i, j, r)
    requires script[j] == DoReadPage(r, page)
    ensures Dark(faults[j], trace[j], answers[j]) || answers[j] == if page in trace[i].model
            then Contents(trace[i].model[page]) else Status(Invalid)
  {
    hide Finds, Fitting, Lands, After, NoChange;
    ReaderKeeps(faults, script, answers, trace, i, j, r);
    assert Moves(faults[j], trace[j], script[j], answers[j], trace[j + 1]);
  }

  // ----- what an acknowledged commit did

  /** The newest image of a page written is the page, every other page but page 0 is as it was, and page 0 has the
      transaction's header; with nothing written and no change to the header, all is as it was. */
  lemma CommitWrites(faulty: bool, a: Account, b: Account, writes: seq<Image>, pageCount: nat, freeHead: PageNo,
                     freeCount: nat, time: int)
    requires a.up && IsState(a.model)
    requires Moves(faulty, a, DoCommit(writes, pageCount, freeHead, freeCount, time), Status(Ok), b)
    ensures forall i :: 0 <= i < |writes| && (forall j :: i < j < |writes| ==> writes[j].0 != writes[i].0) ==>
              writes[i].0 in b.model && b.model[writes[i].0] == writes[i].1
    ensures forall p :: p != 0 && (forall i :: 0 <= i < |writes| ==> writes[i].0 != p) ==>
              (p in b.model <==> p in a.model) && (p in a.model ==> b.model[p] == a.model[p])
    ensures var h := HeaderOf(a.model);
            if writes == [] && pageCount == h.pageCount && freeHead == h.freeHead && freeCount == h.freeCount
            then b.model == a.model
            else 0 in b.model
                 && b.model[0] == HeaderPage(DbHeader(pageCount, freeHead, freeCount, h.changeCounter + 1, h.dbId,
                                                      time))
  {
    hide Finds, Lands, After, NoChange, Fitting;
    CommitState(a.model, writes, pageCount, freeHead, freeCount, time);
  }

  /** When the log can be written, a commit is refused exactly if it would shrink the file, writes page 0 or a page past
      the end, or leaves out a page that it adds. */
  lemma CommitAnswer(faulty: bool, a: Account, b: Account, writes: seq<Image>, pageCount: nat, freeHead: PageNo,
                     freeCount: nat, time: int, s: Status)
    requires a.up && IsState(a.model) && (s == Ok || s == Invalid)
    requires Moves(faulty, a, DoCommit(writes, pageCount, freeHead, freeCount, time), Status(s), b)
    ensures s == Ok <==>
              && HeaderOf(a.model).pageCount <= pageCount
              && (forall i :: 0 <= i < |writes| ==> 0 < writes[i].0 < pageCount)
              && forall p: PageNo :: HeaderOf(a.model).pageCount <= p < pageCount ==> p in PagesOf(writes)
    ensures s == Invalid ==> b == a
  {
    hide Finds, Lands, After, NoChange, IsState;
    forall p: PageNo ensures Newest(writes, |writes|, p).Some? <==> p in PagesOf(writes) {
      IsWritten(writes, |writes|, p);
    }
  }

  lemma {:induction false} IsWritten(writes: seq<Image>, n: nat, p: PageNo)
    requires n <= |writes|
    ensures Newest(writes, n, p).Some? <==> exists i :: 0 <= i < n && writes[i].0 == p
    decreases n
  {
    if n > 0 { IsWritten(writes, n - 1, p); }
  }

  /** The pages written have their newest images, and the others are as they were. */
  ghost predicate Wrote(st: State, writes: seq<Image>, st': State) {
    && (forall i :: 0 <= i < |writes| && (forall j :: i < j < |writes| ==> writes[j].0 != writes[i].0) ==>
          writes[i].0 in st' && st'[writes[i].0] == writes[i].1)
    && (forall p :: p != 0 && (forall i :: 0 <= i < |writes| ==> writes[i].0 != p) ==>
          (p in st' <==> p in st) && (p in st ==> st'[p] == st[p]))
  }

  /** The same of the state alone. */
  lemma CommitState(st: State, writes: seq<Image>, pageCount: nat, freeHead: PageNo, freeCount: nat, time: int)
    requires IsState(st) && Fitting(writes, pageCount, HeaderOf(st).pageCount)
    ensures var t := TxnOf(st, writes, pageCount, freeHead, freeCount, time);
            var st' := if NoChange(st, t) then st else After(st, t);
            var h := HeaderOf(st);
            && Wrote(st, writes, st')
            && if writes == [] && pageCount == h.pageCount && freeHead == h.freeHead && freeCount == h.freeCount
               then st' == st
               else 0 in st'
                    && st'[0] == HeaderPage(DbHeader(pageCount, freeHead, freeCount, h.changeCounter + 1, h.dbId, time))
  {
    hide Newest;
    var t := TxnOf(st, writes, pageCount, freeHead, freeCount, time);
    forall p: PageNo ensures Newest(t.Images(), |t.Images()|, p)
                          == if p == 0 then Some(HeaderPage(t.header)) else Newest(writes, |writes|, p)
    {
      NewestInTxn(t, p);
    }
    forall i | 0 <= i < |writes| && (forall j :: i < j < |writes| ==> writes[j].0 != writes[i].0)
      ensures Newest(writes, |writes|, writes[i].0) == Some(writes[i].1)
    {
      LastIsNewest(writes, i);
    }
    forall p | forall i :: 0 <= i < |writes| ==> writes[i].0 != p
      ensures Newest(writes, |writes|, p) == None
    {
      NotWritten(writes, p);
    }
  }

  /** As long as nothing more is committed, the state stays, through crashes and reopening. */
  lemma {:induction false} ModelStays(faults: seq<bool>, script: seq<Command>, answers: seq<Answer>,
                                      trace: seq<Account>, i: nat, j: nat)
    requires Explains(faults, script, answers, trace) && i <= j <= |script| && trace[i].candidate == None
    requires trace[i].model != map[] && forall k :: i <= k < j ==> !script[k].DoCommit?
    ensures trace[j].model == trace[i].model && trace[j].candidate == None
    decreases j - i
  {
    hide Fitting, Lands, After, NoChange, Committed;
    if i < j {
      ModelStays(faults, script, answers, trace, i, j - 1);
      assert Moves(faults[j - 1], trace[j - 1], script[j - 1], answers[j - 1], trace[j]);
    }
  }

  /** A page written by a commit that was answered ok is what every reader begun before the next commit is answered,
      even after any number of crashes and reopenings. */
  lemma AcknowledgedReads(faults: seq<bool>, script: seq<Command>, answers: seq<Answer>, trace: seq<Account>,
                          i: nat, j: nat, k: nat, r: nat, w: nat)
    requires Explains(faults, script, answers, trace) && i < j < k < |script|
    requires script[i].DoCommit? && answers[i] == Status(Ok) && forall m :: i < m < j ==> !script[m].DoCommit?
    requires answers[j] == Reader(r) && Undisturbed(script, j, k, r)
    requires w < |script[i].writes|
    requires forall x :: w < x < |script[i].writes| ==> script[i].writes[x].0 != script[i].writes[w].0
    requires script[k] == DoReadPage(r, script[i].writes[w].0)
    ensures Dark(faults[k], trace[k], answers[k]) || answers[k] == Contents(script[i].writes[w].1)
  {
    hide Explains, Undisturbed;
    WrittenPage(faults, script, answers, trace, i, w);
    ModelStays(faults, script, answers, trace, i + 1, j);
    SnapshotReads(faults, script, answers, trace, j, k, r, script[i].writes[w].0);
  }

  lemma WrittenPage(faults: seq<bool>, script: seq<Command>, answers: seq<Answer>, trace: seq<Account>, i: nat, w: nat)
    requires Explains(faults, script, answers, trace) && i < |script|
    requires script[i].DoCommit? && answers[i] == Status(Ok) && w < |script[i].writes|
    requires forall x :: w < x < |script[i].writes| ==> script[i].writes[x].0 != script[i].writes[w].0
    ensures trace[i + 1].candidate == None && script[i].writes[w].0 in trace[i + 1].model
    ensures trace[i + 1].model[script[i].writes[w].0] == script[i].writes[w].1
  {
    hide Moves, IsState;
    AccountOk(faults, script, answers, trace, i);
    var a, b := trace[i], trace[i + 1];
    match script[i]
    case DoCommit(writes, pageCount, freeHead, freeCount, time) =>
      assert Moves(faults[i], a, script[i], answers[i], b);
      CommitUp(faults[i], a, script[i], b);
      CommitWrites(faults[i], a, b, writes, pageCount, freeHead, freeCount, time);
  }

  lemma CommitUp(faulty: bool, a: Account, c: Command, b: Account)
    requires c.DoCommit? && Moves(faulty, a, c, Status(Ok), b)
    ensures a.up && b.candidate == None
  {
    hide Fitting, Lands, After, NoChange;
  }

  // ----- what a commit that failed did: all of it, or nothing

  /** As long as every commit since the opening was answered ok or refused, nothing is in doubt. */
  lemma {:induction false} NoDoubt(faults: seq<bool>, script: seq<Command>, answers: seq<Answer>, trace: seq<Account>,
                                   h: nat, i: nat)
    requires Explains(faults, script, answers, trace) && h < i <= |script|
    requires script[h].DoOpen? && answers[h] == Status(Ok)
    requires forall m :: h < m < i && script[m].DoCommit? ==>
               answers[m] != Status(IoError) && answers[m] != Status(Crashed)
    ensures trace[i].candidate == None
    decreases i
  {
    hide Fitting, Lands, After, NoChange;
    if h + 1 < i { NoDoubt(faults, script, answers, trace, h, i - 1); }
    assert Moves(faults[i - 1], trace[i - 1], script[i - 1], answers[i - 1], trace[i]);
  }

  ghost predicate OldOrNew(a: Account, before: State, after: State) {
    (a.model == before && (a.candidate == None || a.candidate == Some(after)))
      || (a.model == after && a.candidate == None)
  }

  lemma {:induction false} StaysInDoubt(faults: seq<bool>, script: seq<Command>, answers: seq<Answer>,
                                        trace: seq<Account>, i: nat, j: nat, before: State, after: State)
    requires Explains(faults, script, answers, trace) && i <= j <= |script| && OldOrNew(trace[i], before, after)
    requires before != map[] && after != map[] && forall k :: i <= k < j ==> !script[k].DoCommit?
    ensures OldOrNew(trace[j], before, after)
    decreases j - i
  {
    hide Fitting, Lands, After, NoChange, Committed;
    if i < j {
      StaysInDoubt(faults, script, answers, trace, i, j - 1, before, after);
      assert Moves(faults[j - 1], trace[j - 1], script[j - 1], answers[j - 1], trace[j]);
    }
  }

  lemma FailedCommit(faulty: bool, a: Account, c: Command, s: Status, b: Account) returns (after: State)
    requires Stateful(a) && c.DoCommit? && (s == IoError || s == Crashed) && a.candidate == None
    requires Moves(faulty, a, c, Status(s), b)
    ensures a.up && IsState(a.model) && OldOrNew(b, a.model, after)
    ensures after == a.model || (IsState(after) && Wrote(a.model, c.writes, after))
  {
    hide NoChange, After, Wrote;
    var t := TxnOf(a.model, c.writes, c.pageCount, c.freeHead, c.freeCount, c.time);
    if Lands(a.model, t) {
      after := After(a.model, t);
      FittingExtends(a.model, c.writes, c.pageCount, c.freeHead, c.freeCount, c.time);
      AfterIsState(a.model, t);
      CommitState(a.model, c.writes, c.pageCount, c.freeHead, c.freeCount, c.time);
    } else {
      after := a.model;
    }
  }

  /** A commit that failed is there whole or not at all: of any two pages that it wrote, a reader begun before the next
      commit, even after crashes and reopenings, is answered either the new ones or those from before it. */
  lemma AllOrNothing(faults: seq<bool>, script: seq<Command>, answers: seq<Answer>, trace: seq<Account>, h: nat, i: nat,
                     j: nat, k: nat, l: nat, r: nat, v: nat, w: nat)
    requires Explains(faults, script, answers, trace) && h < i < j < k < |script| && j < l < |script|
    requires script[h].DoOpen? && answers[h] == Status(Ok)
    requires forall m :: h < m < i && script[m].DoCommit? ==>
               answers[m] != Status(IoError) && answers[m] != Status(Crashed)
    requires script[i].DoCommit? && (answers[i] == Status(IoError) || answers[i] == Status(Crashed))
    requires forall m :: i < m < j ==> !script[m].DoCommit?
    requires answers[j] == Reader(r) && Undisturbed(script, j, k, r) && Undisturbed(script, j, l, r)
    requires v < |script[i].writes| && forall x :: v < x < |script[i].writes| ==>
               script[i].writes[x].0 != script[i].writes[v].0
    requires w < |script[i].writes| && forall x :: w < x < |script[i].writes| ==>
               script[i].writes[x].0 != script[i].writes[w].0
    requires script[k] == DoReadPage(r, script[i].writes[v].0) && script[l] == DoReadPage(r, script[i].writes[w].0)
    ensures Dark(faults[k], trace[k], answers[k]) || Dark(faults[l], trace[l], answers[l])
            || (answers[k] == Contents(script[i].writes[v].1) && answers[l] == Contents(script[i].writes[w].1))
            || (answers[k] == PageIn(trace[i].model, script[i].writes[v].0)
                && answers[l] == PageIn(trace[i].model, script[i].writes[w].0))
  {
    hide Undisturbed, Moves, Stateful, OldOrNew, Dark;
    NoDoubt(faults, script, answers, trace, h, i);
    AccountOk(faults, script, answers, trace, i);
    var after := FailedCommit(faults[i], trace[i], script[i], answers[i].s, trace[i + 1]);
    StaysInDoubt(faults, script, answers, trace, i + 1, j, trace[i].model, after);
    assert trace[j].model == trace[i].model || trace[j].model == after by { OneOfTwo(trace[j], trace[i].model, after); }
    SnapshotReads(faults, script, answers, trace, j, k, r, script[i].writes[v].0);
    SnapshotReads(faults, script, answers, trace, j, l, r, script[i].writes[w].0);
  }

  function PageIn(st: State, page: PageNo): Answer { if page in st then Contents(st[page]) else Status(Invalid) }

  lemma OneOfTwo(a: Account, before: State, after: State)
    requires OldOrNew(a, before, after)
    ensures a.model == before || a.model == after
  {
  }

  /** The account of an explained run has states, or nothing before the first open. */
  ghost predicate Stateful(a: Account) {
    && ((a.model == map[] && !a.up) || IsState(a.model))
    && (a.candidate.Some? ==> a.model != map[] && IsState(a.candidate.value))
  }

  lemma {:induction false} AccountOk(faults: seq<bool>, script: seq<Command>, answers: seq<Answer>, trace: seq<Account>,
                                     n: nat)
    requires Explains(faults, script, answers, trace) && n <= |script|
    ensures Stateful(trace[n])
    decreases n
  {
    hide Moves, Stateful;
    if n > 0 {
      AccountOk(faults, script, answers, trace, n - 1);
      assert Moves(faults[n - 1], trace[n - 1], script[n - 1], answers[n - 1], trace[n]);
      MoveOk(faults[n - 1], trace[n - 1], script[n - 1], answers[n - 1], trace[n]);
    } else {
      NothingOk();
    }
  }

  lemma NothingOk()
    ensures Stateful(NOTHING_YET)
  {
  }

  lemma MoveOk(faulty: bool, a: Account, c: Command, answer: Answer, b: Account)
    requires Stateful(a) && Moves(faulty, a, c, answer, b)
    ensures Stateful(b)
  {
    hide NoChange, Fitting, After, IsInitial;
    if c.DoCommit? && a.up {
      var t := TxnOf(a.model, c.writes, c.pageCount, c.freeHead, c.freeCount, c.time);
      if Fitting(c.writes, c.pageCount, HeaderOf(a.model).pageCount) {
        FittingExtends(a.model, c.writes, c.pageCount, c.freeHead, c.freeCount, c.time);
        AfterIsState(a.model, t);
      }
    }
  }

  lemma FittingExtends(st: State, writes: seq<Image>, pageCount: nat, freeHead: PageNo, freeCount: nat, time: int)
    requires IsState(st) && Fitting(writes, pageCount, HeaderOf(st).pageCount)
    ensures Extends(st, TxnOf(st, writes, pageCount, freeHead, freeCount, time))
  {
  }

  /** Durability. After any run, on a medium that may fail at any step or at none, power loss, and reboot with a
      working medium, the database opens, and it is at exactly the state its acknowledged commits made, or that state
      plus the first commit that failed since it was opened; and every page of that state can be read. */
  method DurabilityTheorem(script: seq<Command>, faults: seq<bool>, cachePages: nat, threshold: nat, page: PageNo)
    returns (answers: seq<Answer>, s: Status, read: Status, out: Page, ghost trace: seq<Account>, ghost found: State)
    requires |faults| == |script|
    ensures Explains(faults, script, answers, trace)
    ensures s == Ok && Finds(trace[|script|], found)
    ensures IsState(found) && (read == Invalid <==> page !in found)
    ensures page in found ==> read == Ok && out == found[page]
  {
    hide Db.Durable, Db.Running, After, Moves;
    var db := new Db(cachePages, threshold);
    answers, trace := db.Run(script, faults);
    db.NotCreating();
    db.PowerLoss();
    db.vfs.injecting := false;
    s := db.Open();
    found := db.acked;
    var r, snapshot, pageCount;
    s, r, snapshot, pageCount := db.BeginRead();
    read, out := db.ReadPage(r, snapshot, pageCount, page);
  }

  ghost predicate HoldsAll(f: File, st: State) {
    f.Present? && forall p :: p in st ==> p < |f.cells| && f.cells[p] == Some(PageCell(st[p]))
  }

  /** A write of one page, whole or not, changes no other page and does not shorten the file. */
  lemma WriteTouches(before: FileState, page: PageNo, c: Cell, after: FileState)
    requires before.Valid() && before.cache.Present?
    requires after == before.Record(Write(page, [c], false)) || WroteSome(before, page, [c], after)
    ensures after.cache.Present? && |before.cache.cells| <= |after.cache.cells|
    ensures forall p :: 0 <= p < |before.cache.cells| && p != page ==> after.cache.cells[p] == before.cache.cells[p]
  {
  }

  /** The log continues from a file with this header: the guard at the end of Db::open. */
  predicate HeaderContinues(h: DbHeader, log: Log) {
    && h.dbId == log.Header().dbId
    && log.Header().base <= h.changeCounter <= log.Header().base + log.Count()
  }

  /** Whatever log was found, the file's header is within its history. */
  lemma OpenedContinues(h: DbHeader, m: Mode, after: Mode, st: State, entropy: nat, log: Log)
    requires Sound(after, st, entropy) && (m.Settled? || m.Live?) && IsState(st) && Follows(m, after, st)
    requires OpensTo(after, st, log)
    requires h.dbId == HeaderOf(st).dbId && (m.Settled? ==> h == HeaderOf(st))
    requires (m.Live? ==> HeaderContinues(h, m.log))
    ensures HeaderContinues(h, log)
  {
    OutcomeSound(after, st, log, entropy);
  }

  /** The counters of a log in force: none committed, or the last one is the state's. */
  lemma InHistory(log: Log, st: State, entropy: nat)
    requires Sound(Live(log, None), st, entropy)
    ensures IsState(st) && log.Header().dbId == HeaderOf(st).dbId
    ensures log.Start? ==> log.Count() == 0
    ensures log.Then? ==>
              CommitsOf(log) != []
                && CommitsOf(log)[|CommitsOf(log)| - 1].changeCounter == log.Header().base + log.Count()
  {
    if log.Then? { LastCounter(log, st); }
  }

  /** What opening may change: nothing acknowledged, except that the transaction in doubt is decided. */
  ghost predicate Resolved(m: Mode, st: State, m': Mode, st': State, s: Status) {
    if m.Creating? then m'.Creating? || (IsFresh(st') && InDoubt(m') == None)
    else
      && !m'.Creating?
      && if s == Ok then st' == st || (InDoubt(m).Some? && st' == After(st, InDoubt(m).value))
         else st' == st && InDoubt(m') == InDoubt(m)
  }

  /** A database nothing was ever committed to. */
  ghost predicate IsFresh(st: State) {
    IsState(st) && st.Keys == {0} && IsInitial(PageCell(st[0]))
  }

  /** What a write transaction hands over: pages that exist, and every added page among them. */
  predicate Fitting(writes: seq<Image>, pageCount: nat, before: nat) {
    && pageCount >= before
    && (forall i :: 0 <= i < |writes| ==> 0 < writes[i].0 < pageCount)
    && (forall p: PageNo :: before <= p < pageCount ==> Newest(writes, |writes|, p).Some?)
  }

  lemma ChangeIs(st: State, t: Txn)
    requires IsState(st) && Fitting(t.writes, t.header.pageCount, HeaderOf(st).pageCount)
    ensures var h := HeaderOf(st);
            && (NoChange(st, t) <==>
                  && t.writes == [] && t.header.pageCount == h.pageCount && t.header.freeHead == h.freeHead
                  && t.header.freeCount == h.freeCount)
            && (Lands(st, t) <==> !NoChange(st, t))
  {
    hide Fitting;
  }

  ghost function TxnOf(st: State, writes: seq<Image>, pageCount: nat, freeHead: PageNo, freeCount: nat, time: int): Txn
    requires 0 in st && st[0].HeaderPage?
  {
    var h := HeaderOf(st);
    Txn(writes, DbHeader(pageCount, freeHead, freeCount, h.changeCounter + 1, h.dbId, time), pageCount)
  }

  /** Nothing dirty and the header as it was: nothing is written. */
  ghost predicate NoChange(st: State, t: Txn)
    requires 0 in st && st[0].HeaderPage?
  {
    var h := HeaderOf(st);
    t.writes == [] && t.header.pageCount == h.pageCount && t.header.freeHead == h.freeHead
      && t.header.freeCount == h.freeCount
  }

  /** The transaction opening may or may not find. */
  ghost function InDoubt(m: Mode): Option<Txn> { if m.Live? then m.doubt else None }

  /** `s` with every `k` taken out: the rest of a splice. */
  function Without(s: seq<Key>, k: Key): (r: seq<Key>)
    ensures |r| <= |s|
    ensures forall x :: x in r <==> x in s && x != k
  {
    if s == [] then [] else if s[0] == k then Without(s[1..], k) else [s[0]] + Without(s[1..], k)
  }

  lemma FreshAfterCheckpoint(data: FileState, wal: FileState, log: Log, prior: Option<Log>, st: State, entropy: nat)
    requires IsState(st) && log.Start? && FreshHeader(log.header, prior, entropy, st)
    requires data.pending == Nothing && HoldsAll(data.durable, st)
    requires wal.pending == Nothing && wal.durable.Present? && Is(wal.durable.cells, log)
    ensures Sound(Live(log, None), st, entropy) && Safe(DataFile, data, Live(log, None), st)
    ensures Safe(LogFile, wal, Live(log, None), st)
  {
    hide Is, FreshHeader;
    FreshSafe(data, wal, log.header, prior, st, entropy);
  }

  lemma SettledAfterCheckpoint(data: FileState, log: Log, st: State, limit: nat)
    requires EndsAt(log, st) && data.pending == Nothing && HoldsAll(data.durable, st)
    ensures Safe(DataFile, data, Settled(Some(log), limit), st)
  {
    CheckpointSettles(data, log, None, st, Some(log), limit);
  }
}

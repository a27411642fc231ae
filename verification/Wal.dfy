/** The write-ahead log (engine/src/engine/wal.cpp).

    `log` is the ghost value the fields stand for; `Memory` ties them together and
    `Clean` says the file is exactly that log, durably. */
module WalFile {
  import opened PageFormat
  import opened Disk
  import opened LogFormat
  import opened Protocol

  /** Where a transaction ends in the log, and the fields of its header page that readers and recovery ask for. */
  datatype WalCommit = WalCommit(frame: FrameNo, dbSize: nat, changeCounter: nat, commitTime: int)

  function CommitsOf(log: Log): seq<WalCommit> {
    if log.Start? then [] else
    CommitsOf(log.before)
      + [WalCommit(log.Size(), log.txn.dbSize, log.txn.header.changeCounter, log.txn.header.commitTime)]
  }

  // ----- the page index

  /** The frames that carry page `p`, ascending. */
  function Positions(images: seq<Image>, n: nat, p: PageNo): seq<FrameNo>
    requires n <= |images|
  {
    if n == 0 then []
    else if images[n - 1].0 == p then Positions(images, n - 1, p) + [n]
    else Positions(images, n - 1, p)
  }

  lemma {:induction false} PositionsSorted(images: seq<Image>, n: nat, p: PageNo)
    requires n <= |images|
    ensures var s := Positions(images, n, p);
            && (forall i :: 0 <= i < |s| ==> 1 <= s[i] <= n && images[s[i] - 1].0 == p)
            && (forall i, j :: 0 <= i < j < |s| ==> s[i] < s[j])
            && (forall k :: 0 <= k < n && images[k].0 == p ==> k + 1 in s)
  {
    if n > 0 { PositionsSorted(images, n - 1, p); }
  }

  lemma {:induction false} PositionsPrefix(a: seq<Image>, b: seq<Image>, n: nat, p: PageNo)
    requires n <= |a|
    ensures Positions(a + b, n, p) == Positions(a, n, p)
  {
    if n > 0 {
      PositionsPrefix(a, b, n - 1, p);
      assert (a + b)[n - 1] == a[n - 1];
    }
  }

  type Index = map<PageNo, seq<FrameNo>>

  function FramesFor(index: Index, p: PageNo): seq<FrameNo> { if p in index then index[p] else [] }

  ghost predicate Indexes(index: Index, images: seq<Image>) {
    forall p: PageNo :: FramesFor(index, p) == Positions(images, |images|, p)
  }

  lemma IndexesSnoc(index: Index, images: seq<Image>, image: Image)
    requires Indexes(index, images)
    ensures Indexes(index[image.0 := FramesFor(index, image.0) + [|images| + 1]], images + [image])
  {
    var index' := index[image.0 := FramesFor(index, image.0) + [|images| + 1]];
    forall p: PageNo ensures FramesFor(index', p) == Positions(images + [image], |images| + 1, p) {
      PositionsPrefix(images, [image], |images|, p);
    }
  }

  lemma NewestUnique(images: seq<Image>, n: nat, p: PageNo, f: FrameNo)
    requires f <= n <= |images|
    requires f != 0 ==> images[f - 1].0 == p
    requires forall i :: f <= i < n ==> images[i].0 != p
    ensures f == NewestFrame(images, n, p)
  {
    NoneNewer(images, n, p);
    var g := NewestFrame(images, n, p);
    assert g != 0 ==> images[g - 1].0 == p;
  }

  /** The last position at or before the snapshot is the newest frame in it. */
  lemma NewestByPosition(images: seq<Image>, n: nat, p: PageNo, k: nat)
    requires n <= |images| && k <= |Positions(images, |images|, p)|
    requires var s := Positions(images, |images|, p);
             && (forall i :: 0 <= i < k ==> s[i] <= n)
             && (forall i :: k <= i < |s| ==> s[i] > n)
    ensures NewestFrame(images, n, p) == if k == 0 then 0 else Positions(images, |images|, p)[k - 1]
  {
    var s := Positions(images, |images|, p);
    PositionsSorted(images, |images|, p);
    var f := if k == 0 then 0 else s[k - 1];
    forall i | f <= i < n ensures images[i].0 != p {}
    NewestUnique(images, n, p, f);
  }

  /** std::upper_bound. */
  method UpperBound(frames: seq<FrameNo>, snapshot: FrameNo) returns (k: nat)
    requires forall i, j :: 0 <= i < j < |frames| ==> frames[i] < frames[j]
    ensures k <= |frames|
    ensures forall i :: 0 <= i < k ==> frames[i] <= snapshot
    ensures forall i :: k <= i < |frames| ==> frames[i] > snapshot
  {
    var hi := |frames|;
    k := 0;
    while k < hi
      invariant 0 <= k <= hi <= |frames|
      invariant forall i :: 0 <= i < k ==> frames[i] <= snapshot
      invariant forall i :: hi <= i < |frames| ==> frames[i] > snapshot
    {
      var mid := (k + hi) / 2;
      if frames[mid] <= snapshot { k := mid + 1; } else { hi := mid; }
    }
  }

  /** Writing and syncing the frames of `t` after `log` makes the file the longer log. */
  lemma AppendedIs(fs: FileState, log: Log, t: Txn)
    requires fs.Valid() && fs.cache.Present? && Is(fs.cache.cells, log)
    ensures var after := fs.Record(Write(log.Size() + 1, FramesAfter(log, t), false)).cache;
            after.Present? && Is(after.cells, Then(log, t))
  {
    hide Overwritten, FramesAfter;
    var frames := FramesAfter(log, t);
    var after := Overwritten(fs.cache.cells, log.Size() + 1, frames, false);
    HoldsPrefix(fs.cache.cells, after, log);
    assert Matches(after, log.Size() + 1, frames);
  }

  /** A clean log may take any transaction that extends its state. */
  lemma CleanSafe(fs: FileState, log: Log, t: Txn, st: State)
    requires fs.Valid() && fs.pending == Nothing && fs.cache.Present? && Is(fs.cache.cells, log)
    requires EndsAt(log, st) && Extends(st, t)
    ensures Safe(LogFile, fs, Live(log, Some(t)), st)
    ensures OpOk(LogFile, Write(log.Size() + 1, FramesAfter(log, t), false), Live(log, Some(t)), st)
  {
  }

  lemma HeaderWritten(fs: FileState, h: WalHeader, prior: Option<Log>, limit: nat, st: State)
    requires fs.Valid() && IsState(st) && (prior.Some? ==> prior.value.Then?)
    requires FreshHeader(h, prior, limit, st) && Safe(LogFile, fs, Settled(prior, limit), st) && fs.cache == Present([])
    ensures var after := fs.Record(Write(0, [HeaderCell(h)], false)).Synced();
            && after.cache == Present([Some(HeaderCell(h))])
            && Safe(LogFile, after, Settled(prior, limit), st)
  {
    var written := fs.Record(Write(0, [HeaderCell(h)], false));
    assert written.cache.cells == [Some(HeaderCell(h))];
    SafeRecord(LogFile, fs, Write(0, [HeaderCell(h)], false), Settled(prior, limit), st);
    FlushKeeps(LogFile, written.durable, written.pending, Settled(prior, limit), st);
  }

  class Wal {
    const vfs: FaultVfs
    var header: WalHeader
    var nextFrame: FrameNo
    var lastCommit: FrameNo
    var chain: Sum
    var failed: bool
    var index: Index
    var commits: map<FrameNo, nat>
    var commitList: seq<WalCommit>
    ghost var log: Log

    constructor (vfs: FaultVfs)
      ensures this.vfs == vfs
    {
      this.vfs := vfs;
    }

    /** The fields in memory stand for `log`. */
    ghost predicate Memory()
      reads this`log, this`nextFrame, this`lastCommit, this`chain, this`index, this`commits, this`commitList
    {
      Listed() && nextFrame == lastCommit + 1 && chain == log.Sum()
    }

    /** The committed transactions and the page index are those of `log`. */
    ghost predicate Listed()
      reads this`log, this`lastCommit, this`index, this`commits, this`commitList
    {
      && lastCommit == log.Size()
      && Indexes(index, log.Flat())
      && commitList == CommitsOf(log)
      && (log.Then? ==> lastCommit in commits && commits[lastCommit] == log.txn.dbSize)
    }

    /** The file is `log`, durable, with nothing pending. */
    ghost predicate Clean()
      reads this`header, this`log, vfs`files
    {
      && header == log.Header()
      && vfs.files.log.pending == Nothing
      && vfs.files.log.durable == vfs.files.log.cache
      && vfs.files.log.cache.Present?
      && Is(vfs.files.log.cache.cells, log)
    }

    /** Reads of committed frames find them. */
    ghost predicate Backed()
      reads this`log, vfs`files
    {
      log.Then? ==> vfs.files.log.cache.Present? && Holds(vfs.files.log.cache.cells, log)
    }

    /** Wal::publish: `images` are the frames after the last commit. */
    method Publish(images: seq<Image>, commit: WalCommit, ghost t: Txn)
      requires Listed() && images == t.Images()
      requires commit == WalCommit(log.Size() + |images|, t.dbSize, t.header.changeCounter, t.header.commitTime)
      modifies this`index, this`commits, this`commitList, this`lastCommit, this`log
      ensures Listed() && log == Then(old(log), t)
    {
      log.FlatSize();
      AddToIndex(images, log.Flat());
      commits := commits[commit.frame := commit.dbSize];
      commitList := commitList + [commit];
      lastCommit := commit.frame;
      log := Then(log, t);
    }

    method AddToIndex(images: seq<Image>, ghost flat: seq<Image>)
      requires Indexes(index, flat) && lastCommit == |flat|
      modifies this`index
      ensures Indexes(index, flat + images)
    {
      var i := 0;
      assert flat + images[..0] == flat;
      while i < |images|
        invariant 0 <= i <= |images|
        invariant Indexes(index, flat + images[..i])
      {
        IndexesSnoc(index, flat + images[..i], images[i]);
        assert flat + images[..i] + [images[i]] == flat + images[..i + 1];
        index := index[images[i].0 := FramesFor(index, images[i].0) + [lastCommit + 1 + i]];
        i := i + 1;
      }
      assert images[..i] == images;
    }

    method WriteHeader() returns (s: Status)
      requires vfs.Valid()
      modifies vfs`files, vfs`crashed
      ensures vfs.Valid() && s in {Ok, IoError, Crashed} && (s == Crashed <==> vfs.crashed)
      ensures (old(vfs.crashed) ==> vfs.crashed)
      ensures !vfs.injecting ==> s == Ok
      ensures vfs.files.data == old(vfs.files.data)
      ensures s == Ok ==> vfs.files.log == old(vfs.files.log).Record(Write(0, [HeaderCell(header)], false)).Synced()
      ensures s != Ok ==> WroteSome(old(vfs.files.log), 0, [HeaderCell(header)], vfs.files.log)
    {
      assert TornFrom(Write(0, [HeaderCell(header)], false), Write(0, [HeaderCell(header)], false));
      s := vfs.Write(LogFile, 0, [HeaderCell(header)]);
      if s != Ok { return; }
      s := vfs.Sync(LogFile);
    }

    /** Nothing is committed under the new header. */
    method Forget()
      modifies this`nextFrame, this`lastCommit, this`chain, this`index, this`commits, this`commitList, this`log
      ensures Memory() && log == Start(header)
    {
      index, commits, commitList := map[], map[], [];
      lastCommit, nextFrame := 0, 1;
      chain := Seed(header);
      log := Start(header);
    }

    /** Starts over with a fresh header: the tail of Wal::reset and of both creation paths.
        Whatever fails, the file stays admissible while the data file has everything. */
    method StartFresh(ghost prior: Option<Log>, ghost limit: nat, ghost st: State) returns (s: Status)
      requires vfs.Valid() && IsState(st) && (prior.Some? ==> prior.value.Then?)
      requires FreshHeader(header, prior, limit, st)
      requires Safe(LogFile, vfs.files.log, Settled(prior, limit), st)
      requires vfs.files.log.cache == Present([])
      modifies vfs`files, vfs`crashed, this`nextFrame, this`lastCommit, this`chain, this`index, this`commits,
        this`commitList, this`log
      ensures vfs.Valid() && s in {Ok, IoError, Crashed} && (s == Crashed <==> vfs.crashed)
      ensures (old(vfs.crashed) ==> vfs.crashed)
      ensures !vfs.injecting ==> s == Ok
      ensures vfs.files.data == old(vfs.files.data)
      ensures Memory() && log == Start(header)
      ensures Safe(LogFile, vfs.files.log, Settled(prior, limit), st)
      ensures s == Ok ==> Clean()
    {
      Forget();
      ghost var fs := vfs.files.log;
      HeaderWritten(fs, header, prior, limit, st);
      s := WriteHeader();
      if s != Ok {
        SafeWroteSome(LogFile, fs, 0, [HeaderCell(header)], vfs.files.log, Settled(prior, limit), st);
      }
    }

    /** Wal::append_transaction: one write, one sync, and only then visible. */
    method AppendTransaction(images: seq<Image>, dbSize: nat, ghost t: Txn, ghost st: State) returns (s: Status)
      requires vfs.Valid() && !vfs.crashed && Memory() && EndsAt(log, st) && Extends(st, t)
      requires !failed ==> Clean()
      requires images == t.Images() && dbSize == t.dbSize
      modifies vfs`files, vfs`crashed, this`nextFrame, this`lastCommit, this`chain, this`index, this`commits,
        this`commitList, this`log, this`failed
      ensures vfs.Valid() && s in {Ok, IoError, Crashed} && (s == Crashed ==> vfs.crashed)
      ensures Memory() && vfs.files.data == old(vfs.files.data)
      ensures s == Ok ==> !old(failed) && !failed && log == Then(old(log), t) && Clean() && !vfs.crashed
      ensures s != Ok ==> failed && log == old(log)
      ensures old(failed) ==> vfs.files.log == old(vfs.files.log)
      ensures s != Ok && !old(failed) ==> Safe(LogFile, vfs.files.log, Live(log, Some(t)), st)
      ensures !vfs.injecting && !old(failed) ==> s == Ok
    {
      if failed { return IoError; }
      var frames, running := EncodeFrames(images, dbSize, t);
      s := WriteFrames(frames, t, st);
      if s != Ok {
        var d := DiscardUncommitted(t, st);
        failed := true;
        return if d == Crashed then d else s;
      }
      var last := images[|images| - 1].1.header;
      Publish(images, WalCommit(nextFrame + |images| - 1, dbSize, last.changeCounter, last.commitTime), t);
      nextFrame := lastCommit + 1;
      chain := running;
    }

    /** The chained frames of one transaction. */
    method EncodeFrames(images: seq<Image>, dbSize: nat, ghost t: Txn) returns (frames: seq<Cell>, running: Sum)
      requires Memory() && header == log.Header() && images == t.Images() && dbSize == t.dbSize
      ensures frames == FramesAfter(log, t) && running == Then(log, t).Sum()
    {
      frames, running := [], chain;
      var i := 0;
      while i < |images|
        invariant 0 <= i <= |images| == |t.writes| + 1
        invariant running == SumAfter(t, header.salt, log.Sum(), i)
        invariant frames == FramesAfter(log, t)[..i]
      {
        var f := MakeFrame(images[i].0, if i + 1 == |images| then dbSize else 0, header.salt, images[i].1, running);
        assert FrameCell(f) == FramesAfter(log, t)[i];
        frames := frames + [FrameCell(f)];
        running := f.sum;
        i := i + 1;
      }
      assert frames == FramesAfter(log, t);
    }

    /** The frames of a transaction go to the file together, and are synced once. */
    method WriteFrames(frames: seq<Cell>, ghost t: Txn, ghost st: State) returns (s: Status)
      requires vfs.Valid() && Memory() && Clean() && EndsAt(log, st) && Extends(st, t)
      requires frames == FramesAfter(log, t)
      modifies vfs`files, vfs`crashed
      ensures vfs.Valid() && s in {Ok, IoError, Crashed} && (s == Crashed <==> vfs.crashed)
      ensures (old(vfs.crashed) ==> vfs.crashed)
      ensures !vfs.injecting ==> s == Ok
      ensures vfs.files.data == old(vfs.files.data)
      ensures s != Ok ==> Safe(LogFile, vfs.files.log, Live(log, Some(t)), st)
      ensures s == Ok ==> vfs.files.log.pending == Nothing && vfs.files.log.durable == vfs.files.log.cache
      ensures s == Ok ==> vfs.files.log.cache.Present? && Is(vfs.files.log.cache.cells, Then(log, t))
    {
      hide FramesAfter, Holds, Remnant;
      ghost var fs := vfs.files.log;
      CleanSafe(fs, log, t, st);
      AppendedIs(fs, log, t);
      assert TornFrom(Write(nextFrame, frames, false), Write(nextFrame, frames, false));
      s := vfs.Write(LogFile, nextFrame, frames);
      if s == Ok {
        s := vfs.Sync(LogFile);
      }
      if s != Ok {
        SafeWroteSome(LogFile, fs, nextFrame, frames, vfs.files.log, Live(log, Some(t)), st);
      }
    }

    /** Wal::discard_uncommitted. */
    method DiscardUncommitted(ghost t: Txn, ghost st: State) returns (s: Status)
      requires vfs.Valid() && Memory() && EndsAt(log, st) && Extends(st, t)
      requires Safe(LogFile, vfs.files.log, Live(log, Some(t)), st)
      modifies vfs`files, vfs`crashed
      ensures vfs.Valid() && s in {Ok, IoError, Crashed} && (s == Crashed <==> vfs.crashed)
      ensures (old(vfs.crashed) ==> vfs.crashed)
      ensures vfs.files.data == old(vfs.files.data)
      ensures Safe(LogFile, vfs.files.log, Live(log, Some(t)), st)
    {
      ghost var m := Live(log, Some(t));
      SafeRecord(LogFile, vfs.files.log, Truncate(nextFrame), m, st);
      s := vfs.Truncate(LogFile, nextFrame);
      if s != Ok { return; }
      SafeSynced(LogFile, vfs.files.log, m, st, Salt(log) + 1);
      s := vfs.Sync(LogFile);
    }

    /** Wal::find: where a reader of `snapshot` finds `page` in the log, if it does. */
    method Find(page: PageNo, snapshot: FrameNo) returns (f: FrameNo)
      requires Listed() && snapshot <= |log.Flat()|
      ensures f == NewestFrame(log.Flat(), snapshot, page)
    {
      ghost var images := log.Flat();
      var frames := FramesFor(index, page);
      PositionsSorted(images, |images|, page);
      assert frames == Positions(images, |images|, page);
      var k := UpperBound(frames, snapshot);
      f := if k == 0 then 0 else frames[k - 1];
      NewestByPosition(images, snapshot, page, k);
    }

    /** Wal::read_frame_page. */
    method ReadFramePage(frame: FrameNo) returns (s: Status, page: Page)
      requires vfs.Valid() && Memory() && Backed()
      modifies vfs`crashed
      ensures vfs.Valid() && (old(vfs.crashed) ==> vfs.crashed) && (s == Crashed ==> vfs.crashed)
      ensures s == Invalid <==> !(1 <= frame <= |log.Flat()|)
      ensures s != Invalid ==> s in {Ok, Crashed} && (s == Crashed <==> vfs.crashed)
      ensures s == Ok ==> page == log.Flat()[frame - 1].1
      ensures !vfs.injecting && 1 <= frame <= |log.Flat()| ==> s == Ok
    {
      log.FlatSize();
      page := BodyPage([]);
      if frame == 0 || frame >= nextFrame { return Invalid, page; }
      HoldsImage(vfs.files.log.cache.cells, log, frame);
      var cell;
      s, cell := vfs.Read(LogFile, frame);
      if s != Ok { return; }
      page := cell.value.frame.image;
    }

    /** Wal::latest_frames. */
    method LatestFrames(upTo: FrameNo) returns (latest: map<PageNo, FrameNo>)
      requires Listed() && upTo <= |log.Flat()|
      ensures forall p: PageNo :: p in latest <==> NewestFrame(log.Flat(), upTo, p) != 0
      ensures forall p :: p in latest ==> latest[p] == NewestFrame(log.Flat(), upTo, p)
    {
      ghost var images := log.Flat();
      latest := map[];
      var pages := index.Keys;
      while pages != {}
        invariant pages <= index.Keys
        invariant forall p: PageNo :: p in latest <==> p in index && p !in pages && NewestFrame(images, upTo, p) != 0
        invariant forall p :: p in latest ==> latest[p] == NewestFrame(images, upTo, p)
        decreases pages
      {
        var p :| p in pages;
        pages := pages - {p};
        var f := Find(p, upTo);
        if f != 0 { latest := latest[p := f]; }
      }
      forall p: PageNo | NewestFrame(images, upTo, p) != 0 ensures p in index {
        PositionsSorted(images, |images|, p);
        assert NewestFrame(images, upTo, p) in FramesFor(index, p);
      }
    }

    /** Wal::reset: an empty log under a new header. From the truncation on, no reader is led to a
        frame, even if the header cannot be written. */
    method Reset(base: nat, ghost st: State) returns (s: Status)
      requires vfs.Valid() && Memory() && EndsAt(log, st) && log.Then? && Salt(log) < vfs.entropy
      requires !failed ==> Clean()
      requires base == HeaderOf(st).changeCounter && header.dbId == HeaderOf(st).dbId
      modifies vfs`files, vfs`crashed, vfs`entropy, this`header, this`nextFrame, this`lastCommit, this`chain,
        this`index, this`commits, this`commitList, this`log, this`failed
      ensures vfs.Valid() && s in {Ok, IoError, Crashed} && (old(vfs.crashed) ==> vfs.crashed)
      ensures (s == Crashed ==> vfs.crashed)
      ensures Memory() && vfs.files.data == old(vfs.files.data) && vfs.entropy >= old(vfs.entropy)
      ensures header.dbId == old(header.dbId)
      ensures s == Ok ==>
                !failed && Clean() && log.Start? && Salt(log) < vfs.entropy
                  && FreshHeader(log.header, Some(old(log)), vfs.entropy, st)
      ensures s == Ok ==> !vfs.crashed
      ensures s != Ok ==> failed
      ensures s != Ok ==>
                || (log == old(log) && vfs.files.log == old(vfs.files.log))
                || (log.Start? && Safe(LogFile, vfs.files.log, Settled(Some(old(log)), vfs.entropy), st))
      ensures old(failed) ==> s == IoError && log == old(log) && vfs.files.log == old(vfs.files.log)
      ensures !vfs.injecting && !old(failed) ==> s == Ok
    {
      if failed { return IoError; }
      ghost var prior, fs := Some(log), vfs.files.log;
      var salt := vfs.Random();
      ghost var limit := vfs.entropy;
      header := WalHeader(salt, header.dbId, base);
      s := vfs.Truncate(LogFile, 0);
      if s != Ok {
        failed := true;
        return;
      }
      assert Safe(LogFile, fs, Settled(prior, limit), st);
      Emptied(fs, prior, limit, st);
      s := StartFresh(prior, limit, st);
      if s != Ok { failed := true; }
    }

    /** The scan of Wal::recover: publishes the longest valid run of whole transactions. */
    method ScanFile() returns (s: Status)
      requires vfs.Valid() && !vfs.crashed && vfs.files.log.cache.Present? && vfs.files.log.cache.cells != []
      modifies vfs`crashed, this`nextFrame, this`lastCommit, this`chain, this`index, this`commits, this`commitList,
        this`log
      ensures vfs.Valid() && s in {Ok, Crashed} && (s == Crashed <==> vfs.crashed)
      ensures !vfs.injecting ==> s == Ok
      ensures s == Ok ==> Memory() && log == Recovered(vfs.files.log.cache.cells, header)
    {
      hide Scanned, Indexes, CommitsOf, HeldSum;
      Forget();
      ghost var cells := vfs.files.log.cache.cells;
      ScanStart(cells, header);
      NoneHeld(header.salt, log.Sum());
      var size := |vfs.files.log.cache.cells|;
      var held: seq<Image> := [];
      var frame, running := 1, chain;
      while frame < size
        invariant 1 <= frame <= size == |cells| && vfs.files == old(vfs.files) && vfs.Valid() && !vfs.crashed
        invariant Listed() && chain == log.Sum()
        invariant log.Header() == header && frame - 1 == log.Size() + |held|
        invariant running == HeldSum(held, header.salt, log.Sum())
        invariant Scanned(cells, header, frame - 1) == Scan(log, held, running, true)
      {
        var cell;
        s, cell := vfs.Read(LogFile, frame);
        if s != Ok { return; }
        var f := Accepted(cell, header.salt, running);
        if f.None? || BadCommit(f.value) {
          ScanBreak(cells, header, frame - 1);
          break;
        }
        ScanNext(cells, frame - 1, log, held, f.value);
        running := f.value.sum;
        if f.value.dbSize != 0 {
          PublishCommit(frame, held, f.value);
          held := [];
          NoneHeld(header.salt, log.Sum());
        } else {
          held := held + [(f.value.page, f.value.image)];
        }
        frame := frame + 1;
      }
      nextFrame := lastCommit + 1;
      return Ok;
    }

    /** A transaction ends at the frame of its header page, whose number identifies it to readers. */
    method PublishCommit(frame: FrameNo, held: seq<Image>, f: Frame)
      requires Listed() && frame == log.Size() + |held| + 1
      requires f.page == 0 && f.image.HeaderPage?
      modifies this`lastCommit, this`chain, this`index, this`commits, this`commitList, this`log
      ensures Listed() && chain == f.sum && log == Then(old(log), Txn(held, f.image.header, f.dbSize))
    {
      var h := f.image.header;
      ghost var t := Txn(held, h, f.dbSize);
      assert t.Images() == held + [(f.page, f.image)];
      Publish(held + [(f.page, f.image)], WalCommit(frame, f.dbSize, h.changeCounter, h.commitTime), t);
      chain := f.sum;
    }

    /** Wal::open: creates the log, starts it afresh if its header is unreadable, or recovers it.
        `m` is the protocol mode before, `after` the mode at every exit. */
    method Open(dbId: nat, newBase: nat, ghost m: Mode, ghost st: State) returns (s: Status, ghost after: Mode)
      requires vfs.Valid() && !vfs.crashed && Sound(m, st, vfs.entropy) && (m.Settled? || m.Live?)
      requires Safe(LogFile, vfs.files.log, m, st)
      requires dbId == HeaderOf(st).dbId && (m.Settled? ==> newBase == HeaderOf(st).changeCounter)
      modifies vfs, this
      ensures vfs.Valid() && s in {Ok, IoError, Crashed} && (s == Crashed <==> vfs.crashed)
      ensures !vfs.injecting ==> s == Ok
      ensures vfs.files.data == old(vfs.files.data) && vfs.entropy >= old(vfs.entropy)
      ensures vfs.injecting == old(vfs.injecting)
      ensures Follows(m, after, st)
      ensures Sound(after, st, vfs.entropy) && Safe(LogFile, vfs.files.log, after, st)
      ensures s == Ok ==> Memory() && Clean() && !failed && OpensTo(after, st, log) && Salt(log) < vfs.entropy
    {
      after := m;
      failed := false;
      SafeCache(LogFile, vfs.files.log, m, st, vfs.entropy);
      var found;
      s, found := vfs.Exists(LogFile);
      s := vfs.Open(LogFile);
      if s != Ok { return; }
      if found {
        s, after := Recover(dbId, newBase, m, st);
      } else {
        SafeRecord(LogFile, old(vfs.files.log), Create, m, st);
        s := CreateLog(dbId, newBase, m.limit, st);
        after := Settled(None, vfs.entropy);
      }
    }

    method CreateLog(dbId: nat, newBase: nat, ghost limit: nat, ghost st: State) returns (s: Status)
      requires vfs.Valid() && !vfs.crashed && Sound(Settled(None, limit), st, vfs.entropy)
      requires Safe(LogFile, vfs.files.log, Settled(None, limit), st) && vfs.files.log.cache == Present([])
      requires dbId == HeaderOf(st).dbId && newBase == HeaderOf(st).changeCounter
      modifies vfs, this
      ensures vfs.Valid() && s in {Ok, IoError, Crashed} && (s == Crashed <==> vfs.crashed)
      ensures !vfs.injecting ==> s == Ok
      ensures vfs.files.data == old(vfs.files.data) && vfs.entropy >= old(vfs.entropy)
      ensures vfs.injecting == old(vfs.injecting)
      ensures failed == old(failed)
      ensures Safe(LogFile, vfs.files.log, Settled(None, vfs.entropy), st)
      ensures s == Ok ==> Memory() && Clean() && log.Start? && FreshHeader(log.header, None, vfs.entropy, st)
    {
      var salt := vfs.Random();
      header := WalHeader(salt, dbId, newBase);
      WidenLimit(vfs.files.log, None, limit, vfs.entropy, st);
      s := StartFresh(None, vfs.entropy, st);
      if s != Ok { return; }
      s := vfs.SyncDirectory();
    }

    method Recover(dbId: nat, newBase: nat, ghost m: Mode, ghost st: State) returns (s: Status, ghost after: Mode)
      requires vfs.Valid() && !vfs.crashed && Sound(m, st, vfs.entropy) && (m.Settled? || m.Live?)
      requires Safe(LogFile, vfs.files.log, m, st) && vfs.files.log.cache.Present?
      requires dbId == HeaderOf(st).dbId && (m.Settled? ==> newBase == HeaderOf(st).changeCounter)
      modifies vfs, this
      ensures vfs.Valid() && s in {Ok, IoError, Crashed} && (s == Crashed <==> vfs.crashed)
      ensures !vfs.injecting ==> s == Ok
      ensures vfs.files.data == old(vfs.files.data) && vfs.entropy >= old(vfs.entropy)
      ensures vfs.injecting == old(vfs.injecting)
      ensures failed == old(failed)
      ensures Follows(m, after, st)
      ensures Sound(after, st, vfs.entropy) && Safe(LogFile, vfs.files.log, after, st)
      ensures s == Ok ==> Memory() && Clean() && OpensTo(after, st, log) && Salt(log) < vfs.entropy
    {
      after := m;
      SafeCache(LogFile, vfs.files.log, m, st, vfs.entropy);
      var cell;
      s, cell := vfs.Read(LogFile, 0);
      if s != Ok { return; }
      if cell.None? || !cell.value.HeaderCell? || cell.value.header.dbId != dbId {
        // A live log has its own header on every survivor of its file.
        if m.Live? { LiveHeader(vfs.files.log.cache, m, st, vfs.entropy); assert false; }
        s := Rewrite(dbId, newBase, m.prior, m.limit, st);
        after := Settled(m.prior, vfs.entropy);
        return;
      }
      header := cell.value.header;
      s, after := RecoverFrames(m, st);
    }

    /** The header is unreadable: nothing acknowledged can be behind it, so start a fresh log. */
    method Rewrite(dbId: nat, newBase: nat, ghost prior: Option<Log>, ghost limit: nat, ghost st: State)
      returns (s: Status)
      requires vfs.Valid() && !vfs.crashed && Sound(Settled(prior, limit), st, vfs.entropy)
      requires Safe(LogFile, vfs.files.log, Settled(prior, limit), st) && vfs.files.log.cache.Present?
      requires dbId == HeaderOf(st).dbId && newBase == HeaderOf(st).changeCounter
      modifies vfs, this
      ensures vfs.Valid() && s in {Ok, IoError, Crashed} && (s == Crashed <==> vfs.crashed)
      ensures !vfs.injecting ==> s == Ok
      ensures vfs.files.data == old(vfs.files.data) && vfs.entropy >= old(vfs.entropy)
      ensures vfs.injecting == old(vfs.injecting)
      ensures failed == old(failed)
      ensures Safe(LogFile, vfs.files.log, Settled(prior, vfs.entropy), st)
      ensures s == Ok ==> Memory() && Clean() && log.Start? && FreshHeader(log.header, prior, vfs.entropy, st)
    {
      var salt := vfs.Random();
      header := WalHeader(salt, dbId, newBase);
      WidenLimit(vfs.files.log, prior, limit, vfs.entropy, st);
      Emptied(vfs.files.log, prior, vfs.entropy, st);
      s := vfs.Truncate(LogFile, 0);
      if s != Ok { return; }
      s := StartFresh(prior, vfs.entropy, st);
    }

    method RecoverFrames(ghost m: Mode, ghost st: State) returns (s: Status, ghost after: Mode)
      requires vfs.Valid() && !vfs.crashed && Sound(m, st, vfs.entropy) && (m.Settled? || m.Live?)
      requires Safe(LogFile, vfs.files.log, m, st) && vfs.files.log.cache.Present?
      requires AcceptedHeader(vfs.files.log.cache, HeaderOf(st).dbId) == Some(header)
      modifies vfs`files, vfs`crashed, this`nextFrame, this`lastCommit, this`chain, this`index, this`commits,
        this`commitList, this`log
      ensures vfs.Valid() && s in {Ok, IoError, Crashed} && (s == Crashed <==> vfs.crashed)
      ensures !vfs.injecting ==> s == Ok
      ensures vfs.files.data == old(vfs.files.data)
      ensures Follows(m, after, st)
      ensures Sound(after, st, vfs.entropy) && Safe(LogFile, vfs.files.log, after, st)
      ensures s == Ok ==> Memory() && Clean() && OpensTo(after, st, log) && Salt(log) < vfs.entropy
    {
      hide Safe, Sound, Follows, OpensTo, Recovered, Indexes, AcceptedHeader, CommitsOf;
      ghost var found, cut;
      found, after, cut := RecoveryPlan(vfs.files.log, m, st, vfs.entropy, header);
      s := ScanFile();
      if s != Ok { return; }
      s := CutFile();
      if s != Ok { return; }
      assert vfs.files.log == cut;
      s := Barrier(after, st);
    }

    /** Removes what recovery did not publish. */
    method CutFile() returns (s: Status)
      requires vfs.Valid() && !vfs.crashed && vfs.files.log.cache.Present?
      modifies vfs`files, vfs`crashed
      ensures vfs.Valid() && s in {Ok, IoError, Crashed} && (s == Crashed <==> vfs.crashed)
      ensures !vfs.injecting ==> s == Ok
      ensures vfs.files.data == old(vfs.files.data)
      ensures s != Ok ==> vfs.files.log == old(vfs.files.log)
      ensures s == Ok ==>
                vfs.files.log == if nextFrame < |old(vfs.files.log).cache.cells|
                                 then old(vfs.files.log).Record(Truncate(nextFrame)) else old(vfs.files.log)
    {
      s := Ok;
      if nextFrame < |vfs.files.log.cache.cells| {
        s := vfs.Truncate(LogFile, nextFrame);
      }
    }

    /** The durability barrier at the end of recovery. */
    method Barrier(ghost m: Mode, ghost st: State) returns (s: Status)
      requires vfs.Valid() && !vfs.crashed && Sound(m, st, vfs.entropy)
      requires Safe(LogFile, vfs.files.log, m, st)
      modifies vfs`files, vfs`crashed
      ensures vfs.Valid() && s in {Ok, IoError, Crashed} && (s == Crashed <==> vfs.crashed)
      ensures !vfs.injecting ==> s == Ok
      ensures vfs.files.data == old(vfs.files.data)
      ensures vfs.files.log == old(vfs.files.log) || vfs.files.log == old(vfs.files.log).Synced()
      ensures s == Ok ==> vfs.files.log == old(vfs.files.log).Synced()
      ensures Safe(LogFile, vfs.files.log, m, st)
    {
      SafeSynced(LogFile, vfs.files.log, m, st, vfs.entropy);
      s := vfs.Sync(LogFile);
      if s != Ok { return; }
      s := vfs.SyncDirectory();
    }
  }
}

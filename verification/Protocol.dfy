/** What the two files of a database may hold at any moment, so that no power loss
    can lose an acknowledged state.

    `Fits` describes the admissible contents of a file, `OpOk` the operations the
    engine may leave pending on it. Both depend on the `Mode` of the protocol. The
    lemmas show that admissible contents stay admissible under any subset of the
    pending operations, applied in any order and torn anywhere. */
module Protocol {
  import opened PageFormat
  import opened Disk
  import opened LogFormat

  /** A committed state: the pages below the header's page count. */
  type State = map<PageNo, Page>

  ghost predicate IsState(st: State) {
    && 0 in st && st[0].HeaderPage? && st[0].header.pageCount > 0
    && forall p: PageNo :: p in st <==> p < st[0].header.pageCount
  }

  function HeaderOf(st: State): DbHeader
    requires 0 in st && st[0].HeaderPage?
  {
    st[0].header
  }

  // ----- page images, newest first

  /** The newest of the first `n` images of page `p`. */
  function NewestFrame(images: seq<Image>, n: nat, p: PageNo): (f: FrameNo)
    requires n <= |images|
    ensures f <= n
    ensures f != 0 ==> images[f - 1].0 == p
  {
    if n == 0 then 0 else if images[n - 1].0 == p then n else NewestFrame(images, n - 1, p)
  }

  lemma {:induction false} NoneNewer(images: seq<Image>, n: nat, p: PageNo)
    requires n <= |images|
    ensures forall i :: NewestFrame(images, n, p) <= i < n ==> images[i].0 != p
  {
    if n > 0 { NoneNewer(images, n - 1, p); }
  }

  function Newest(images: seq<Image>, n: nat, p: PageNo): Option<Page>
    requires n <= |images|
  {
    var f := NewestFrame(images, n, p);
    if f == 0 then None else Some(images[f - 1].1)
  }

  ghost function PagesOf(writes: seq<Image>): set<PageNo> { set i | 0 <= i < |writes| :: writes[i].0 }

  lemma LastIsNewest(images: seq<Image>, i: nat)
    requires i < |images| && forall j :: i < j < |images| ==> images[j].0 != images[i].0
    ensures Newest(images, |images|, images[i].0) == Some(images[i].1)
  {
    NoneNewer(images, |images|, images[i].0);
  }

  lemma NotWritten(images: seq<Image>, p: PageNo)
    requires forall i :: 0 <= i < |images| ==> images[i].0 != p
    ensures Newest(images, |images|, p) == None
  {
  }

  lemma {:induction false} NewestConcat(a: seq<Image>, b: seq<Image>, k: nat, p: PageNo)
    requires k <= |b|
    ensures Newest(a + b, |a| + k, p) == if Newest(b, k, p).Some? then Newest(b, k, p) else Newest(a, |a|, p)
    ensures NewestFrame(a + b, |a| + k, p)
         == if NewestFrame(b, k, p) != 0 then |a| + NewestFrame(b, k, p) else NewestFrame(a, |a|, p)
    decreases k
  {
    if k == 0 {
      NewestPrefix(a, b, |a|, p);
    } else {
      NewestConcat(a, b, k - 1, p);
      assert (a + b)[|a| + k - 1] == b[k - 1];
    }
  }

  /** A snapshot does not see what is appended after it. */
  lemma {:induction false} NewestPrefix(a: seq<Image>, b: seq<Image>, n: nat, p: PageNo)
    requires n <= |a|
    ensures NewestFrame(a + b, n, p) == NewestFrame(a, n, p)
    ensures Newest(a + b, n, p) == Newest(a, n, p)
    decreases n
  {
    if n > 0 {
      NewestPrefix(a, b, n - 1, p);
      assert (a + b)[n - 1] == a[n - 1];
    }
  }

  /** The newest image of a page in a whole log. */
  function Logged(log: Log, p: PageNo): Option<Page> {
    Newest(log.Flat(), |log.Flat()|, p)
  }

  // ----- transactions

  /** The state after `t`. */
  ghost function After(st: State, t: Txn): (r: State)
  {
    map p: PageNo | p < t.header.pageCount && (Newest(t.Images(), |t.Images()|, p).Some? || p in st) ::
      if Newest(t.Images(), |t.Images()|, p).Some? then Newest(t.Images(), |t.Images()|, p).value else st[p]
  }

  /** What WriteTxn::commit hands to the log: the counter advances by one, the page count does
      not shrink, every page written exists and every page added is written. */
  ghost predicate Extends(st: State, t: Txn) {
    && IsState(st)
    && t.dbSize == t.header.pageCount >= HeaderOf(st).pageCount
    && t.header.changeCounter == HeaderOf(st).changeCounter + 1
    && t.header.dbId == HeaderOf(st).dbId
    && (forall i :: 0 <= i < |t.writes| ==> 0 < t.writes[i].0 < t.header.pageCount)
    && (forall p: PageNo :: HeaderOf(st).pageCount <= p < t.header.pageCount ==> Newest(t.writes, |t.writes|, p).Some?)
  }

  lemma NewestInTxn(t: Txn, p: PageNo)
    ensures Newest(t.Images(), |t.Images()|, p)
         == if p == 0 then Some(HeaderPage(t.header)) else Newest(t.writes, |t.writes|, p)
  {
    NewestConcat(t.writes, [(0, HeaderPage(t.header))], 1, p);
  }

  /** The last image is page 0, so the state after a transaction carries its header. */
  lemma AfterIsState(st: State, t: Txn)
    requires Extends(st, t)
    ensures IsState(After(st, t)) && HeaderOf(After(st, t)) == t.header && t.header.dbId == HeaderOf(st).dbId
  {
    forall p: PageNo ensures p in After(st, t) <==> p < t.header.pageCount {
      NewestInTxn(t, p);
    }
    NewestInTxn(t, 0);
  }

  /** Every page of the old state, and every page written, is in the new one. */
  lemma WrittenExists(st: State, t: Txn, i: nat)
    requires Extends(st, t) && i < |t.Images()|
    ensures t.Images()[i].0 in After(st, t) && st.Keys <= After(st, t).Keys
  {
    AfterIsState(st, t);
  }

  lemma LoggedThen(log: Log, t: Txn, p: PageNo)
    ensures Logged(Then(log, t), p)
         == if Newest(t.Images(), |t.Images()|, p).Some? then Newest(t.Images(), |t.Images()|, p) else Logged(log, p)
  {
    NewestConcat(log.Flat(), t.Images(), |t.Images()|, p);
  }

  // ----- logs

  /** Every transaction counts one up from the log's base and belongs to its database. */
  predicate Continues(log: Log) {
    log.Then? ==>
      && Continues(log.before)
      && log.txn.Readable()
      && log.txn.dbSize == log.txn.header.pageCount
      && log.txn.header.changeCounter == log.Header().base + log.Count()
      && log.txn.header.dbId == log.Header().dbId
  }

  lemma {:induction false} ContinuesReadable(log: Log)
    requires Continues(log)
    ensures log.Readable()
  {
    if log.Then? { ContinuesReadable(log.before); }
  }

  /** `log` ends at `st`, and the pages it holds are the pages of `st`. */
  ghost predicate EndsAt(log: Log, st: State) {
    && Continues(log)
    && IsState(st)
    && HeaderOf(st).changeCounter == log.Header().base + log.Count()
    && HeaderOf(st).dbId == log.Header().dbId
    && (log.Then? ==> log.txn.header == HeaderOf(st))
    && forall p: PageNo :: Logged(log, p).Some? ==> p in st && st[p] == Logged(log, p).value
  }

  lemma LoggedHeader(log: Log)
    requires log.Then?
    ensures Logged(log, 0) == Some(HeaderPage(log.txn.header))
  {
    LoggedThen(log.before, log.txn, 0);
    NewestInTxn(log.txn, 0);
  }

  lemma EndsAtThen(log: Log, st: State, t: Txn)
    requires EndsAt(log, st) && Extends(st, t)
    ensures EndsAt(Then(log, t), After(st, t))
  {
    AfterIsState(st, t);
    forall p: PageNo | Logged(Then(log, t), p).Some?
      ensures p in After(st, t) && After(st, t)[p] == Logged(Then(log, t), p).value
    {
      LoggedThen(log, t, p);
      NewestInTxn(t, p);
    }
  }

  // ----- the protocol

  datatype Mode =
    | Creating                                  // no database yet
    | Settled(prior: Option<Log>, limit: nat)   // the data file has everything; the log is being (re)written
    | Live(log: Log, doubt: Option<Txn>)        // the log has what the data file may lack

  function Salt(log: Log): nat { log.Header().salt }

  /** What a mode says beside the files. */
  ghost predicate Sound(m: Mode, st: State, entropy: nat) {
    match m
    case Creating => true
    case Settled(prior, limit) =>
      && IsState(st) && limit <= entropy
      && (prior.Some? ==> EndsAt(prior.value, st) && prior.value.Then? && Salt(prior.value) < entropy)
    case Live(log, doubt) =>
      && EndsAt(log, st) && Salt(log) < entropy
      && (doubt.Some? ==> Extends(st, doubt.value))
  }

  predicate IsInitial(c: Cell) {
    c.PageCell? && c.page.HeaderPage? &&
    var h := c.page.header; h.pageCount == 1 && h.freeHead == 0 && h.freeCount == 0 && h.changeCounter == 0
  }

  /** A page-0 image the data file may carry while `log` is in force. */
  predicate HeaderInRange(c: Cell, log: Log) {
    && c.PageCell? && c.page.HeaderPage?
    && c.page.header.pageCount != 0
    && c.page.header.dbId == log.Header().dbId
    && log.Header().base <= c.page.header.changeCounter <= log.Header().base + log.Count()
  }

  predicate FreshHeader(h: WalHeader, prior: Option<Log>, limit: nat, st: State)
    requires 0 in st && st[0].HeaderPage?
  {
    && h.salt < limit
    && h.base == HeaderOf(st).changeCounter
    && h.dbId == HeaderOf(st).dbId
    && (prior.Some? ==> h.salt != Salt(prior.value))
  }

  ghost predicate DataFits(f: File, m: Mode, st: State)
    requires m.Settled? || m.Live? ==> IsState(st)
  {
    match m
    case Creating => f.Present? ==>
        |f.cells| <= 1 && (|f.cells| == 1 && f.cells[0].Some? ==> IsInitial(f.cells[0].value))
    case Settled(_, _) =>
      f.Present? && forall p :: p in st ==> p < |f.cells| && f.cells[p] == Some(PageCell(st[p]))
    case Live(log, _) =>
      && f.Present? && f.cells != []
      && (forall p :: p in st && Logged(log, p).None? ==> p < |f.cells| && f.cells[p] == Some(PageCell(st[p])))
      && (f.cells != [] && f.cells[0].Some? ==> HeaderInRange(f.cells[0].value, log))
  }

  predicate StaleCell(c: Option<Cell>, salt: nat) {
    c.Some? ==> c.value.FrameCell? && c.value.frame.salt == salt
  }

  ghost predicate LogFits(f: File, m: Mode, st: State)
    requires m.Settled? || m.Live? ==> IsState(st)
  {
    match m
    case Creating => f.Absent?
    case Settled(prior, limit) =>
      || (f.Absent? && prior.None?)
      || (f.Present? && prior.Some? && Is(f.cells, prior.value))
      || (&& f.Present?
          && (f.cells != [] && f.cells[0].Some? ==>
                f.cells[0].value.HeaderCell? && FreshHeader(f.cells[0].value.header, prior, limit, st))
          && (|f.cells| > 1 ==> prior.Some? && StaleCell(f.cells[1], Salt(prior.value))))
    case Live(log, doubt) =>
      && f.Present? && Holds(f.cells, log)
      && if doubt.Some? then Remnant(f.cells, log, doubt.value)
         else |f.cells| == log.Size() + 1 || (log.Start? && |f.cells| > 1 && Foreign(f.cells[1], Salt(log)))
  }

  ghost predicate Fits(id: FileId, f: File, m: Mode, st: State)
    requires m.Settled? || m.Live? ==> IsState(st)
  {
    if id.DataFile? then DataFits(f, m, st) else LogFits(f, m, st)
  }

  ghost predicate DataOpOk(op: Op, m: Mode, st: State)
    requires m.Settled? || m.Live? ==> IsState(st)
  {
    match m
    case Creating =>
      || op.Create? || op == Truncate(0)
      || (op.Write? && op.at == 0 && WriteEnd(0, op.cells, op.partial) <= 1
          && (op.cells != [] ==> IsInitial(op.cells[0])))
    case Settled(_, _) => false
    case Live(log, _) =>
      || (op.Truncate? && op.size > 0 && forall p :: p in st && Logged(log, p).None? ==> p < op.size)
      || (&& op.Write? && Logged(log, op.at).Some?
          && WriteEnd(0, op.cells, op.partial) <= 1
          && (op.cells != [] && op.at == 0 ==> HeaderInRange(op.cells[0], log)))
  }

  ghost predicate LogOpOk(op: Op, m: Mode, st: State)
    requires m.Settled? || m.Live? ==> IsState(st)
  {
    match m
    case Creating => false
    case Settled(prior, limit) =>
      || op.Create? || op == Truncate(0)
      || (&& op.Write? && op.at == 0 && WriteEnd(0, op.cells, op.partial) <= 1
          && (op.cells != [] ==> op.cells[0].HeaderCell? && FreshHeader(op.cells[0].header, prior, limit, st)))
    case Live(log, doubt) =>
      || op == Truncate(log.Size() + 1)
      || (&& op.Write? && doubt.Some? && op.at == log.Size() + 1
          && op.cells <= FramesAfter(log, doubt.value)
          && (op.partial ==> op.cells != FramesAfter(log, doubt.value)))
  }

  ghost predicate OpOk(id: FileId, op: Op, m: Mode, st: State)
    requires m.Settled? || m.Live? ==> IsState(st)
  {
    if id.DataFile? then DataOpOk(op, m, st) else LogOpOk(op, m, st)
  }

  lemma DataOpKeeps(f: File, op: Op, m: Mode, st: State)
    requires m.Settled? || m.Live? ==> IsState(st)
    requires DataFits(f, m, st) && DataOpOk(op, m, st)
    ensures DataFits(Apply(f, op), m, st)
  {
    hide HeaderInRange, Logged, HeaderOf;
    if m.Live? { LiveDataOpKeeps(f, op, m.log, m.doubt, st); }
  }

  lemma LiveDataOpKeeps(f: File, op: Op, log: Log, doubt: Option<Txn>, st: State)
    requires IsState(st) && DataFits(f, Live(log, doubt), st) && DataOpOk(op, Live(log, doubt), st)
    ensures DataFits(Apply(f, op), Live(log, doubt), st)
  {
    hide HeaderInRange, Logged, HeaderOf, IsState;
    var g := Apply(f, op);
    forall p | p in st && Logged(log, p).None? ensures p < |g.cells| && g.cells[p] == Some(PageCell(st[p])) {
      assert f.cells[p] == Some(PageCell(st[p]));
    }
  }

  lemma LogOpKeeps(f: File, op: Op, m: Mode, st: State)
    requires m.Settled? || m.Live? ==> IsState(st)
    requires m.Settled? && m.prior.Some? ==> m.prior.value.Then?
    requires LogFits(f, m, st) && LogOpOk(op, m, st)
    ensures LogFits(Apply(f, op), m, st)
  {
    hide Holds, Is, Remnant, FramesAfter, IsState;
    match m
    case Creating =>
    case Settled(prior, limit) => SettledOpKeeps(f, op, prior, limit, st);
    case Live(log, doubt) => LiveLogOpKeeps(f, op, log, doubt, st);
  }

  lemma LiveLogOpKeeps(f: File, op: Op, log: Log, doubt: Option<Txn>, st: State)
    requires IsState(st) && LogFits(f, Live(log, doubt), st) && LogOpOk(op, Live(log, doubt), st)
    ensures LogFits(Apply(f, op), Live(log, doubt), st)
  {
    hide IsState, Holds, FramesAfter;
    HoldsSize(f.cells, log);
    HoldsPrefix(f.cells, Apply(f, op).cells, log);
  }

  lemma SettledOpKeeps(f: File, op: Op, prior: Option<Log>, limit: nat, st: State)
    requires IsState(st) && (prior.Some? ==> prior.value.Then?)
    requires LogFits(f, Settled(prior, limit), st) && LogOpOk(op, Settled(prior, limit), st)
    ensures LogFits(Apply(f, op), Settled(prior, limit), st)
  {
    if op.Write? && op.cells == [] && !op.partial && f.Present? {
      assert Apply(f, op).cells == f.cells;
    } else if f.Present? && prior.Some? && Is(f.cells, prior.value) {
      HoldsImage(f.cells, prior.value, 1);
    }
  }

  lemma TornOk(id: FileId, op: Op, torn: Op, m: Mode, st: State)
    requires m.Settled? || m.Live? ==> IsState(st)
    requires OpOk(id, op, m, st) && TornFrom(op, torn)
    ensures OpOk(id, torn, m, st)
  {
  }

  lemma OpKeeps(id: FileId, f: File, op: Op, m: Mode, st: State)
    requires m.Settled? || m.Live? ==> IsState(st)
    requires m.Settled? && m.prior.Some? ==> m.prior.value.Then?
    requires Fits(id, f, m, st) && OpOk(id, op, m, st)
    ensures Fits(id, Apply(f, op), m, st)
  {
    if id.DataFile? { DataOpKeeps(f, op, m, st); } else { LogOpKeeps(f, op, m, st); }
  }

  lemma {:induction false} OpsKeep(id: FileId, f: File, ops: seq<Op>, m: Mode, st: State)
    requires m.Settled? || m.Live? ==> IsState(st)
    requires m.Settled? && m.prior.Some? ==> m.prior.value.Then?
    requires Fits(id, f, m, st) && forall i :: 0 <= i < |ops| ==> OpOk(id, ops[i], m, st)
    ensures Fits(id, ApplyAll(f, ops), m, st)
    decreases |ops|
  {
    if ops != [] {
      OpsKeep(id, f, ops[..|ops| - 1], m, st);
      OpKeeps(id, ApplyAll(f, ops[..|ops| - 1]), ops[|ops| - 1], m, st);
    }
  }

  ghost predicate PendingOk(id: FileId, pending: Pending, m: Mode, st: State)
    requires m.Settled? || m.Live? ==> IsState(st)
  {
    pending.Plus? ==> PendingOk(id, pending.earlier, m, st) && OpOk(id, pending.op, m, st)
  }

  lemma {:induction false} PendingOps(id: FileId, pending: Pending, m: Mode, st: State)
    requires m.Settled? || m.Live? ==> IsState(st)
    requires PendingOk(id, pending, m, st)
    ensures forall i :: 0 <= i < |pending.Ops()| ==> OpOk(id, pending.Ops()[i], m, st)
  {
    if pending.Plus? { PendingOps(id, pending.earlier, m, st); }
  }

  lemma {:induction false} FlushKeeps(id: FileId, f: File, pending: Pending, m: Mode, st: State)
    requires m.Settled? || m.Live? ==> IsState(st)
    requires m.Settled? && m.prior.Some? ==> m.prior.value.Then?
    requires Fits(id, f, m, st) && PendingOk(id, pending, m, st)
    ensures Fits(id, Flush(f, pending), m, st)
  {
    if pending.Plus? {
      FlushKeeps(id, f, pending.earlier, m, st);
      OpKeeps(id, Flush(f, pending.earlier), pending.op, m, st);
    }
  }

  // ----- files with pending operations

  /** Whatever becomes of the pending operations, the file stays admissible. */
  ghost predicate Safe(id: FileId, fs: FileState, m: Mode, st: State)
    requires m.Settled? || m.Live? ==> IsState(st)
  {
    && Fits(id, fs.durable, m, st)
    && PendingOk(id, fs.pending, m, st)
    && (id.LogFile? && m.Settled? && fs.pending.Plus? ==> AtMostHeader(fs.cache))
  }

  /** A log file is emptied before its header is rewritten. */
  predicate AtMostHeader(f: File) { f.Present? ==> |f.cells| <= 1 }

  /** What the process sees is admissible too. */
  lemma SafeCache(id: FileId, fs: FileState, m: Mode, st: State, entropy: nat)
    requires Sound(m, st, entropy) && fs.Valid() && Safe(id, fs, m, st)
    ensures Fits(id, fs.cache, m, st)
  {
    FlushKeeps(id, fs.durable, fs.pending, m, st);
  }

  /** Power loss: any subset, any order, any tear. */
  lemma SafeCrash(id: FileId, fs: FileState, m: Mode, st: State, entropy: nat, after: File)
    requires Sound(m, st, entropy) && Safe(id, fs, m, st) && SurvivesAs(fs.durable, fs.pending, after)
    ensures Fits(id, after, m, st)
  {
    var chosen: seq<nat>, torn: seq<Op> :|
      Persisted(fs.pending.Ops(), chosen, torn) && after == ApplyAll(fs.durable, torn);
    PendingOps(id, fs.pending, m, st);
    forall i | 0 <= i < |torn| ensures OpOk(id, torn[i], m, st) {
      TornOk(id, fs.pending.Ops()[chosen[i]], torn[i], m, st);
    }
    OpsKeep(id, fs.durable, torn, m, st);
  }

  lemma SafeRecord(id: FileId, fs: FileState, op: Op, m: Mode, st: State)
    requires m.Settled? || m.Live? ==> IsState(st)
    requires fs.Valid() && Safe(id, fs, m, st) && OpOk(id, op, m, st)
    requires id.LogFile? && m.Settled? && !op.Truncate? ==> AtMostHeader(fs.cache)
    ensures Safe(id, fs.Record(op), m, st)
  {
  }

  lemma SafeWroteSome(id: FileId, fs: FileState, at: nat, cells: seq<Cell>, after: FileState, m: Mode, st: State)
    requires m.Settled? || m.Live? ==> IsState(st)
    requires fs.Valid() && Safe(id, fs, m, st) && OpOk(id, Write(at, cells, false), m, st)
    requires id.LogFile? && m.Settled? ==> AtMostHeader(fs.cache)
    requires WroteSome(fs, at, cells, after)
    ensures Safe(id, after, m, st)
  {
    if after != fs {
      var op :| TornFrom(Write(at, cells, false), op) && after == fs.Record(op);
      TornOk(id, Write(at, cells, false), op, m, st);
      SafeRecord(id, fs, op, m, st);
    }
  }

  lemma SafeSynced(id: FileId, fs: FileState, m: Mode, st: State, entropy: nat)
    requires Sound(m, st, entropy) && fs.Valid() && Safe(id, fs, m, st)
    ensures Safe(id, fs.Synced(), m, st)
  {
    SafeCache(id, fs, m, st, entropy);
  }

  // ----- what opening finds

  /** The logs that opening may continue with, from the log file of mode `m`. */
  ghost predicate OpensTo(m: Mode, st: State, log: Log)
    requires m.Settled? || m.Live? ==> IsState(st)
  {
    match m
    case Creating => false
    case Settled(prior, limit) =>
      (prior.Some? && log == prior.value) || (log.Start? && FreshHeader(log.header, prior, limit, st))
    case Live(l, doubt) => log == l || (doubt.Some? && log == Then(l, doubt.value))
  }

  /** The log header recovery accepts from a file, if any. */
  function AcceptedHeader(f: File, dbId: nat): Option<WalHeader> {
    if f.Present? && f.cells != [] && f.cells[0].Some? && f.cells[0].value.HeaderCell?
      && f.cells[0].value.header.dbId == dbId
    then Some(f.cells[0].value.header)
    else None
  }

  /** Recovery from any admissible log file ends with a log the protocol allows, already intact. */
  lemma RecoverFits(f: File, m: Mode, st: State, entropy: nat)
    requires Sound(m, st, entropy) && (m.Settled? || m.Live?) && LogFits(f, m, st)
    requires AcceptedHeader(f, HeaderOf(st).dbId).Some?
    ensures var log := Recovered(f.cells, AcceptedHeader(f, HeaderOf(st).dbId).value);
            OpensTo(m, st, log) && Holds(f.cells, log) && log.Readable()
  {
    var h := AcceptedHeader(f, HeaderOf(st).dbId).value;
    match m
    case Settled(prior, limit) =>
      if prior.Some? && Is(f.cells, prior.value) {
        ContinuesReadable(prior.value);
        HoldsSize(f.cells, prior.value);
        RecoverIntact(f.cells, prior.value);
      } else {
        RecoverStale(f.cells, h);
      }
    case Live(log, doubt) =>
      ContinuesReadable(log);
      HoldsSize(f.cells, log);
      if doubt.Some? {
        RecoverRemnant(f.cells, log, doubt.value);
      } else if |f.cells| == log.Size() + 1 {
        RecoverIntact(f.cells, log);
      } else {
        RecoverStale(f.cells, log.header);
      }
  }

  /** A rewritten header over frames not yet cut off: nothing is pending, so the new log is in force. */
  lemma SettledToLive(fs: FileState, prior: Option<Log>, limit: nat, st: State, entropy: nat)
    requires Sound(Settled(prior, limit), st, entropy) && fs.Valid() && Safe(LogFile, fs, Settled(prior, limit), st)
    requires AcceptedHeader(fs.cache, HeaderOf(st).dbId).Some? && |fs.cache.cells| > 1
    ensures (prior.Some? && Is(fs.cache.cells, prior.value))
         || Safe(LogFile, fs, Live(Start(AcceptedHeader(fs.cache, HeaderOf(st).dbId).value), None), st)
  {
    SafeCache(LogFile, fs, Settled(prior, limit), st, entropy);
  }

  lemma CutLive(f: File, m: Mode, st: State, entropy: nat, h: WalHeader)
    requires Sound(m, st, entropy) && m.Live? && LogFits(f, m, st)
    requires AcceptedHeader(f, HeaderOf(st).dbId) == Some(h)
    requires Recovered(f.cells, h).Size() + 1 < |f.cells|
    ensures Recovered(f.cells, h) == m.log
  {
    var cells, log, doubt := f.cells, m.log, m.doubt;
    ContinuesReadable(log);
    HoldsSize(cells, log);
    if doubt.Some? {
      RecoverRemnant(cells, log, doubt.value);
    } else if |cells| == log.Size() + 1 {
      RecoverIntact(cells, log);
    } else {
      RecoverStale(cells, h);
    }
  }

  lemma CutSettled(f: File, prior: Option<Log>, limit: nat, st: State, entropy: nat, h: WalHeader)
    requires Sound(Settled(prior, limit), st, entropy) && LogFits(f, Settled(prior, limit), st)
    requires AcceptedHeader(f, HeaderOf(st).dbId) == Some(h)
    requires Recovered(f.cells, h).Size() + 1 < |f.cells|
    ensures !(prior.Some? && Is(f.cells, prior.value)) && Recovered(f.cells, h) == Start(h)
    ensures FreshHeader(h, prior, limit, st)
  {
    if prior.Some? && Is(f.cells, prior.value) {
      ContinuesReadable(prior.value);
      HoldsSize(f.cells, prior.value);
      RecoverIntact(f.cells, prior.value);
    } else {
      RecoverStale(f.cells, h);
    }
  }

  lemma FreshEndsAt(h: WalHeader, prior: Option<Log>, limit: nat, st: State)
    requires IsState(st) && FreshHeader(h, prior, limit, st)
    ensures EndsAt(Start(h), st)
  {
  }

  /** Recovery cuts the file back to the log it published; that is always an admissible operation. */
  lemma CutTail(fs: FileState, m: Mode, st: State, entropy: nat, h: WalHeader) returns (after: Mode)
    requires Sound(m, st, entropy) && (m.Settled? || m.Live?) && fs.Valid() && Safe(LogFile, fs, m, st)
    requires AcceptedHeader(fs.cache, HeaderOf(st).dbId) == Some(h)
    requires Recovered(fs.cache.cells, h).Size() + 1 < |fs.cache.cells|
    ensures after == m || (m.Settled? && after == Live(Recovered(fs.cache.cells, h), None))
    ensures Sound(after, st, entropy) && after.Live? && Safe(LogFile, fs, after, st)
    ensures after.log == Recovered(fs.cache.cells, h)
  {
    SafeCache(LogFile, fs, m, st, entropy);
    if m.Live? {
      CutLive(fs.cache, m, st, entropy, h);
      after := m;
    } else {
      CutSettled(fs.cache, m.prior, m.limit, st, entropy, h);
      SettledToLive(fs, m.prior, m.limit, st, entropy);
      FreshEndsAt(h, m.prior, m.limit, st);
      after := Live(Start(h), None);
    }
  }

  /** How opening the log may move the protocol on before it succeeds. */
  ghost predicate Follows(m: Mode, after: Mode, st: State)
    requires IsState(st)
  {
    || after == m
    || (m.Settled? && after.Settled? && after.prior == m.prior && m.limit <= after.limit)
    || (m.Settled? && after.Live? && after.doubt.None? && OpensTo(m, st, after.log))
  }

  /** What recovery does with any admissible log file: the log it publishes, the mode it leaves,
      and the file once its tail is cut, which is that log and nothing more. */
  lemma RecoveryPlan(fs: FileState, m: Mode, st: State, entropy: nat, h: WalHeader)
    returns (log: Log, after: Mode, cut: FileState)
    requires Sound(m, st, entropy) && (m.Settled? || m.Live?) && fs.Valid() && Safe(LogFile, fs, m, st)
    requires AcceptedHeader(fs.cache, HeaderOf(st).dbId) == Some(h)
    ensures log == Recovered(fs.cache.cells, h) && log.Header() == h && log.Size() < |fs.cache.cells|
    ensures cut == if log.Size() + 1 < |fs.cache.cells| then fs.Record(Truncate(log.Size() + 1)) else fs
    ensures Follows(m, after, st) && Sound(after, st, entropy)
    ensures Safe(LogFile, fs, after, st) && Safe(LogFile, cut, after, st)
    ensures cut.cache.Present? && Is(cut.cache.cells, log) && OpensTo(after, st, log) && Salt(log) < entropy
  {
    var cells := fs.cache.cells;
    SafeCache(LogFile, fs, m, st, entropy);
    RecoverFits(fs.cache, m, st, entropy);
    ScannedHeader(cells, h, |cells| - 1);
    log, after, cut := Recovered(cells, h), m, fs;
    HoldsSize(cells, log);
    if log.Size() + 1 < |cells| {
      cut := fs.Record(Truncate(log.Size() + 1));
      after := CutTail(fs, m, st, entropy, h);
      HoldsPrefix(cells, cut.cache.cells, log);
      SafeRecord(LogFile, fs, Truncate(log.Size() + 1), after, st);
    }
    OpensToSalt(after, st, log, entropy);
  }

  lemma OpensToSalt(m: Mode, st: State, log: Log, entropy: nat)
    requires Sound(m, st, entropy) && (m.Settled? || m.Live?) && OpensTo(m, st, log)
    ensures Salt(log) < entropy
  {
  }

  lemma Emptied(fs: FileState, prior: Option<Log>, limit: nat, st: State)
    requires IsState(st) && fs.Valid() && fs.cache.Present? && Safe(LogFile, fs, Settled(prior, limit), st)
    ensures fs.Record(Truncate(0)).cache == Present([])
    ensures Safe(LogFile, fs.Record(Truncate(0)), Settled(prior, limit), st)
  {
    assert fs.Record(Truncate(0)).cache.cells == [];
    SafeRecord(LogFile, fs, Truncate(0), Settled(prior, limit), st);
  }

  /** Fresh headers stay fresh as more random values are drawn. */
  lemma WidenLimit(fs: FileState, prior: Option<Log>, limit: nat, wider: nat, st: State)
    requires IsState(st) && limit <= wider && Safe(LogFile, fs, Settled(prior, limit), st)
    ensures Safe(LogFile, fs, Settled(prior, wider), st)
  {
    WidenPending(fs.pending, prior, limit, wider, st);
  }

  lemma {:induction false} WidenPending(pending: Pending, prior: Option<Log>, limit: nat, wider: nat, st: State)
    requires IsState(st) && limit <= wider && PendingOk(LogFile, pending, Settled(prior, limit), st)
    ensures PendingOk(LogFile, pending, Settled(prior, wider), st)
  {
    if pending.Plus? { WidenPending(pending.earlier, prior, limit, wider, st); }
  }

  /** A live log is never taken for unreadable. */
  lemma LiveHeader(f: File, m: Mode, st: State, entropy: nat)
    requires Sound(m, st, entropy) && m.Live? && LogFits(f, m, st)
    ensures AcceptedHeader(f, HeaderOf(st).dbId).Some?
  {
    HoldsSize(f.cells, m.log);
  }

  // ----- from one mode to the next

  /** The state the database is in once it is open with `log`. */
  ghost function Outcome(m: Mode, st: State, log: Log): State {
    if m.Live? && m.doubt.Some? && log == Then(m.log, m.doubt.value) then After(st, m.doubt.value) else st
  }

  /** Opening with any log the protocol allows yields the acknowledged state, or that state plus
      the one transaction in doubt, whole. */
  lemma OutcomeSound(m: Mode, st: State, log: Log, entropy: nat)
    requires Sound(m, st, entropy) && (m.Settled? || m.Live?) && OpensTo(m, st, log)
    ensures Sound(Live(log, None), Outcome(m, st, log), entropy)
  {
    if m.Live? {
      if log != m.log { EndsAtThen(m.log, st, m.doubt.value); }
    } else if log.Start? {
      FreshEndsAt(log.header, m.prior, m.limit, st);
    }
  }

  lemma OutcomeData(f: File, m: Mode, st: State, log: Log, entropy: nat)
    requires Sound(m, st, entropy) && (m.Settled? || m.Live?) && OpensTo(m, st, log)
    requires DataFits(f, m, st) && IsState(Outcome(m, st, log))
    ensures DataFits(f, Live(log, None), Outcome(m, st, log))
  {
    if m.Live? && log != m.log {
      LongerLogData(f, m.log, m.doubt.value, st);
    } else if m.Settled? {
      SettledData(f, m, st, log, entropy);
    }
  }

  lemma LongerLogData(f: File, log: Log, t: Txn, st: State)
    requires IsState(st) && EndsAt(log, st) && Extends(st, t) && DataFits(f, Live(log, Some(t)), st)
    ensures IsState(After(st, t)) && DataFits(f, Live(Then(log, t), None), After(st, t))
  {
    AfterIsState(st, t);
    forall p | p in After(st, t) && Logged(Then(log, t), p).None?
      ensures p < |f.cells| && f.cells[p] == Some(PageCell(After(st, t)[p]))
    {
      LoggedThen(log, t, p);
      NewestInTxn(t, p);
    }
  }

  lemma SettledData(f: File, m: Mode, st: State, log: Log, entropy: nat)
    requires Sound(m, st, entropy) && m.Settled? && OpensTo(m, st, log) && DataFits(f, m, st)
    ensures DataFits(f, Live(log, None), st)
  {
    assert f.cells[0] == Some(PageCell(st[0]));
  }

  /** With every page in the data file, durably, the log may go. */
  lemma CheckpointSettles(fs: FileState, log: Log, doubt: Option<Txn>, st: State, prior: Option<Log>, limit: nat)
    requires EndsAt(log, st) && fs.pending == Nothing && fs.durable.Present?
    requires forall p :: p in st ==> p < |fs.durable.cells| && fs.durable.cells[p] == Some(PageCell(st[p]))
    ensures Safe(DataFile, fs, Settled(prior, limit), st)
  {
  }

  /** What is pending on the data file stays admissible when the log grows, */
  lemma {:induction false} DataPendingGrows(pending: Pending, log: Log, t: Txn, st: State)
    requires IsState(st) && IsState(After(st, t)) && Extends(st, t)
    requires PendingOk(DataFile, pending, Live(log, None), st)
    ensures PendingOk(DataFile, pending, Live(Then(log, t), None), After(st, t))
  {
    if pending.Plus? {
      DataPendingGrows(pending.earlier, log, t, st);
      DataOpGrows(pending.op, log, t, st);
    }
  }

  lemma DataOpGrows(op: Op, log: Log, t: Txn, st: State)
    requires IsState(st) && IsState(After(st, t)) && Extends(st, t)
    requires DataOpOk(op, Live(log, None), st)
    ensures DataOpOk(op, Live(Then(log, t), None), After(st, t))
  {
    if op.Write? {
      LoggedThen(log, t, op.at);
    } else {
      forall p | p in After(st, t) && Logged(Then(log, t), p).None? ensures p < op.size {
        LoggedThen(log, t, p);
        NewestInTxn(t, p);
      }
    }
  }

  /** and does not depend on what is in doubt. */
  lemma {:induction false} DataPendingDoubt(pending: Pending, log: Log, doubt: Option<Txn>, other: Option<Txn>,
                                            st: State)
    requires IsState(st) && PendingOk(DataFile, pending, Live(log, doubt), st)
    ensures PendingOk(DataFile, pending, Live(log, other), st)
  {
    if pending.Plus? { DataPendingDoubt(pending.earlier, log, doubt, other, st); }
  }

  /** A commit: both files are admissible for the longer log and the new state. */
  lemma CommitSafe(data: FileState, wal: FileState, log: Log, t: Txn, st: State, entropy: nat)
    requires Sound(Live(log, None), st, entropy) && Extends(st, t)
    requires Safe(DataFile, data, Live(log, None), st)
    requires wal.pending == Nothing && wal.durable.Present? && Is(wal.durable.cells, Then(log, t))
    ensures Sound(Live(Then(log, t), None), After(st, t), entropy)
    ensures Safe(DataFile, data, Live(Then(log, t), None), After(st, t))
    ensures Safe(LogFile, wal, Live(Then(log, t), None), After(st, t))
  {
    EndsAtThen(log, st, t);
    LongerLogData(data.durable, log, t, st);
    DataPendingGrows(data.pending, log, t, st);
  }

  /** A commit that failed: its transaction is in doubt. */
  lemma DoubtSafe(data: FileState, log: Log, t: Txn, st: State, entropy: nat)
    requires Sound(Live(log, None), st, entropy) && Extends(st, t)
    requires Safe(DataFile, data, Live(log, None), st)
    ensures Sound(Live(log, Some(t)), st, entropy)
    ensures Safe(DataFile, data, Live(log, Some(t)), st)
  {
    DataPendingDoubt(data.pending, log, None, Some(t), st);
  }

  /** The emptied log is in force at once. */
  lemma FreshSafe(data: FileState, wal: FileState, h: WalHeader, prior: Option<Log>, st: State, entropy: nat)
    requires IsState(st) && FreshHeader(h, prior, entropy, st)
    requires data.pending == Nothing && data.durable.Present?
    requires forall p :: p in st ==> p < |data.durable.cells| && data.durable.cells[p] == Some(PageCell(st[p]))
    requires wal.pending == Nothing && wal.durable.Present? && Is(wal.durable.cells, Start(h))
    ensures Sound(Live(Start(h), None), st, entropy)
    ensures Safe(DataFile, data, Live(Start(h), None), st)
    ensures Safe(LogFile, wal, Live(Start(h), None), st)
  {
    FreshEndsAt(h, prior, entropy, st);
    assert data.durable.cells[0] == Some(PageCell(st[0]));
  }

  lemma SoundLater(m: Mode, st: State, entropy: nat, later: nat)
    requires Sound(m, st, entropy) && entropy <= later
    ensures Sound(m, st, later)
    ensures m.Live? && m.log.Then? ==> Sound(Settled(Some(m.log), later), st, later)
  {
  }

  /** A created data file, once synced, holds the initial state. */
  lemma Created(files: Files, was: State, entropy: nat)
    requires Safe(DataFile, files.data, Creating, was) && Safe(LogFile, files.log, Creating, was)
    requires files.data.pending == Nothing && files.data.durable.Present? && |files.data.durable.cells| == 1
    requires files.data.durable.cells[0].Some?
    ensures files.data.durable.cells[0].value.PageCell?
    ensures var st := map[0 := files.data.durable.cells[0].value.page];
            && IsState(st) && IsInitial(PageCell(st[0]))
            && Sound(Settled(None, 0), st, entropy)
            && Safe(DataFile, files.data, Settled(None, 0), st)
            && Safe(LogFile, files.log, Settled(None, 0), st)
  {
  }

  /** The data file through the modes of opening the log. */
  lemma FollowsData(data: FileState, m: Mode, after: Mode, st: State, entropy: nat)
    requires Sound(m, st, entropy) && (m.Settled? || m.Live?) && Follows(m, after, st)
    requires Safe(DataFile, data, m, st) && data.pending == Nothing
    ensures Safe(DataFile, data, after, st)
  {
    if m.Settled? && after.Live? {
      OutcomeData(data.durable, m, st, after.log, entropy);
    }
  }

  /** Opened: the recovered log is in force for the state it leads to. */
  lemma OpenedSafe(data: FileState, wal: FileState, m: Mode, st: State, log: Log, entropy: nat)
    requires Sound(m, st, entropy) && (m.Settled? || m.Live?) && OpensTo(m, st, log)
    requires Safe(DataFile, data, m, st) && data.pending == Nothing
    requires wal.pending == Nothing && wal.durable.Present? && Is(wal.durable.cells, log)
    ensures Sound(Live(log, None), Outcome(m, st, log), entropy)
    ensures Safe(DataFile, data, Live(log, None), Outcome(m, st, log))
    ensures Safe(LogFile, wal, Live(log, None), Outcome(m, st, log))
    ensures data.durable.Present?
  {
    OutcomeSound(m, st, log, entropy);
    OutcomeData(data.durable, m, st, log, entropy);
  }

  lemma LastCounter(log: Log, st: State)
    requires EndsAt(log, st) && log.Then?
    ensures log.txn.header.changeCounter == log.Header().base + log.Count()
    ensures log.Header().dbId == HeaderOf(st).dbId
  {
  }
}

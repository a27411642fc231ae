/** Transactions as runs of chained frames, and what recovery reads back.

    `Scanned` is the specification of the loop in Wal::recover; the lemmas say what it
    finds in an intact log, in a log with a damaged or partly written tail, and in a
    log whose frames belong to an earlier header. */
module LogFormat {
  import opened PageFormat

  type Image = (PageNo, Page)

  /** One transaction of the log. Its last frame is the page-0 image. */
  datatype Txn = Txn(writes: seq<Image>, header: DbHeader, dbSize: nat)
  {
    function Images(): (r: seq<Image>)
      ensures |r| == |writes| + 1
    {
      writes + [(0, HeaderPage(header))]
    }

    function SizeAt(i: nat): nat { if i == |writes| then dbSize else 0 }

    /** The commit frame can be told from the others and decoded. */
    predicate Readable() { dbSize != 0 && header.pageCount != 0 }
  }

  /** A log: a header, and the transactions committed under it. */
  datatype Log = Start(header: WalHeader) | Then(before: Log, txn: Txn)
  {
    function Header(): WalHeader { if Start? then header else before.Header() }

    function Count(): nat { if Start? then 0 else before.Count() + 1 }

    /** The page images in frame order: frame `f` is `Flat()[f - 1]`. */
    function Flat(): seq<Image> { if Start? then [] else before.Flat() + txn.Images() }

    function Size(): nat { if Start? then 0 else before.Size() + |txn.writes| + 1 }

    lemma {:induction false} FlatSize()
      ensures |Flat()| == Size()
    {
      if Then? { before.FlatSize(); }
    }

    /** The running checksum at the end. */
    function Sum(): Sum {
      if Start? then Seed(header) else SumAfter(txn, Header().salt, before.Sum(), |txn.writes| + 1)
    }

    predicate Readable() { Then? ==> before.Readable() && txn.Readable() }
  }

  // ----- encoding (Wal::append_transaction)

  /** The running checksum after the first `k` frames of `t`. */
  function SumAfter(t: Txn, salt: nat, prev: Sum, k: nat): Sum
    requires k <= |t.writes| + 1
  {
    if k == 0 then prev else
    Link(SumAfter(t, salt, prev, k - 1), t.Images()[k - 1].0, t.SizeAt(k - 1), salt, t.Images()[k - 1].1)
  }

  /** The same, for images none of which is the commit frame. */
  function HeldSum(held: seq<Image>, salt: nat, prev: Sum): Sum {
    if held == [] then prev else
    Link(HeldSum(held[..|held| - 1], salt, prev), held[|held| - 1].0, 0, salt, held[|held| - 1].1)
  }

  lemma {:induction false} SumOfHeld(t: Txn, salt: nat, prev: Sum, k: nat)
    requires k <= |t.writes|
    ensures SumAfter(t, salt, prev, k) == HeldSum(t.writes[..k], salt, prev)
    decreases k
  {
    if k > 0 {
      SumOfHeld(t, salt, prev, k - 1);
      assert t.writes[..k][..k - 1] == t.writes[..k - 1];
    }
  }

  function FrameAt(t: Txn, salt: nat, prev: Sum, i: nat): (f: Frame)
    requires i <= |t.writes|
    ensures f.sum == SumAfter(t, salt, prev, i + 1)
  {
    MakeFrame(t.Images()[i].0, t.SizeAt(i), salt, t.Images()[i].1, SumAfter(t, salt, prev, i))
  }

  function Frames(t: Txn, salt: nat, prev: Sum): (r: seq<Cell>)
    ensures |r| == |t.writes| + 1
    ensures forall i :: 0 <= i < |r| ==> r[i] == FrameCell(FrameAt(t, salt, prev, i))
  {
    seq(|t.writes| + 1, i requires 0 <= i < |t.writes| + 1 => FrameCell(FrameAt(t, salt, prev, i)))
  }

  /** The frames `t` has when it is appended to `log`. */
  function FramesAfter(log: Log, t: Txn): (r: seq<Cell>)
    ensures |r| == |t.writes| + 1
  {
    Frames(t, log.Header().salt, log.Sum())
  }

  /** From position `at` on, the file holds `frames`, each written whole. */
  predicate Matches(cells: seq<Option<Cell>>, at: nat, frames: seq<Cell>) {
    && at + |frames| <= |cells|
    && forall i :: 0 <= i < |frames| ==> cells[at + i] == Some(frames[i])
  }

  /** `cells` starts with `log`, intact. */
  predicate Holds(cells: seq<Option<Cell>>, log: Log) {
    match log
    case Start(h) => cells != [] && cells[0] == Some(HeaderCell(h))
    case Then(before, t) => Holds(cells, before) && Matches(cells, before.Size() + 1, FramesAfter(before, t))
  }

  /** `cells` is `log`, nothing more. */
  predicate Is(cells: seq<Option<Cell>>, log: Log) { Holds(cells, log) && |cells| == log.Size() + 1 }

  lemma {:induction false} HoldsSize(cells: seq<Option<Cell>>, log: Log)
    requires Holds(cells, log)
    ensures log.Size() < |cells|
    ensures cells[0] == Some(HeaderCell(log.Header()))
  {
    if log.Then? { HoldsSize(cells, log.before); }
  }

  /** Only the first `log.Size() + 1` cells matter. */
  lemma {:induction false} HoldsPrefix(cells: seq<Option<Cell>>, other: seq<Option<Cell>>, log: Log)
    requires Holds(cells, log) && log.Size() < |other|
    requires forall i :: 0 <= i <= log.Size() ==> i < |cells| && cells[i] == other[i]
    ensures Holds(other, log)
  {
    if log.Then? {
      HoldsPrefix(cells, other, log.before);
      var frames := FramesAfter(log.before, log.txn);
      var n := log.before.Size();
      forall i | 0 <= i < |frames| ensures other[n + 1 + i] == Some(frames[i]) {
        assert cells[n + 1 + i] == Some(frames[i]);
      }
    }
  }

  /** A frame of an intact log is the page image the index says it is. */
  lemma {:induction false} HoldsImage(cells: seq<Option<Cell>>, log: Log, f: FrameNo)
    requires Holds(cells, log) && 1 <= f <= log.Size()
    ensures |log.Flat()| == log.Size() < |cells| && cells[f].Some? && cells[f].value.FrameCell?
    ensures var fr := cells[f].value.frame; (fr.page, fr.image) == log.Flat()[f - 1] && fr.salt == log.Header().salt
  {
    var n := log.before.Size();
    log.FlatSize();
    log.before.FlatSize();
    if f <= n {
      HoldsImage(cells, log.before, f);
      HoldsSize(cells, log);
    } else {
      var frames := FramesAfter(log.before, log.txn);
      assert cells[n + 1 + (f - n - 1)] == Some(frames[f - n - 1]);
    }
  }

  // ----- recovery (Wal::recover)

  /** Where the scan stands: what it published, the transaction under way, the running checksum. */
  datatype Scan = Scan(log: Log, held: seq<Image>, running: Sum, going: bool)

  /** The frame a scan at checksum `running` accepts from this cell, if any. */
  function Accepted(cell: Option<Cell>, salt: nat, running: Sum): Option<Frame> {
    if cell.Some? && cell.value.FrameCell? && cell.value.frame.Follows(running) && cell.value.frame.salt == salt
    then Some(cell.value.frame)
    else None
  }

  /** A commit frame that is not a decodable page-0 image. */
  predicate BadCommit(f: Frame) {
    f.dbSize != 0 && (f.page != 0 || !f.image.HeaderPage? || f.image.header.pageCount == 0)
  }

  function Advance(s: Scan, cell: Option<Cell>, salt: nat): Scan {
    var f := Accepted(cell, salt, s.running);
    if !s.going then s
    else if f.None? then s.(going := false)
    else if f.value.dbSize == 0 then s.(held := s.held + [(f.value.page, f.value.image)], running := f.value.sum)
    else if BadCommit(f.value) then s.(going := false)
    else Scan(Then(s.log, Txn(s.held, f.value.image.header, f.value.dbSize)), [], f.value.sum, true)
  }

  /** The scan after the first `n` frames of a log file; cell 0 is its header `h`. */
  function Scanned(cells: seq<Option<Cell>>, h: WalHeader, n: nat): Scan
    requires n < |cells|
  {
    if n == 0 then Scan(Start(h), [], Seed(h), true) else Advance(Scanned(cells, h, n - 1), cells[n], h.salt)
  }

  /** The log recovery publishes. */
  function Recovered(cells: seq<Option<Cell>>, h: WalHeader): Log
    requires cells != []
  {
    Scanned(cells, h, |cells| - 1).log
  }

  lemma {:induction false} ScannedHeader(cells: seq<Option<Cell>>, h: WalHeader, n: nat)
    requires n < |cells|
    ensures Scanned(cells, h, n).log.Header() == h
  {
    if n > 0 { ScannedHeader(cells, h, n - 1); }
  }

  lemma {:induction false} ScanStopped(cells: seq<Option<Cell>>, h: WalHeader, n: nat, m: nat)
    requires n <= m < |cells| && !Scanned(cells, h, n).going
    ensures Scanned(cells, h, m) == Scanned(cells, h, n)
    decreases m
  {
    if n < m {
      ScanStopped(cells, h, n, m - 1);
    }
  }

  /** A commit frame that follows the held images completes the longer log. */
  lemma CommitSum(log: Log, held: seq<Image>, f: Frame)
    requires f.Follows(HeldSum(held, log.Header().salt, log.Sum())) && f.salt == log.Header().salt
    requires f.page == 0 && f.image.HeaderPage?
    ensures Then(log, Txn(held, f.image.header, f.dbSize)).Sum() == f.sum
  {
    var t := Txn(held, f.image.header, f.dbSize);
    SumOfHeld(t, f.salt, log.Sum(), |held|);
    assert held[..|held|] == held;
  }

  /** One accepted frame: the scan holds it, or, if it is a commit frame, publishes the transaction. */
  lemma ScanNext(cells: seq<Option<Cell>>, n: nat, log: Log, held: seq<Image>, f: Frame)
    requires n + 1 < |cells|
    requires var running := HeldSum(held, log.Header().salt, log.Sum());
             && Scanned(cells, log.Header(), n) == Scan(log, held, running, true)
             && Accepted(cells[n + 1], log.Header().salt, running) == Some(f)
    requires !BadCommit(f)
    ensures var held' := held + [(f.page, f.image)];
            f.dbSize == 0 ==>
              && f.sum == HeldSum(held', log.Header().salt, log.Sum())
              && Scanned(cells, log.Header(), n + 1) == Scan(log, held', f.sum, true)
    ensures f.dbSize != 0 ==>
              var log' := Then(log, Txn(held, f.image.header, f.dbSize));
              f.sum == log'.Sum() && Scanned(cells, log.Header(), n + 1) == Scan(log', [], f.sum, true)
  {
    if f.dbSize == 0 {
      assert (held + [(f.page, f.image)])[..|held|] == held;
    } else {
      CommitSum(log, held, f);
    }
  }

  lemma AdvanceFrame(log: Log, t: Txn, salt: nat, prev: Sum, k: nat)
    requires t.Readable() && k <= |t.writes|
    ensures Advance(Scan(log, t.writes[..k], SumAfter(t, salt, prev, k), true),
                    Some(FrameCell(FrameAt(t, salt, prev, k))), salt)
         == if k == |t.writes| then Scan(Then(log, t), [], SumAfter(t, salt, prev, k + 1), true)
            else Scan(log, t.writes[..k + 1], SumAfter(t, salt, prev, k + 1), true)
  {
    if k == |t.writes| {
      assert t.writes[..k] == t.writes;
      assert Txn(t.writes, t.header, t.dbSize) == t;
    } else {
      assert t.writes[..k + 1] == t.writes[..k] + [t.writes[k]];
    }
  }

  /** The scan over the first `k` frames of a transaction written after `log`. */
  lemma {:induction false} ScanFrames(cells: seq<Option<Cell>>, n: nat, log: Log, t: Txn, k: nat)
    requires t.Readable() && k <= |t.writes| + 1 && n + k < |cells|
    requires Scanned(cells, log.Header(), n) == Scan(log, [], log.Sum(), true)
    requires forall i :: 0 <= i < k ==> cells[n + 1 + i] == Some(FramesAfter(log, t)[i])
    ensures Scanned(cells, log.Header(), n + k)
         == if k == |t.writes| + 1 then Scan(Then(log, t), [], Then(log, t).Sum(), true)
            else Scan(log, t.writes[..k], SumAfter(t, log.Header().salt, log.Sum(), k), true)
    decreases k
  {
    if k > 0 {
      ScanFrames(cells, n, log, t, k - 1);
      assert cells[n + 1 + (k - 1)] == Some(FramesAfter(log, t)[k - 1]);
      AdvanceFrame(log, t, log.Header().salt, log.Sum(), k - 1);
    }
  }

  /** An intact log is read back exactly. */
  lemma {:induction false} ScanIntact(cells: seq<Option<Cell>>, log: Log)
    requires Holds(cells, log) && log.Readable()
    ensures log.Size() < |cells|
    ensures Scanned(cells, log.Header(), log.Size()) == Scan(log, [], log.Sum(), true)
  {
    if log.Then? {
      ScanIntact(cells, log.before);
      ScanFrames(cells, log.before.Size(), log.before, log.txn, |log.txn.writes| + 1);
    }
  }

  /** Past the intact `log`, every cell is lost or is the frame `t` puts there. */
  predicate Remnant(cells: seq<Option<Cell>>, log: Log, t: Txn) {
    var n := log.Size() + 1;
    && n <= |cells| <= n + |t.writes| + 1
    && forall i :: 0 <= i < |cells| - n ==> cells[n + i].None? || cells[n + i] == Some(FramesAfter(log, t)[i])
  }

  /** How many frames of the remnant are there before the first lost one. */
  lemma FirstGap(cells: seq<Option<Cell>>, log: Log, t: Txn) returns (k: nat)
    requires Remnant(cells, log, t)
    ensures k <= |t.writes| + 1 && log.Size() + 1 + k <= |cells|
    ensures forall i :: 0 <= i < k ==> cells[log.Size() + 1 + i] == Some(FramesAfter(log, t)[i])
    ensures log.Size() + 1 + k < |cells| ==> cells[log.Size() + 1 + k].None?
  {
    var n := log.Size() + 1;
    k := 0;
    while n + k < |cells| && cells[n + k].Some?
      invariant n + k <= |cells|
      invariant forall i :: 0 <= i < k ==> cells[n + i] == Some(FramesAfter(log, t)[i])
    {
      k := k + 1;
    }
  }

  lemma GapInLog(cells: seq<Option<Cell>>, log: Log, t: Txn, k: nat)
    requires k <= |t.writes| && log.Size() + 1 + k < |cells| && cells[log.Size() + 1 + k].None?
    ensures !Holds(cells, Then(log, t))
  {
    assert cells[log.Size() + 1 + k] != Some(FramesAfter(log, t)[k]);
  }

  lemma ScanStart(cells: seq<Option<Cell>>, h: WalHeader)
    requires cells != []
    ensures Scanned(cells, h, 0) == Scan(Start(h), [], Seed(h), true)
  {
  }

  lemma NoneHeld(salt: nat, prev: Sum)
    ensures HeldSum([], salt, prev) == prev
  {
  }

  /** The scan ends at the first cell it refuses, with what it had published. */
  lemma ScanBreak(cells: seq<Option<Cell>>, h: WalHeader, n: nat)
    requires n + 1 < |cells| && !Advance(Scanned(cells, h, n), cells[n + 1], h.salt).going
    ensures Recovered(cells, h) == Scanned(cells, h, n).log
  {
    assert !Scanned(cells, h, n + 1).going;
    ScanStopped(cells, h, n + 1, |cells| - 1);
  }

  /** A transaction whose frames landed in part is invisible; landed whole, it is there. */
  lemma RecoverRemnant(cells: seq<Option<Cell>>, log: Log, t: Txn)
    requires Holds(cells, log) && log.Readable() && t.Readable() && Remnant(cells, log, t)
    ensures Recovered(cells, log.Header()) == if Is(cells, Then(log, t)) then Then(log, t) else log
  {
    hide Scanned, Holds, FramesAfter, SumAfter, Advance;
    ScanIntact(cells, log);
    var n := log.Size();
    var k := FirstGap(cells, log, t);
    ScanFrames(cells, n, log, t, k);
    if n + 1 + k < |cells| {
      NoneAdvances(Scanned(cells, log.Header(), n + k), log.Header().salt);
      ScanBreak(cells, log.Header(), n + k);
      GapInLog(cells, log, t, k);
    } else if k == |t.writes| + 1 {
      WholeRemnant(cells, log, t);
    }
  }

  lemma NoneAdvances(s: Scan, salt: nat)
    ensures !Advance(s, None, salt).going
  {
  }

  lemma WholeRemnant(cells: seq<Option<Cell>>, log: Log, t: Txn)
    requires Holds(cells, log) && |cells| == log.Size() + 1 + |t.writes| + 1
    requires forall i :: 0 <= i < |t.writes| + 1 ==> cells[log.Size() + 1 + i] == Some(FramesAfter(log, t)[i])
    ensures Is(cells, Then(log, t))
  {
  }

  /** An intact log with nothing after it. */
  lemma RecoverIntact(cells: seq<Option<Cell>>, log: Log)
    requires Is(cells, log) && log.Readable()
    ensures Recovered(cells, log.Header()) == log
  {
    ScanIntact(cells, log);
  }

  /** Not a frame written under a header with this salt. */
  predicate Foreign(c: Option<Cell>, salt: nat) { c.Some? && c.value.FrameCell? ==> c.value.frame.salt != salt }

  /** Frames of an earlier log are refused under a header with another salt. */
  lemma RecoverStale(cells: seq<Option<Cell>>, h: WalHeader)
    requires cells != [] && (|cells| > 1 ==> Foreign(cells[1], h.salt))
    ensures Recovered(cells, h) == Start(h)
  {
    if |cells| > 1 {
      assert !Scanned(cells, h, 1).going;
      ScanStopped(cells, h, 1, |cells| - 1);
    }
  }
}

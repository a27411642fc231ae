/** The crash model (engine/testing/src/fault_vfs.cpp).

    Every mutation reaches the process's view of a file at once and is also kept as
    a pending operation. A sync moves a file's pending operations to the durable
    copy, in order. A power loss applies an arbitrary subset of them, in an arbitrary
    order, each write possibly torn; the rest are lost.

    A file is a sequence of cells: pages for the data file; one header cell and then
    frame cells for the log. A cell that was not written whole is `None`. */
module Disk {
  import opened PageFormat

  datatype Status = Ok | IoError | Crashed | Corrupt | Invalid | Busy

  datatype FileId = DataFile | LogFile

  datatype File = Absent | Present(cells: seq<Option<Cell>>)

  /** `partial` says that a piece of one more cell follows the whole ones. */
  datatype Op =
    | Create
    | Write(at: nat, cells: seq<Cell>, partial: bool)
    | Truncate(size: nat)

  function Whole(cells: seq<Cell>): (r: seq<Option<Cell>>)
    ensures |r| == |cells|
    ensures forall i :: 0 <= i < |r| ==> r[i] == Some(cells[i])
  {
    seq(|cells|, i requires 0 <= i < |cells| => Some(cells[i]))
  }

  function Blank(n: nat): (r: seq<Option<Cell>>)
    ensures |r| == n
    ensures forall i :: 0 <= i < |r| ==> r[i] == None
  {
    seq(n, i => None)
  }

  /** File::truncate: shrink, or grow with zeros, which are nobody's whole cell. */
  function Resized(prior: seq<Option<Cell>>, size: nat): (r: seq<Option<Cell>>)
    ensures |r| == size
    ensures forall i :: 0 <= i < size ==> r[i] == if i < |prior| then prior[i] else None
  {
    if size <= |prior| then prior[..size] else prior + Blank(size - |prior|)
  }

  /** The end of what a write touches. */
  function WriteEnd(at: nat, cells: seq<Cell>, partial: bool): nat {
    at + |cells| + if partial then 1 else 0
  }

  function Overwritten(prior: seq<Option<Cell>>, at: nat, cells: seq<Cell>, partial: bool): (r: seq<Option<Cell>>)
    ensures |r| == if |prior| < WriteEnd(at, cells, partial) then WriteEnd(at, cells, partial) else |prior|
    ensures forall i :: 0 <= i < |r| ==>
              r[i] == if at <= i < at + |cells| then Some(cells[i - at])
                      else if i < |prior| && !(partial && i == at + |cells|) then prior[i]
                      else None
  {
    var patch := Whole(cells) + if partial then [None] else [];
    var end := WriteEnd(at, cells, partial);
    var grown := if |prior| < end then Resized(prior, end) else prior;
    grown[..at] + patch + grown[end..]
  }

  /** FaultVfs::apply_to_durable. */
  function Apply(f: File, op: Op): File {
    match op
    case Create => if f.Absent? then Present([]) else f
    case Write(at, cells, partial) =>
      if f.Absent? then f else Present(Overwritten(f.cells, at, cells, partial))
    case Truncate(size) => if f.Absent? then f else Present(Resized(f.cells, size))
  }

  /** The operations not yet durable, oldest first. */
  datatype Pending = Nothing | Plus(earlier: Pending, op: Op)
  {
    function Ops(): seq<Op> { if Nothing? then [] else earlier.Ops() + [op] }
  }

  function Flush(f: File, pending: Pending): File {
    if pending.Nothing? then f else Apply(Flush(f, pending.earlier), pending.op)
  }

  function ApplyAll(f: File, ops: seq<Op>): File {
    if |ops| == 0 then f else Apply(ApplyAll(f, ops[..|ops| - 1]), ops[|ops| - 1])
  }

  /** A sync applies everything, in order: the crash policy that persists all, untorn. */
  lemma {:induction false} FlushIsAll(f: File, pending: Pending)
    ensures Flush(f, pending) == ApplyAll(f, pending.Ops())
  {
    if pending.Plus? {
      FlushIsAll(f, pending.earlier);
      assert pending.Ops()[..|pending.Ops()| - 1] == pending.earlier.Ops();
    }
  }

  /** FaultVfs::tear, and a write left whole: `torn` is a prefix of `op`. */
  predicate TornFrom(op: Op, torn: Op) {
    if op.Write? then
      && torn.Write?
      && torn.at == op.at
      && torn.cells <= op.cells
      && (torn.cells == op.cells && torn.partial ==> op.partial)
    else
      torn == op
  }

  predicate Distinct(s: seq<nat>) {
    forall i, j :: 0 <= i < j < |s| ==> s[i] != s[j]
  }

  /** `torn` is some of `pending`, in some order, each possibly torn. */
  predicate Persisted(pending: seq<Op>, chosen: seq<nat>, torn: seq<Op>) {
    && |chosen| == |torn|
    && Distinct(chosen)
    && forall i :: 0 <= i < |chosen| ==> chosen[i] < |pending| && TornFrom(pending[chosen[i]], torn[i])
  }

  /** FaultVfs::crash, Subset policy; None, Prefix and All are instances of it. */
  ghost predicate SurvivesAs(durable: File, pending: Pending, after: File) {
    exists chosen: seq<nat>, torn: seq<Op> ::
      Persisted(pending.Ops(), chosen, torn) && after == ApplyAll(durable, torn)
  }

  lemma NothingPersisted(durable: File, pending: Pending)
    ensures SurvivesAs(durable, pending, durable)
  {
    assert Persisted(pending.Ops(), [], []) && durable == ApplyAll(durable, []);
  }

  /** A power loss may keep nothing, everything, any one operation alone, a write cut off after any number of cells, or
      a later operation without an earlier one or before it. */
  lemma MayLeave(durable: File, pending: Pending, i: nat, j: nat, n: nat, partial: bool)
    requires i < j < |pending.Ops()|
    ensures var ops := pending.Ops();
            && SurvivesAs(durable, pending, durable) && SurvivesAs(durable, pending, Flush(durable, pending))
            && SurvivesAs(durable, pending, Apply(durable, ops[i]))
            && SurvivesAs(durable, pending, Apply(durable, ops[j]))
            && SurvivesAs(durable, pending, Apply(Apply(durable, ops[j]), ops[i]))
            && (ops[i].Write? && n < |ops[i].cells| ==>
                  SurvivesAs(durable, pending, Apply(durable, Write(ops[i].at, ops[i].cells[..n], partial))))
  {
    hide Flush, Apply;
    var ops := pending.Ops();
    NothingPersisted(durable, pending);
    EverythingPersisted(durable, pending);
    OnePersisted(durable, pending, i, ops[i]);
    OnePersisted(durable, pending, j, ops[j]);
    if ops[i].Write? && n < |ops[i].cells| {
      OnePersisted(durable, pending, i, Write(ops[i].at, ops[i].cells[..n], partial));
    }
    TwoPersisted(durable, pending, j, i);
  }

  lemma TwoPersisted(durable: File, pending: Pending, i: nat, j: nat)
    requires i < |pending.Ops()| && j < |pending.Ops()| && i != j
    ensures SurvivesAs(durable, pending, Apply(Apply(durable, pending.Ops()[i]), pending.Ops()[j]))
  {
    hide Apply;
    var a, b := pending.Ops()[i], pending.Ops()[j];
    assert ApplyAll(durable, [a]) == Apply(durable, a) by { assert [a][..0] == []; }
    assert ApplyAll(durable, [a, b]) == Apply(ApplyAll(durable, [a]), b) by { assert [a, b][..1] == [a]; }
    assert Persisted(pending.Ops(), [i, j], [a, b]);
  }

  lemma OnePersisted(durable: File, pending: Pending, i: nat, op: Op)
    requires i < |pending.Ops()| && TornFrom(pending.Ops()[i], op)
    ensures SurvivesAs(durable, pending, Apply(durable, op))
  {
    hide Apply;
    assert ApplyAll(durable, [op]) == Apply(durable, op) by { assert [op][..0] == []; }
    assert Persisted(pending.Ops(), [i], [op]);
  }

  lemma EverythingPersisted(durable: File, pending: Pending)
    ensures SurvivesAs(durable, pending, Flush(durable, pending))
  {
    FlushIsAll(durable, pending);
    var ops := pending.Ops();
    assert Persisted(ops, seq(|ops|, i => i), ops);
  }

  /** One file: what the process sees, what a power loss would leave, and the difference. */
  datatype FileState = FileState(cache: File, durable: File, pending: Pending)
  {
    ghost predicate Valid() { cache == Flush(durable, pending) }

    function Record(op: Op): (r: FileState)
      requires Valid()
      ensures r.Valid()
    {
      FileState(Apply(cache, op), durable, Plus(pending, op))
    }

    /** FaultVfs::persist_file. */
    function Synced(): (r: FileState)
      requires Valid()
      ensures r.Valid() && r.durable == r.cache == cache && r.pending == Nothing
    {
      FileState(cache, Flush(durable, pending), Nothing)
    }
  }

  /** A write that did not return ok: nothing, or some of it, is on its way to the disk. */
  ghost predicate WroteSome(before: FileState, at: nat, cells: seq<Cell>, after: FileState)
    requires before.Valid()
  {
    after == before || exists op :: TornFrom(Op.Write(at, cells, false), op) && after == before.Record(op)
  }

  /** The files of one database, by path. */
  datatype Files = Files(data: FileState, log: FileState)
  {
    ghost predicate Valid() { data.Valid() && log.Valid() }

    function At(id: FileId): FileState { if id.DataFile? then data else log }

    function With(id: FileId, f: FileState): Files {
      if id.DataFile? then this.(data := f) else this.(log := f)
    }
  }

  datatype Decision = Proceed | Fail | Partial(cells: nat, piece: bool) | PowerLoss

  class FaultVfs {
    var files: Files
    var crashed: bool
    var injecting: bool   // an injector is set: operations may fail or lose power
    var entropy: nat      // the next value no salt or database id has had yet

    constructor ()
      ensures Valid() && !crashed && injecting && entropy == 0
      ensures files == Files(FileState(Absent, Absent, Nothing), FileState(Absent, Absent, Nothing))
    {
      files := Files(FileState(Absent, Absent, Nothing), FileState(Absent, Absent, Nothing));
      crashed := false;
      injecting := true;
      entropy := 0;
    }

    ghost predicate Valid()
      reads this
    {
      && files.Valid()
      && (!injecting ==> !crashed)
    }

    /** FaultVfs::consult: with no injector every operation proceeds. */
    method Consult() returns (d: Decision)
      ensures !injecting ==> d == Proceed
    {
      if injecting {
        d := *;
      } else {
        d := Proceed;
      }
    }

    method Random() returns (r: nat)
      requires Valid()
      modifies this`entropy
      ensures r == old(entropy) && entropy == r + 1
    {
      r := entropy;
      entropy := entropy + 1;
    }

    method Exists(id: FileId) returns (s: Status, found: bool)
      requires Valid()
      ensures s == (if crashed then Crashed else Ok)
      ensures s == Ok ==> found == files.At(id).cache.Present?
    {
      if crashed { return Crashed, false; }
      return Ok, files.At(id).cache.Present?;
    }

    /** Vfs::open with the create flag. */
    method Open(id: FileId) returns (s: Status)
      requires Valid()
      modifies this`files, this`crashed
      ensures Valid() && s in {Ok, Crashed} && (s == Crashed <==> crashed) && (old(crashed) ==> crashed)
      ensures !injecting ==> s == Ok
      ensures s == Crashed ==> files == old(files)
      ensures s == Ok ==> files == if old(files).At(id).cache.Absent?
                                   then old(files).With(id, old(files).At(id).Record(Create)) else old(files)
    {
      if crashed { return Crashed; }
      var d := Consult();
      if d == PowerLoss {
        crashed := true;
        return Crashed;
      }
      if files.At(id).cache.Absent? {
        files := files.With(id, files.At(id).Record(Create));
      }
      return Ok;
    }

    /** File::read of one cell; `None` is a short read or a failed checksum. */
    method Read(id: FileId, at: nat) returns (s: Status, cell: Option<Cell>)
      requires Valid() && files.At(id).cache.Present?
      modifies this`crashed
      ensures Valid() && s in {Ok, Crashed} && (s == Crashed <==> crashed) && (old(crashed) ==> crashed)
      ensures !injecting ==> s == Ok
      ensures s == Ok ==> cell == if at < |files.At(id).cache.cells| then files.At(id).cache.cells[at] else None
    {
      cell := None;
      if crashed { return Crashed, None; }
      var d := Consult();
      if d == PowerLoss {
        crashed := true;
        return Crashed, None;
      }
      var cells := files.At(id).cache.cells;
      return Ok, if at < |cells| then cells[at] else None;
    }

    /** File::write. A write in flight when power is lost is pending like any other. */
    method Write(id: FileId, at: nat, cells: seq<Cell>) returns (s: Status)
      requires Valid()
      modifies this`files, this`crashed
      ensures Valid() && s in {Ok, IoError, Crashed} && (s == Crashed <==> crashed) && (old(crashed) ==> crashed)
      ensures !injecting ==> s == Ok
      ensures s == Ok ==> files == old(files).With(id, old(files).At(id).Record(Op.Write(at, cells, false)))
      ensures s != Ok ==>
                files == old(files).With(id, files.At(id)) && WroteSome(old(files).At(id), at, cells, files.At(id))
    {
      if crashed { return Crashed; }
      var d := Consult();
      match d
      case Fail => return IoError;
      case Partial(n, piece) =>
        var op := if n < |cells| then Op.Write(at, cells[..n], piece) else Op.Write(at, cells, false);
        assert TornFrom(Op.Write(at, cells, false), op);
        files := files.With(id, files.At(id).Record(op));
        return IoError;
      case PowerLoss =>
        var op := Op.Write(at, cells, false);
        assert TornFrom(op, op);
        files := files.With(id, files.At(id).Record(op));
        crashed := true;
        return Crashed;
      case Proceed =>
        files := files.With(id, files.At(id).Record(Op.Write(at, cells, false)));
        return Ok;
    }

    /** File::truncate. */
    method Truncate(id: FileId, size: nat) returns (s: Status)
      requires Valid()
      modifies this`files, this`crashed
      ensures Valid() && s in {Ok, IoError, Crashed} && (s == Crashed <==> crashed) && (old(crashed) ==> crashed)
      ensures !injecting ==> s == Ok
      ensures s == Ok ==> files == old(files).With(id, old(files).At(id).Record(Op.Truncate(size)))
      ensures s != Ok ==> files == old(files)
    {
      if crashed { return Crashed; }
      var d := Consult();
      match d
      case PowerLoss =>
        crashed := true;
        return Crashed;
      case Fail => return IoError;
      case _ =>
        files := files.With(id, files.At(id).Record(Op.Truncate(size)));
        return Ok;
    }

    /** File::sync: honest, or it fails and persists nothing. */
    method Sync(id: FileId) returns (s: Status)
      requires Valid()
      modifies this`files, this`crashed
      ensures Valid() && s in {Ok, IoError, Crashed} && (s == Crashed <==> crashed) && (old(crashed) ==> crashed)
      ensures !injecting ==> s == Ok
      ensures s == Ok ==> files == old(files).With(id, old(files).At(id).Synced())
      ensures s != Ok ==> files == old(files)
    {
      if crashed { return Crashed; }
      var d := Consult();
      match d
      case PowerLoss =>
        crashed := true;
        return Crashed;
      case Fail => return IoError;
      case _ =>
        files := files.With(id, files.At(id).Synced());
        return Ok;
    }

    /** Vfs::sync_directory. A created file becomes durable with its own sync at the latest, so
        here the call only has its chance to fail. */
    method SyncDirectory() returns (s: Status)
      requires Valid()
      modifies this`crashed
      ensures Valid() && s in {Ok, IoError, Crashed} && (s == Crashed <==> crashed) && (old(crashed) ==> crashed)
      ensures !injecting ==> s == Ok
    {
      if crashed { return Crashed; }
      var d := Consult();
      match d
      case PowerLoss =>
        crashed := true;
        return Crashed;
      case Fail => return IoError;
      case _ => return Ok;
    }

    /** FaultVfs::crash, if power is not already lost, and then FaultVfs::recover. */
    method Reboot()
      requires Valid()
      modifies this`files, this`crashed
      ensures Valid() && !crashed
      ensures forall id: FileId ::
                SurvivesAs(old(files).At(id).durable, old(files).At(id).pending, files.At(id).durable)
      ensures forall id: FileId :: files.At(id) == FileState(files.At(id).durable, files.At(id).durable, Nothing)
    {
      var data := PickSurvivor(files.data.durable, files.data.pending);
      var log := PickSurvivor(files.log.durable, files.log.pending);
      files := Files(FileState(data, data, Nothing), FileState(log, log, Nothing));
      crashed := false;
    }

    /** Draws the subset, its order and the tears. */
    method PickSurvivor(durable: File, pending: Pending) returns (after: File)
      ensures SurvivesAs(durable, pending, after)
    {
      var chosen: seq<nat>, torn: seq<Op> := *, *;
      if Persisted(pending.Ops(), chosen, torn) {
        after := ApplyAll(durable, torn);
      } else {
        NothingPersisted(durable, pending);
        after := durable;
      }
    }
  }
}

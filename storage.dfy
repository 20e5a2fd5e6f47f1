/**
 * The storage layer: writes go through the WAL first and reach the memory
 * table only once the WAL has accepted them; a replica refuses writes;
 * recovered and replicated batches are applied unit by unit.
 */
module ServiceStorage {
  import opened Wrappers
  import opened ComputeQuery
  import opened WalUnit
  import opened WalReplay
  import opened WalDisk
  import opened WalBuffer
  import opened WalWriter
  import opened EngineMemory

  /**
   * The WAL as storage uses it: a staged unit is flushed by the writer, and
   * the caller waits for the outcome the flush delivers on its channel.
   */
  class Wal {
    const buffer: Buffer
    const writer: Writer
    const fs: FileSystem

    constructor (buffer: Buffer, writer: Writer, fs: FileSystem)
      ensures this.buffer == buffer && this.writer == writer && this.fs == fs
    {
      this.buffer := buffer;
      this.writer := writer;
      this.fs := fs;
    }

    /** No entry is waiting between two storage calls. */
    ghost predicate Idle()
      reads buffer
    {
      buffer.values == [] && buffer.Valid()
    }

    /** The writer's file and counter. */
    function State(): WriterState
      reads writer
    {
      WriterState(writer.file, writer.currentSegmentSize)
    }

    /** Push one unit, flush it as a batch of its own, and return the result delivered for it. */
    method Append(u: Unit, io: WriteIo) returns (err: Option<WriteError>)
      requires Idle()
      modifies buffer, writer, fs
      ensures Idle()
      ensures var r := WriteSpec(old(State()), old(fs.files), [u], writer.maxSegmentSize, io);
        State() == r.state && fs.files == r.files && err == r.error
    {
      var errChan := buffer.Push(u, false);
      assert UnitsOf(buffer.values) == [u];
      writer.Flush(buffer, fs, io);
      err := errChan.value.delivery.result;
    }
  }

  /** The replication a storage runs under: none, the master, or a replica. */
  datatype Role = NoReplication | Master | Slave

  /** The errors storage returns. */
  datatype StorageError =
    | CantSetInSlave | CantDelInSlave
    | CantSetInWal(cause: WriteError) | CantDelInWal(cause: WriteError)
    | NotFound

  /** The unit `Set` logs and applies. */
  function SetUnit(key: string, value: string): (u: Unit)
    ensures WellFormed(u) && ApplyUnit(map[], u) == map[key := value]
  {
    Unit(SetCommand, [key, value])
  }

  /** The unit `Del` logs and applies. */
  function DelUnit(key: string): (u: Unit)
    ensures WellFormed(u) && forall m: Table :: key !in ApplyUnit(m, u)
  {
    Unit(DelCommand, [key])
  }

  /**
   * A write that reaches the WAL keeps the table equal to what recovery would
   * replay from the directory: when the WAL accepts the unit, applying it to
   * the table matches replaying the new directory; when it fails, the table
   * is left alone and the directory still replays to it.
   */
  lemma WalThenEngine(t: Table, st: WriterState, files: Directory, u: Unit, maxSize: int, io: WriteIo)
    requires Durable(st, files) && t == Replay(files)
    requires ClockAhead(files, io.now) && WellFormed(u)
    ensures var r := WriteSpec(st, files, [u], maxSize, io);
      && Durable(r.state, r.files)
      && Replay(r.files) == if r.error.None? then ApplyUnit(t, u) else t
  {
    WriteDurable(st, files, [u], maxSize, io);
    assert ApplyUnits(t, [u]) == ApplyUnit(ApplyUnits(t, []), u);
  }

  class Storage {
    const engine: MemoryTable
    const wal: Wal?
    const replication: Role

    /** A replica with a WAL refuses writes. */
    predicate WritesRefused()
    {
      wal != null && replication == Slave
    }

    /** What the writes may change besides the table. */
    function WalObjects(): set<object>
    {
      if wal == null then {} else {wal.buffer, wal.writer, wal.fs}
    }

    /**
     * The table is what recovery would rebuild from the WAL directory, and
     * the writer appends to the newest segment of it.
     */
    ghost predicate Consistent()
      reads engine, wal, if wal == null then {} else {wal.writer, wal.fs}
    {
      wal != null ==>
        && Durable(wal.State(), wal.fs.files)
        && WriterWellFormed(wal.State(), wal.writer.maxSegmentSize)
        && engine.data == Replay(wal.fs.files)
    }

    /**
     * `NewStorage`: applies every batch of the restore stream, in order,
     * before returning. Restoring an empty table from a stream that replays
     * to the directory's `Replay` (as `ReadRecovers` gives for an intact
     * directory) with a writer that has no file yet starts `Consistent`.
     */
    constructor (engine: MemoryTable, wal: Wal?, replication: Role, streamInit: seq<Batch>)
      requires BatchesWellFormed(streamInit)
      modifies engine
      ensures this.engine == engine && this.wal == wal && this.replication == replication
      ensures engine.data == ApplyBatches(old(engine.data), streamInit)
      ensures (&& old(engine.data) == map[]
               && wal != null && wal.State() == WriterState(NoFile, 0) && Intact(wal.fs.files)
               && ApplyBatches(map[], streamInit) == Replay(wal.fs.files)) ==> Consistent()
    {
      this.engine := engine;
      this.wal := wal;
      this.replication := replication;
      new;
      var start := engine.data;
      var i := 0;
      while i < |streamInit|
        invariant 0 <= i <= |streamInit|
        invariant BatchesWellFormed(streamInit[..i])
        invariant engine.data == ApplyBatches(start, streamInit[..i])
      {
        assert streamInit[..i + 1][..i] == streamInit[..i];
        ApplyUnitsToEngine(streamInit[i]);
        i := i + 1;
      }
      assert streamInit[..i] == streamInit;
    }

    /** `applyUnits`: SET sets, DEL deletes, any other command is skipped. */
    method ApplyUnitsToEngine(units: Batch)
      requires BatchWellFormed(units)
      modifies engine
      ensures engine.data == ApplyUnits(old(engine.data), units)
    {
      var start := engine.data;
      var i := 0;
      while i < |units|
        invariant 0 <= i <= |units|
        invariant engine.data == ApplyUnits(start, units[..i])
      {
        assert units[..i + 1][..i] == units[..i];
        var unit := units[i];
        if unit.command == SetCommand {
          engine.Set(unit.arguments[0], unit.arguments[1]);
        } else if unit.command == DelCommand {
          engine.Del(unit.arguments[0]);
        }
        i := i + 1;
      }
      assert units[..i] == units;
    }

    /**
     * `Set`: a replica with a WAL refuses; otherwise the unit is logged first
     * and the table changes only when the WAL accepts it. Without a WAL the
     * table is set directly.
     */
    method Set(key: string, value: string, io: WriteIo) returns (err: Option<StorageError>)
      requires wal != null ==> wal.Idle()
      modifies engine, WalObjects()
      ensures wal != null ==> wal.Idle()
      ensures WritesRefused() ==>
        && err == Some(CantSetInSlave) && engine.data == old(engine.data)
        && wal.State() == old(wal.State()) && wal.fs.files == old(wal.fs.files)
      ensures wal == null ==> err == None && engine.data == old(engine.data)[key := value]
      ensures wal != null && !WritesRefused() ==>
        var r := WriteSpec(old(wal.State()), old(wal.fs.files), [SetUnit(key, value)], wal.writer.maxSegmentSize, io);
        && wal.State() == r.state && wal.fs.files == r.files
        && err == (if r.error.None? then None else Some(CantSetInWal(r.error.value)))
        && engine.data == (if r.error.None? then old(engine.data)[key := value] else old(engine.data))
      ensures old(Consistent()) && (wal != null ==> ClockAhead(old(wal.fs.files), io.now)) ==> Consistent()
    {
      if wal != null {
        if replication == Slave {
          return Some(CantSetInSlave);
        }
        ghost var st := wal.State();
        ghost var files := wal.fs.files;
        ghost var before := engine.data;
        var walErr := wal.Append(SetUnit(key, value), io);
        if walErr.Some? {
          err := Some(CantSetInWal(walErr.value));
          WalOutcome(before, st, files, SetUnit(key, value), wal.writer.maxSegmentSize, io);
          return;
        }
        WalOutcome(before, st, files, SetUnit(key, value), wal.writer.maxSegmentSize, io);
      }
      engine.Set(key, value);
      return None;
    }

    /** `Del`: the same gating as `Set`, with a DEL unit. */
    method Del(key: string, io: WriteIo) returns (err: Option<StorageError>)
      requires wal != null ==> wal.Idle()
      modifies engine, WalObjects()
      ensures wal != null ==> wal.Idle()
      ensures WritesRefused() ==>
        && err == Some(CantDelInSlave) && engine.data == old(engine.data)
        && wal.State() == old(wal.State()) && wal.fs.files == old(wal.fs.files)
      ensures wal == null ==> err == None && engine.data == old(engine.data) - {key}
      ensures wal != null && !WritesRefused() ==>
        var r := WriteSpec(old(wal.State()), old(wal.fs.files), [DelUnit(key)], wal.writer.maxSegmentSize, io);
        && wal.State() == r.state && wal.fs.files == r.files
        && err == (if r.error.None? then None else Some(CantDelInWal(r.error.value)))
        && engine.data == (if r.error.None? then old(engine.data) - {key} else old(engine.data))
      ensures old(Consistent()) && (wal != null ==> ClockAhead(old(wal.fs.files), io.now)) ==> Consistent()
    {
      if wal != null {
        if replication == Slave {
          return Some(CantDelInSlave);
        }
        ghost var st := wal.State();
        ghost var files := wal.fs.files;
        ghost var before := engine.data;
        var walErr := wal.Append(DelUnit(key), io);
        if walErr.Some? {
          err := Some(CantDelInWal(walErr.value));
          WalOutcome(before, st, files, DelUnit(key), wal.writer.maxSegmentSize, io);
          return;
        }
        WalOutcome(before, st, files, DelUnit(key), wal.writer.maxSegmentSize, io);
      }
      engine.Del(key);
      return None;
    }

    /** `Get`: the stored value, or "not found"; neither the table nor the WAL changes. */
    method Get(key: string) returns (value: string, err: Option<StorageError>)
      ensures key in engine.data ==> value == engine.data[key] && err == None
      ensures key !in engine.data ==> value == "" && err == Some(NotFound)
    {
      var found;
      value, found := engine.Get(key);
      if !found {
        return "", Some(NotFound);
      }
      return value, None;
    }
  }

  /** The durability step `Set` and `Del` rely on, when the storage was consistent and the clock ahead. */
  lemma WalOutcome(t: Table, st: WriterState, files: Directory, u: Unit, maxSize: int, io: WriteIo)
    requires WellFormed(u)
    ensures (Durable(st, files) && WriterWellFormed(st, maxSize) && t == Replay(files) && ClockAhead(files, io.now)) ==>
      var r := WriteSpec(st, files, [u], maxSize, io);
      && Durable(r.state, r.files) && WriterWellFormed(r.state, maxSize)
      && Replay(r.files) == if r.error.None? then ApplyUnit(t, u) else t
  {
    if Durable(st, files) && WriterWellFormed(st, maxSize) && t == Replay(files) && ClockAhead(files, io.now) {
      WalThenEngine(t, st, files, u, maxSize, io);
      WriteKeepsWellFormed(st, files, [u], maxSize, io);
    }
  }
}

/**
 * The segment writer: appends each flushed batch as one gob value to the
 * current segment, rotating to a new `wal-<seconds>.gob` file once the
 * current one has reached the maximum size, and reports one outcome per
 * batch to every waiting caller.
 */
module WalWriter {
  import opened Wrappers
  import opened Text
  import opened WalUnit
  import opened WalReplay
  import opened WalDisk
  import opened WalSegment
  import opened WalBuffer

  /**
   * The writer's `*os.File`: none yet, open on a segment, or closed. Go marks
   * a file closed even when `Close` reports an error, and a second `Close`
   * always fails.
   */
  datatype Handle = NoFile | Open(name: string) | Closed(name: string)

  /** The fields `Write` updates: the file and `currentSegmentSize`. */
  datatype WriterState = WriterState(file: Handle, size: int)

  /**
   * What the calls one `Write` makes return: the second `time.Now()` reads
   * when a segment is created, whether opening, closing, encoding and
   * writing succeed, and the byte count of the encoded batch.
   */
  datatype WriteIo = WriteIo(now: int, openOk: bool, closeOk: bool, encodeOk: bool, writeOk: bool, size: nat)

  /** The writer's new fields, the directory afterwards, and the error returned. */
  datatype WriteStep = WriteStep(state: WriterState, files: Directory, error: Option<WriteError>)

  /** `createNewSegment`: opens `wal-<now>.gob` for appending and resets the counter, or fails and changes nothing. */
  function NewSegmentStep(st: WriterState, files: Directory, io: WriteIo): WriteStep
  {
    if io.openOk then WriteStep(WriterState(Open(SegmentName(io.now)), 0), OpenForAppend(files, SegmentName(io.now)), None)
    else WriteStep(st, files, Some(CantCreateSegment))
  }

  /** The rotation check onwards, once a file has been created. */
  function RotateAndWrite(st: WriterState, files: Directory, b: Batch, maxSize: int, io: WriteIo): WriteStep
    requires st.file != NoFile
  {
    if st.size >= maxSize && st.file.Closed? then WriteStep(st, files, Some(CantCloseFile))
    else if st.size >= maxSize && !io.closeOk then WriteStep(WriterState(Closed(st.file.name), st.size), files, Some(CantCloseFile))
    else
      var rotated := if st.size >= maxSize then NewSegmentStep(WriterState(Closed(st.file.name), st.size), files, io)
                     else WriteStep(st, files, None);
      if rotated.error.Some? then rotated
      else EncodeAndWrite(rotated.state, rotated.files, b, io)
  }

  /** Encoding the batch and writing its bytes through the handle. */
  function EncodeAndWrite(st: WriterState, files: Directory, b: Batch, io: WriteIo): WriteStep
  {
    if !io.encodeOk then WriteStep(st, files, Some(CantEncodeData))
    else if !io.writeOk || !st.file.Open? then WriteStep(st, files, Some(CantWriteData))
    else WriteStep(WriterState(st.file, st.size + io.size), AppendThrough(files, st.file.name, b, io.size), None)
  }

  /** `Write`: what one call does to the writer and the directory, and what it returns. */
  function WriteSpec(st: WriterState, files: Directory, b: Batch, maxSize: int, io: WriteIo): WriteStep
  {
    if st.file == NoFile then
      var created := NewSegmentStep(st, files, io);
      if created.error.Some? then created
      else RotateAndWrite(created.state, created.files, b, maxSize, io)
    else RotateAndWrite(st, files, b, maxSize, io)
  }

  /** The write starts a new segment: there was no file yet, or the current one is full. */
  predicate Rotates(st: WriterState, maxSize: int)
  {
    st.file == NoFile || st.size >= maxSize
  }

  /**
   * What holds of the writer between writes: the counter is never negative,
   * it is zero before the first segment, and a closed file is a full one.
   */
  predicate WriterWellFormed(st: WriterState, maxSize: int)
  {
    && st.size >= 0
    && (st.file == NoFile ==> st.size == 0)
    && (st.file.Closed? ==> st.size >= maxSize)
  }

  /** `NewWriter` starts well formed, and every write keeps the writer well formed. */
  lemma WriteKeepsWellFormed(st: WriterState, files: Directory, b: Batch, maxSize: int, io: WriteIo)
    requires WriterWellFormed(st, maxSize)
    ensures WriterWellFormed(WriterState(NoFile, 0), maxSize)
    ensures WriterWellFormed(WriteSpec(st, files, b, maxSize, io).state, maxSize)
  {
  }

  /**
   * A successful write goes to a segment just opened at `io.now`, whose
   * counter started at zero, or to the current one when its counter was below
   * the maximum; either way the counter grows by exactly the bytes written.
   * The counter is the size of the file only while every rotation gets a
   * second of its own (`WriteTracksSize`); a rotation within the same second
   * reopens the full segment and appends to it (`SameSecondOvershoot`).
   */
  lemma WriteLands(st: WriterState, files: Directory, b: Batch, maxSize: int, io: WriteIo)
    requires WriterWellFormed(st, maxSize)
    ensures var r := WriteSpec(st, files, b, maxSize, io);
      r.error.None? ==>
        && r.state.file == (if Rotates(st, maxSize) then Open(SegmentName(io.now)) else st.file)
        && r.state.size == (if Rotates(st, maxSize) then 0 else st.size) + io.size
        && (!Rotates(st, maxSize) ==> st.size < maxSize)
  {
  }

  /** The writer's counter is the number of bytes in the file it has open. */
  ghost predicate SizeTracked(st: WriterState, files: Directory)
  {
    st.file.Open? ==> st.file.name in files && SegmentBytes(files[st.file.name]) == st.size
  }

  /** The clock reads a second whose segment name sorts strictly after every WAL file. */
  ghost predicate ClockPast(files: Directory, now: int)
  {
    forall w :: w in files && IsWalName(w) ==> Less(w, SegmentName(now))
  }

  /** A clock strictly past every WAL file names a segment that does not exist yet. */
  lemma ClockPastFresh(files: Directory, now: int)
    requires ClockPast(files, now)
    ensures SegmentName(now) !in files
  {
    var c := SegmentName(now);
    SegmentNameIsWalName(now);
    LessIrreflexive(c);
  }

  /**
   * When a write that has to open a segment runs in a later second than
   * every existing one, the counter stays equal to the bytes of the open
   * file, and a successful write leaves a segment that held fewer than the
   * maximum bytes before this batch, or held nothing: a segment overshoots
   * the maximum by at most its last batch.
   */
  lemma WriteTracksSize(st: WriterState, files: Directory, b: Batch, maxSize: int, io: WriteIo)
    requires SizeTracked(st, files)
    requires Rotates(st, maxSize) ==> ClockPast(files, io.now)
    ensures var r := WriteSpec(st, files, b, maxSize, io);
      && SizeTracked(r.state, r.files)
      && (r.error.None? ==>
            && r.state.file.Open?
            && var bytes := SegmentBytes(r.files[r.state.file.name]);
               bytes < maxSize + io.size || bytes == io.size)
  {
    var c := SegmentName(io.now);
    if Rotates(st, maxSize) {
      ClockPastFresh(files, io.now);
      if st.file == NoFile && io.openOk {
        var created := OpenForAppend(files, c);
        assert SegmentBytes(created[c]) == 0;
        if maxSize <= 0 && io.closeOk && io.openOk {
          assert OpenForAppend(created, c) == created;
        }
        if io.encodeOk && io.writeOk {
          AppendThroughBytes(OpenForAppend(created, c), c, b, io.size);
          AppendThroughBytes(created, c, b, io.size);
        }
      } else if st.file.Open? && io.closeOk && io.openOk {
        var created := OpenForAppend(files, c);
        assert SegmentBytes(created[c]) == 0;
        if io.encodeOk && io.writeOk {
          AppendThroughBytes(created, c, b, io.size);
        }
      }
    } else if st.file.Open? && io.encodeOk && io.writeOk {
      AppendThroughBytes(files, st.file.name, b, io.size);
    }
  }

  /**
   * Two rotations in the same second: a segment filled to the maximum in
   * second `now` is closed and `os.OpenFile` hands back the same file, so the
   * batch lands after the old contents while the counter restarts. The file
   * then holds twice the maximum, and the counter no longer measures it.
   */
  lemma SameSecondOvershoot(now: int, old0: Batch, b: Batch, maxSize: nat)
    requires maxSize > 0
    ensures var name := SegmentName(now);
      var st := WriterState(Open(name), maxSize);
      var files := map[name := [Encoded(old0, maxSize)]];
      var r := WriteSpec(st, files, b, maxSize, WriteIo(now, true, true, true, true, maxSize));
      && WriterWellFormed(st, maxSize) && SizeTracked(st, files) && ClockAhead(files, now)
      && r.error.None? && r.state == WriterState(Open(name), maxSize)
      && r.files[name] == [Encoded(old0, maxSize), Encoded(b, maxSize)]
      && SegmentBytes(r.files[name]) == 2 * maxSize
      && !SizeTracked(r.state, r.files)
  {
  }

  /**
   * A failed write adds no frame and does not advance the counter: the
   * directory differs at most by an empty segment that was created, and the
   * counter is unchanged or was reset by that creation.
   */
  lemma WriteFailureWritesNothing(st: WriterState, files: Directory, b: Batch, maxSize: int, io: WriteIo)
    ensures var r := WriteSpec(st, files, b, maxSize, io);
      r.error.Some? ==>
        && (r.files == files || r.files == OpenForAppend(files, SegmentName(io.now)))
        && (r.state.size == st.size || r.state.size == 0)
  {
    if st.file == NoFile {
      var created := NewSegmentStep(st, files, io);
      if created.error.None? {
        RotateFailureWritesNothing(created.state, created.files, b, maxSize, io);
        assert OpenForAppend(created.files, SegmentName(io.now)) == created.files;
      }
    } else {
      RotateFailureWritesNothing(st, files, b, maxSize, io);
    }
  }

  /** The same, from the rotation check onwards. */
  lemma RotateFailureWritesNothing(st: WriterState, files: Directory, b: Batch, maxSize: int, io: WriteIo)
    requires st.file != NoFile
    ensures var r := RotateAndWrite(st, files, b, maxSize, io);
      r.error.Some? ==>
        && (r.files == files || r.files == OpenForAppend(files, SegmentName(io.now)))
        && (r.state.size == st.size || r.state.size == 0)
  {
  }

  /**
   * The error reports the step that failed: opening a segment, closing the
   * full one, encoding, or writing.
   */
  lemma WriteErrors(st: WriterState, files: Directory, b: Batch, maxSize: int, io: WriteIo)
    requires WriterWellFormed(st, maxSize)
    ensures var r := WriteSpec(st, files, b, maxSize, io);
      && (r.error == Some(CantCreateSegment) ==> !io.openOk && (Rotates(st, maxSize)))
      && (r.error == Some(CantCloseFile) ==> st.size >= maxSize && (st.file.Closed? || !io.closeOk))
      && (r.error == Some(CantEncodeData) ==> !io.encodeOk)
      && (r.error == Some(CantWriteData) ==> !io.writeOk)
      && (io.openOk && io.closeOk && io.encodeOk && io.writeOk && !st.file.Closed? ==> r.error == None)
  {
  }

  /**
   * Once a rotation has closed the full segment and failed to open the next
   * one, the writer holds a closed file whose counter is still at the
   * maximum: every later write fails to close it again and changes nothing.
   */
  lemma FailedRotationSticks(st: WriterState, files: Directory, b: Batch, maxSize: int, io: WriteIo)
    requires st.file.Open? && st.size >= maxSize && io.closeOk && !io.openOk
    ensures var r := WriteSpec(st, files, b, maxSize, io);
      && r.error == Some(CantCreateSegment)
      && r.state.file.Closed? && r.state.size >= maxSize && r.files == files
      && forall b': Batch, io': WriteIo :: WriteSpec(r.state, r.files, b', maxSize, io') == WriteStep(r.state, r.files, Some(CantCloseFile))
  {
  }

  /** A segment name is a WAL name. */
  lemma SegmentNameIsWalName(now: int)
    ensures IsWalName(SegmentName(now))
  {
    var d := FormatInt(now);
    var name := SegmentName(now);
    assert name == "wal-" + (d + ".gob");
    assert name[..4] == "wal-";
    assert name[|name| - 4..] == ".gob";
  }

  /** The clock reads a second whose segment name sorts at or after every WAL file. */
  ghost predicate ClockAhead(files: Directory, now: int)
  {
    forall w :: w in files && IsWalName(w) ==> LessEq(w, SegmentName(now))
  }

  /**
   * What recovery relies on: the directory decodes, and an open writer
   * appends to the newest WAL file, so every batch it writes is replayed last.
   */
  ghost predicate Durable(st: WriterState, files: Directory)
  {
    && Intact(files)
    && (st.file.Open? ==> IsNewest(files, st.file.name))
  }

  /**
   * Write-ahead durability: when the clock is ahead of the existing
   * segments, a write keeps the directory durable, and the directory then
   * replays to the old table with the batch applied when the write
   * succeeded, and to the old table when it failed.
   */
  lemma WriteDurable(st: WriterState, files: Directory, b: Batch, maxSize: int, io: WriteIo)
    requires Durable(st, files) && ClockAhead(files, io.now) && BatchWellFormed(b)
    ensures var r := WriteSpec(st, files, b, maxSize, io);
      && Durable(r.state, r.files)
      && Replay(r.files) == if r.error.None? then ApplyUnits(Replay(files), b) else Replay(files)
  {
    var r := WriteSpec(st, files, b, maxSize, io);
    if st.file == NoFile {
      var created := NewSegmentStep(st, files, io);
      if created.error.None? {
        OpenDurable(st, files, io);
        RotateDurable(created.state, created.files, b, maxSize, io);
      }
    } else {
      RotateDurable(st, files, b, maxSize, io);
    }
  }

  /** Creating a segment at a second ahead of the directory keeps it durable and replays the same. */
  lemma OpenDurable(st: WriterState, files: Directory, io: WriteIo)
    requires Durable(st, files) && ClockAhead(files, io.now)
    ensures var r := NewSegmentStep(st, files, io);
      && Durable(r.state, r.files) && Replay(r.files) == Replay(files)
      && ClockAhead(r.files, io.now)
  {
    if io.openOk {
      var c := SegmentName(io.now);
      SegmentNameIsWalName(io.now);
      ReplayOpenNewest(files, c);
      var g := OpenForAppend(files, c);
      forall w | w in g && IsWalName(w) ensures LessEq(w, c) {
        if w != c {
          assert w in files;
        }
      }
    }
  }

  lemma RotateDurable(st: WriterState, files: Directory, b: Batch, maxSize: int, io: WriteIo)
    requires st.file != NoFile
    requires Durable(st, files) && ClockAhead(files, io.now) && BatchWellFormed(b)
    ensures var r := RotateAndWrite(st, files, b, maxSize, io);
      && Durable(r.state, r.files)
      && Replay(r.files) == if r.error.None? then ApplyUnits(Replay(files), b) else Replay(files)
  {
    if st.size >= maxSize && (st.file.Closed? || !io.closeOk) {
      assert RotateAndWrite(st, files, b, maxSize, io).files == files;
    } else if st.size >= maxSize {
      ClosedRotationDurable(st, files, b, maxSize, io);
    } else {
      WriteNewestDurable(st, files, b, io);
      assert RotateAndWrite(st, files, b, maxSize, io) == EncodeAndWrite(st, files, b, io);
    }
  }

  /** The rotating branch of `RotateDurable`: the old file closed, a new one created, then the write. */
  lemma ClosedRotationDurable(st: WriterState, files: Directory, b: Batch, maxSize: int, io: WriteIo)
    requires st.file.Open? && st.size >= maxSize && io.closeOk
    requires Durable(st, files) && ClockAhead(files, io.now) && BatchWellFormed(b)
    ensures var r := RotateAndWrite(st, files, b, maxSize, io);
      && Durable(r.state, r.files)
      && Replay(r.files) == if r.error.None? then ApplyUnits(Replay(files), b) else Replay(files)
  {
    if io.openOk {
      OpenedRotationDurable(st, files, b, maxSize, io);
    } else {
      assert RotateAndWrite(st, files, b, maxSize, io).files == files;
    }
  }

  /** A rotation whose new segment opens: the write lands in the new, newest file. */
  lemma OpenedRotationDurable(st: WriterState, files: Directory, b: Batch, maxSize: int, io: WriteIo)
    requires st.file.Open? && st.size >= maxSize && io.closeOk && io.openOk
    requires Durable(st, files) && ClockAhead(files, io.now) && BatchWellFormed(b)
    ensures var r := RotateAndWrite(st, files, b, maxSize, io);
      && Durable(r.state, r.files)
      && Replay(r.files) == if r.error.None? then ApplyUnits(Replay(files), b) else Replay(files)
  {
    var closed := WriterState(Closed(st.file.name), st.size);
    var rotated := NewSegmentStep(closed, files, io);
    OpenDurable(closed, files, io);
    WriteNewestDurable(rotated.state, rotated.files, b, io);
    RotationShape(st, files, b, maxSize, io);
  }

  /** With the close and the open succeeding, the rotation is the open followed by the write. */
  lemma RotationShape(st: WriterState, files: Directory, b: Batch, maxSize: int, io: WriteIo)
    requires st.file.Open? && st.size >= maxSize && io.closeOk && io.openOk
    ensures var rotated := NewSegmentStep(WriterState(Closed(st.file.name), st.size), files, io);
      RotateAndWrite(st, files, b, maxSize, io) == EncodeAndWrite(rotated.state, rotated.files, b, io)
  {
  }

  lemma WriteNewestDurable(st: WriterState, files: Directory, b: Batch, io: WriteIo)
    requires Durable(st, files) && BatchWellFormed(b)
    ensures var r := EncodeAndWrite(st, files, b, io);
      && Durable(r.state, r.files)
      && Replay(r.files) == if r.error.None? then ApplyUnits(Replay(files), b) else Replay(files)
  {
    if io.encodeOk && io.writeOk && st.file.Open? {
      ReplayWriteThrough(files, st.file.name, b, io.size);
    }
  }

  class Writer {
    const maxSegmentSize: int
    var file: Handle
    var currentSegmentSize: int

    /** `NewWriter`: no file is opened until the first write. */
    constructor (maxSegmentSize: int)
      ensures this.maxSegmentSize == maxSegmentSize
      ensures file == NoFile && currentSegmentSize == 0
    {
      this.maxSegmentSize := maxSegmentSize;
      file := NoFile;
      currentSegmentSize := 0;
    }

    /** `createNewSegment`. */
    method CreateNewSegment(fs: FileSystem, io: WriteIo) returns (ok: bool)
      modifies this, fs
      ensures var r := NewSegmentStep(WriterState(old(file), old(currentSegmentSize)), old(fs.files), io);
        && WriterState(file, currentSegmentSize) == r.state && fs.files == r.files
        && ok == r.error.None?
    {
      if !io.openOk {
        return false;
      }
      var filename := SegmentName(io.now);
      fs.files := OpenForAppend(fs.files, filename);
      currentSegmentSize := 0;
      file := Open(filename);
      return true;
    }

    /** `Write`. */
    method Write(fs: FileSystem, units: Batch, io: WriteIo) returns (err: Option<WriteError>)
      modifies this, fs
      ensures WriteStep(WriterState(file, currentSegmentSize), fs.files, err) ==
        WriteSpec(WriterState(old(file), old(currentSegmentSize)), old(fs.files), units, maxSegmentSize, io)
    {
      if file == NoFile {
        var ok := CreateNewSegment(fs, io);
        if !ok {
          return Some(CantCreateSegment);
        }
      }

      if currentSegmentSize >= maxSegmentSize {
        if file.Closed? {
          return Some(CantCloseFile);
        }
        file := Closed(file.name);
        if !io.closeOk {
          return Some(CantCloseFile);
        }
        var ok := CreateNewSegment(fs, io);
        if !ok {
          return Some(CantCreateSegment);
        }
      }

      if !io.encodeOk {
        return Some(CantEncodeData);
      }
      if !io.writeOk || !file.Open? {
        return Some(CantWriteData);
      }
      fs.files := AppendThrough(fs.files, file.name, units, io.size);
      currentSegmentSize := currentSegmentSize + io.size;
      return None;
    }

    /**
     * `Flush`: drains the buffer, writes all drained units in push order as
     * one batch, and sends the one result to every drained entry's channel.
     * An empty buffer writes nothing.
     */
    method Flush(buffer: Buffer, fs: FileSystem, io: WriteIo)
      modifies this, buffer, fs, set i | 0 <= i < |buffer.values| :: buffer.values[i].errChan
      ensures buffer.values == [] && buffer.oversize == old(buffer.oversize)
      ensures old(buffer.values) == [] ==>
        file == old(file) && currentSegmentSize == old(currentSegmentSize) && fs.files == old(fs.files)
      ensures old(buffer.values) != [] ==>
        var r := WriteSpec(WriterState(old(file), old(currentSegmentSize)), old(fs.files), UnitsOf(old(buffer.values)), maxSegmentSize, io);
        && WriterState(file, currentSegmentSize) == r.state && fs.files == r.files
        && forall i :: 0 <= i < |old(buffer.values)| ==> old(buffer.values)[i].errChan.delivery == Delivered(r.error)
    {
      var walBuffer := buffer.PopAll();
      if |walBuffer| == 0 {
        return;
      }
      var units := CollectUnits(walBuffer);
      var err := Write(fs, units, io);
      Deliver(walBuffer, err);
    }
  }

  /** The units of the drained entries, in push order. */
  method CollectUnits(walBuffer: seq<UnitData>) returns (units: Batch)
    ensures units == UnitsOf(walBuffer)
  {
    units := [];
    var i := 0;
    while i < |walBuffer|
      invariant 0 <= i <= |walBuffer|
      invariant |units| == i
      invariant forall k :: 0 <= k < i ==> units[k] == walBuffer[k].unit
    {
      units := units + [walBuffer[i].unit];
      i := i + 1;
    }
  }

  /** Sends the write's result on every drained entry's channel. */
  method Deliver(walBuffer: seq<UnitData>, err: Option<WriteError>)
    modifies set k | 0 <= k < |walBuffer| :: walBuffer[k].errChan
    ensures forall k :: 0 <= k < |walBuffer| ==> walBuffer[k].errChan.delivery == Delivered(err)
  {
    var i := 0;
    while i < |walBuffer|
      invariant 0 <= i <= |walBuffer|
      invariant forall k :: 0 <= k < i ==> walBuffer[k].errChan.delivery == Delivered(err)
    {
      walBuffer[i].errChan.delivery := Delivered(err);
      i := i + 1;
    }
  }
}

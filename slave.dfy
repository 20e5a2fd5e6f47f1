/**
 * The replica: on each tick it asks the master for the segment after the
 * last one it holds, appends what comes back to its own WAL directory,
 * forwards the first batch of it to storage, and only then moves its cursor.
 */
module ReplicationSlave {
  import opened Wrappers
  import opened Text
  import opened WalUnit
  import opened WalDisk
  import opened WalSegment
  import opened ReplicationMaster

  /** What a replica reports: from construction, or from one step of a sync. */
  datatype SlaveError =
    | CantDial
    | CantGetLastSegment(cause: SegmentError)
    | CantMarshalRequest | CantSendRequest | CantUnmarshalResponse
    | CantCreateSegment | CantWriteSegment | CantSyncSegment
    | CantDecodeData

  /**
   * What the calls of one sync return: whether the request marshals and the
   * exchange succeeds, the decoded reply (None when it does not unmarshal),
   * and whether opening, writing and syncing the local file succeed.
   */
  datatype SyncIo = SyncIo(
    marshalOk: bool, sendOk: bool, reply: Option<SegmentResponse>,
    openOk: bool, writeOk: bool, syncOk: bool)

  /** Every local step of a sync succeeds. */
  predicate LocalOk(io: SyncIo)
  {
    io.marshalOk && io.sendOk && io.openOk && io.writeOk && io.syncOk
  }

  /**
   * `saveSegment`: nothing for an empty name; otherwise open the file of
   * that name for appending (creating it), append the data, and sync.
   */
  function SaveSegment(files: Directory, name: string, data: Segment, io: SyncIo): (r: (Directory, Option<SlaveError>))
    ensures r.0.Keys <= files.Keys + {name}
    ensures forall n :: n in files && n != name ==> n in r.0 && r.0[n] == files[n]
    ensures name == "" ==> r == (files, None)
    ensures r.1.None? && name != "" ==>
      name in r.0 && r.0[name] == (if name in files then files[name] else []) + data
  {
    if name == "" then (files, None)
    else if !io.openOk then (files, Some(SlaveError.CantCreateSegment))
    else
      var created := OpenForAppend(files, name);
      if !io.writeOk then (created, Some(CantWriteSegment))
      else
        var written := created[name := created[name] + data];
        if !io.syncOk then (written, Some(CantSyncSegment)) else (written, None)
  }

  /**
   * `applyDataToEngine`'s decoding: no bytes forward nothing; otherwise one
   * gob value is decoded from the front, and only that batch is forwarded.
   */
  function DecodeData(data: Segment): (r: Result<seq<Batch>, SlaveError>)
    ensures r.Err? <==> data != [] && data[0].Corrupt?
    ensures r.Ok? ==> |r.value| <= 1 && r.value <= DecodedPrefix(data)
    ensures r.Ok? && data != [] ==> r.value == [data[0].batch]
  {
    if data == [] then Ok([])
    else if data[0].Corrupt? then Err(CantDecodeData)
    else Ok([data[0].batch])
  }

  /** Where one sync leaves the replica: its cursor, its directory, what it forwarded, and what it reports. */
  datatype SyncStep = SyncStep(cursor: string, files: Directory, forwarded: seq<Batch>, error: Option<SlaveError>)

  /** `sync`: each failing step logs and returns, leaving the cursor where it was. */
  function SyncSpec(cursor: string, files: Directory, io: SyncIo): SyncStep
  {
    if !io.marshalOk then SyncStep(cursor, files, [], Some(CantMarshalRequest))
    else if !io.sendOk then SyncStep(cursor, files, [], Some(CantSendRequest))
    else if io.reply.None? then SyncStep(cursor, files, [], Some(CantUnmarshalResponse))
    else
      var resp := io.reply.value;
      var (saved, saveErr) := SaveSegment(files, resp.name, resp.data, io);
      if saveErr.Some? then SyncStep(cursor, saved, [], saveErr)
      else match DecodeData(resp.data)
        case Err(e) => SyncStep(cursor, saved, [], Some(e))
        case Ok(batches) => SyncStep(resp.name, saved, batches, None)
  }

  /**
   * The cursor moves to the response's name exactly when every step
   * succeeds (the reply arrives and decodes, the segment is saved, the data
   * decodes); on any failure it stays put and nothing is forwarded.
   */
  lemma AdvancesOnlyOnSuccess(cursor: string, files: Directory, io: SyncIo)
    ensures var s := SyncSpec(cursor, files, io);
      && (s.error.None? <==>
            && io.marshalOk && io.sendOk && io.reply.Some?
            && (io.reply.value.name == "" || (io.openOk && io.writeOk && io.syncOk))
            && (io.reply.value.data == [] || io.reply.value.data[0].Encoded?))
      && (s.error.None? ==> s.cursor == io.reply.value.name)
      && (s.error.Some? ==> s.cursor == cursor && s.forwarded == [])
  {
  }

  /** A response without data still moves the cursor, and forwards nothing. */
  lemma AdvancesWithoutData(cursor: string, files: Directory, io: SyncIo)
    requires LocalOk(io) && io.reply.Some? && io.reply.value.data == []
    ensures var s := SyncSpec(cursor, files, io);
      s.error == None && s.cursor == io.reply.value.name && s.forwarded == []
  {
  }

  /** However many batches the shipped segment holds, at most its first reaches storage. */
  lemma ForwardsFirstBatchOnly(cursor: string, files: Directory, io: SyncIo)
    requires io.reply.Some?
    ensures var s := SyncSpec(cursor, files, io);
      && |s.forwarded| <= 1
      && (s.error.None? && io.reply.value.data != [] ==> s.forwarded == [io.reply.value.data[0].batch])
  {
  }

  /** A segment holding two batches: the replica's storage gets the first and never the second. */
  lemma SecondBatchNotForwarded(cursor: string, files: Directory, io: SyncIo, b1: Batch, b2: Batch, n1: nat, n2: nat)
    requires LocalOk(io) && io.reply.Some? && io.reply.value.data == [Encoded(b1, n1), Encoded(b2, n2)]
    ensures var s := SyncSpec(cursor, files, io);
      && s.error == None && s.forwarded == [b1]
      && DecodedPrefix(io.reply.value.data) == [b1, b2]
  {
    assert DecodedPrefix([Encoded(b2, n2)]) == [b2] by {
      assert [Encoded(b2, n2)][1..] == [];
    }
    assert [Encoded(b1, n1), Encoded(b2, n2)][1..] == [Encoded(b2, n2)];
  }

  /**
   * A segment the replica does not hold yet, shipped by the master, becomes
   * an exact copy of the master's file, and the cursor moves to it.
   */
  lemma CopiesNewSegment(entries: seq<string>, master: Directory, replica: Directory, cursor: string, unreadable: set<string>, io: SyncIo)
    requires Distinct(entries) && OrderConsistent(entries)
    requires cursor in entries && cursor != "" && ParseName(cursor).Some?
    requires exists y :: y in entries && ParseName(y).Some? && Less(cursor, y)
    requires io.reply == Some(FindLastSegment(master, Some(entries), cursor, unreadable)) && LocalOk(io)
    requires var next := io.reply.value.name;
      next in master && next !in unreadable && next !in replica && (master[next] == [] || master[next][0].Encoded?)
    ensures var next := io.reply.value.name; var s := SyncSpec(cursor, replica, io);
      && s.error == None && s.cursor == next && Less(cursor, next)
      && next in s.files && s.files[next] == master[next]
  {
    ShipsSuccessor(entries, master, cursor, unreadable);
    var next := io.reply.value.name;
    LessIrreflexive(cursor);
    SyncSaves(cursor, replica, io);
    assert [] + master[next] == master[next];
  }

  /**
   * A successor the master cannot read is lost to the replica: the reply
   * names it without data, and the replica moves its cursor past it, keeps
   * an empty file of that name and forwards nothing. Later syncs ask after it.
   */
  lemma UnreadableSuccessorLost(entries: seq<string>, master: Directory, replica: Directory, cursor: string, unreadable: set<string>, io: SyncIo)
    requires Distinct(entries) && OrderConsistent(entries)
    requires cursor in entries && cursor != "" && ParseName(cursor).Some?
    requires exists y :: y in entries && ParseName(y).Some? && Less(cursor, y)
    requires io.reply == Some(FindLastSegment(master, Some(entries), cursor, unreadable)) && LocalOk(io)
    requires io.reply.value.name in unreadable && io.reply.value.name !in replica
    ensures var next := io.reply.value.name; var s := SyncSpec(cursor, replica, io);
      && s.error == None && s.cursor == next && Less(cursor, next) && s.forwarded == []
      && next in s.files && s.files[next] == []
  {
    ShipsSuccessor(entries, master, cursor, unreadable);
    SyncSaves(cursor, replica, io);
    AdvancesWithoutData(cursor, replica, io);
  }

  /** A named response whose data decodes, with every local step succeeding, is appended and moves the cursor. */
  lemma SyncSaves(cursor: string, files: Directory, io: SyncIo)
    requires LocalOk(io) && io.reply.Some? && io.reply.value.name != ""
    requires io.reply.value.data == [] || io.reply.value.data[0].Encoded?
    ensures var name := io.reply.value.name; var s := SyncSpec(cursor, files, io);
      && s.error == None && s.cursor == name && name in s.files
      && s.files[name] == (if name in files then files[name] else []) + io.reply.value.data
  {
  }

  /**
   * When the master cannot list its directory, a replica with a parseable
   * cursor is told "" and, having saved and forwarded nothing, rewinds its
   * cursor to "". The next sync asks from the beginning and is shipped the
   * oldest segment again, which the replica appends to the copy it already
   * holds: that file then holds the master's contents twice.
   */
  lemma ListingFailureRewinds(
    entries: seq<string>, master: Directory, replica: Directory, cursor: string,
    unreadable: set<string>, io1: SyncIo, io2: SyncIo)
    requires ParseName(cursor).Some? && "" !in entries
    requires io1.reply == Some(FindLastSegment(master, None, cursor, unreadable)) && LocalOk(io1)
    requires io2.reply == Some(FindLastSegment(master, Some(entries), "", unreadable)) && LocalOk(io2)
    requires exists y :: y in entries && Qualifies(y, 0)
    requires var oldest := io2.reply.value.name;
      oldest in master && oldest !in unreadable && oldest in replica && (master[oldest] == [] || master[oldest][0].Encoded?)
    ensures var s1 := SyncSpec(cursor, replica, io1);
      s1 == SyncStep("", replica, [], None)
    ensures var oldest := io2.reply.value.name; var s2 := SyncSpec("", replica, io2);
      && s2.error == None && s2.cursor == oldest
      && s2.files[oldest] == replica[oldest] + master[oldest]
  {
    assert GetNewerSegmentNames(None, cursor) == Err(CantReadDirectory);
    assert io1.reply.value == SegmentResponse("", []);
    ShipsOldestFirst(entries, master, unreadable);
    SyncSaves("", replica, io2);
  }

  /** The replica's state: its cursor, and the batches it has sent on the storage stream. */
  class Slave {
    var lastSegmentName: string
    var sent: seq<Batch>

    constructor (lastSegmentName: string)
      ensures this.lastSegmentName == lastSegmentName && sent == []
    {
      this.lastSegmentName := lastSegmentName;
      sent := [];
    }

    /** One `sync` against the replica's own WAL directory. */
    method Sync(fs: FileSystem, io: SyncIo) returns (err: Option<SlaveError>)
      modifies this, fs
      ensures var s := SyncSpec(old(lastSegmentName), old(fs.files), io);
        && lastSegmentName == s.cursor && fs.files == s.files
        && sent == old(sent) + s.forwarded && err == s.error
    {
      if !io.marshalOk {
        return Some(CantMarshalRequest);
      }
      if !io.sendOk {
        return Some(CantSendRequest);
      }
      if io.reply.None? {
        return Some(CantUnmarshalResponse);
      }
      var segmentResponse := io.reply.value;
      err := SaveSegmentTo(fs, segmentResponse.name, segmentResponse.data, io);
      if err.Some? {
        return;
      }
      err := ApplyDataToEngine(segmentResponse.data);
      if err.Some? {
        return;
      }
      lastSegmentName := segmentResponse.name;
    }

    /** `saveSegment`, step by step on the directory. */
    method SaveSegmentTo(fs: FileSystem, name: string, data: Segment, io: SyncIo) returns (err: Option<SlaveError>)
      modifies fs
      ensures (fs.files, err) == SaveSegment(old(fs.files), name, data, io)
    {
      if name == "" {
        return None;
      }
      if !io.openOk {
        return Some(SlaveError.CantCreateSegment);
      }
      fs.files := OpenForAppend(fs.files, name);
      if !io.writeOk {
        return Some(CantWriteSegment);
      }
      fs.files := fs.files[name := fs.files[name] + data];
      if !io.syncOk {
        return Some(CantSyncSegment);
      }
      return None;
    }

    /** `applyDataToEngine`: decode the data and send what it yields on the stream. */
    method ApplyDataToEngine(segmentData: Segment) returns (err: Option<SlaveError>)
      modifies this
      ensures lastSegmentName == old(lastSegmentName)
      ensures DecodeData(segmentData).Err? ==> err == Some(DecodeData(segmentData).error) && sent == old(sent)
      ensures DecodeData(segmentData).Ok? ==> err == None && sent == old(sent) + DecodeData(segmentData).value
    {
      if |segmentData| == 0 {
        return None;
      }
      if segmentData[0].Corrupt? {
        return Some(CantDecodeData);
      }
      sent := sent + [segmentData[0].batch];
      return None;
    }
  }

  /** `NewSlave`: dial the master, then start the cursor at the last local segment. */
  method NewSlave(dialOk: bool, listing: Option<seq<string>>) returns (s: Slave?, err: Option<SlaveError>)
    ensures !dialOk ==> s == null && err == Some(CantDial)
    ensures dialOk && GetLastSegment(listing).Err? ==>
      s == null && err == Some(CantGetLastSegment(GetLastSegment(listing).error))
    ensures dialOk && GetLastSegment(listing).Ok? ==>
      && s != null && fresh(s) && err == None
      && s.lastSegmentName == GetLastSegment(listing).value && s.sent == []
  {
    if !dialOk {
      return null, Some(CantDial);
    }
    var lastSegment := GetLastSegment(listing);
    if lastSegment.Err? {
      return null, Some(CantGetLastSegment(lastSegment.error));
    }
    s := new Slave(lastSegment.value);
    err := None;
  }
}

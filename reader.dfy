/**
 * Recovery: the reader lists the WAL directory, keeps the `wal-*.gob` names,
 * sorts them and emits every batch of every segment in order on its stream.
 * The stream is closed on every exit.
 */
module WalReader {
  import opened Wrappers
  import opened Text
  import opened WalUnit
  import opened WalReplay
  import opened WalDisk

  /** The three ways `Read` fails. */
  datatype ReadError = CantReadWalDirectory | CantOpenSegment(name: string) | CantParseSegment(name: string)

  /** What a read emits on its stream and the error it returns (None for nil). */
  datatype ReadResult = ReadResult(batches: seq<Batch>, error: Option<ReadError>)

  /**
   * Reading one segment: `unreadable` are the names whose `os.ReadFile`
   * fails (a file that vanished since the listing fails too); otherwise its
   * batches are sent until the bytes run out or one fails to decode.
   */
  function SegmentRead(files: Directory, n: string, unreadable: set<string>): (r: ReadResult)
  {
    if n !in files || n in unreadable then ReadResult([], Some(CantOpenSegment(n)))
    else if |DecodedPrefix(files[n])| < |files[n]| then ReadResult(DecodedPrefix(files[n]), Some(CantParseSegment(n)))
    else ReadResult(DecodedPrefix(files[n]), None)
  }

  /** Reading the named segments in order; the first failing segment ends the read. */
  function ReadSegments(files: Directory, names: seq<string>, unreadable: set<string>): ReadResult
  {
    if names == [] then ReadResult([], None)
    else
      var before := ReadSegments(files, names[..|names| - 1], unreadable);
      if before.error.Some? then before
      else
        var last := SegmentRead(files, names[|names| - 1], unreadable);
        ReadResult(before.batches + last.batches, last.error)
  }

  /** The names `Read` reads, in the order it reads them. */
  function SegmentsToRead(listing: seq<string>): (r: seq<string>)
  {
    SortStrings(Filter(listing, IsWalName))
  }

  /** A whole `Read`: a failed listing emits nothing. */
  function ReadOutcome(files: Directory, listing: Option<seq<string>>, unreadable: set<string>): ReadResult
  {
    match listing
    case None => ReadResult([], Some(CantReadWalDirectory))
    case Some(entries) => ReadSegments(files, SegmentsToRead(entries), unreadable)
  }

  /** The segment `n` can be read through to its end. */
  predicate ReadsThrough(files: Directory, n: string, unreadable: set<string>)
  {
    n in files && n !in unreadable && Decodable(files[n])
  }

  /**
   * What a read emits is always a prefix of the batches the named files hold,
   * all of them exactly when it ends without error, and it ends without
   * error exactly when every segment reads through.
   */
  lemma {:induction false} ReadSegmentsPrefix(files: Directory, names: seq<string>, unreadable: set<string>)
    ensures ReadSegments(files, names, unreadable).batches <= BatchesOf(files, names)
    ensures ReadSegments(files, names, unreadable).error.None? <==>
      forall i :: 0 <= i < |names| ==> ReadsThrough(files, names[i], unreadable)
    ensures ReadSegments(files, names, unreadable).error.None? ==>
      ReadSegments(files, names, unreadable).batches == BatchesOf(files, names)
    decreases |names|
  {
    if names != [] {
      var front := names[..|names| - 1];
      var n := names[|names| - 1];
      ReadSegmentsPrefix(files, front, unreadable);
      var before := ReadSegments(files, front, unreadable);
      assert BatchesOf(files, names) == BatchesOf(files, front) + FileBatches(files, n);
      if n in files {
        DecodedPrefixFull(files[n]);
      }
      if before.error.None? {
        assert (forall i :: 0 <= i < |names| ==> ReadsThrough(files, names[i], unreadable)) <==>
          ReadsThrough(files, n, unreadable) by {
          assert forall i :: 0 <= i < |front| ==> front[i] == names[i];
        }
      } else {
        assert !ReadsThrough(files, names[IndexOfFailure(files, front, unreadable)], unreadable) by {
          FailureIndex(files, front, unreadable);
        }
      }
    }
  }

  /** Where a failed read stopped. */
  function IndexOfFailure(files: Directory, names: seq<string>, unreadable: set<string>): nat
  {
    if names == [] then 0
    else if ReadSegments(files, names[..|names| - 1], unreadable).error.Some? then
      IndexOfFailure(files, names[..|names| - 1], unreadable)
    else |names| - 1
  }

  lemma {:induction false} FailureIndex(files: Directory, names: seq<string>, unreadable: set<string>)
    requires ReadSegments(files, names, unreadable).error.Some?
    ensures IndexOfFailure(files, names, unreadable) < |names|
    ensures !ReadsThrough(files, names[IndexOfFailure(files, names, unreadable)], unreadable)
    decreases |names|
  {
    var front := names[..|names| - 1];
    if ReadSegments(files, front, unreadable).error.Some? {
      FailureIndex(files, front, unreadable);
    } else {
      var n := names[|names| - 1];
      if n in files {
        DecodedPrefixFull(files[n]);
      }
    }
  }

  /**
   * Recovery reads exactly the replay order: on an intact directory whose
   * files all read, the stream carries the batches whose replay is `Replay`.
   */
  lemma ReadRecovers(files: Directory, listing: seq<string>, unreadable: set<string>)
    requires IsListing(listing, files) && Intact(files)
    requires forall n :: n in unreadable ==> !IsWalName(n)
    ensures ReadOutcome(files, Some(listing), unreadable).error == None
    ensures ReadOutcome(files, Some(listing), unreadable).batches == BatchesOf(files, WalOrder(files))
    ensures BatchesWellFormed(ReadOutcome(files, Some(listing), unreadable).batches)
    ensures ApplyBatches(map[], ReadOutcome(files, Some(listing), unreadable).batches) == Replay(files)
  {
    var w := WalOrder(files);
    assert SegmentsToRead(listing) == w by {
      WalOrderOfListing(listing, files);
    }
    WalOrderInFiles(files);
    assert forall i :: 0 <= i < |w| ==> ReadsThrough(files, w[i], unreadable);
    ReadSegmentsPrefix(files, w, unreadable);
    ReplayUnfold(files);
  }

  /** Reading one more segment after a clean prefix. */
  lemma ReadSegmentsNext(files: Directory, names: seq<string>, k: nat, unreadable: set<string>)
    requires k < |names| && ReadSegments(files, names[..k], unreadable).error.None?
    ensures ReadSegments(files, names[..k + 1], unreadable) ==
      ReadResult(ReadSegments(files, names[..k], unreadable).batches + SegmentRead(files, names[k], unreadable).batches,
                 SegmentRead(files, names[k], unreadable).error)
  {
    assert names[..k + 1][..k] == names[..k] && names[..k + 1][k] == names[k];
  }

  /** Once a read has failed, the segments after the failure change nothing. */
  lemma {:induction false} ReadSegmentsStop(files: Directory, names: seq<string>, k: nat, unreadable: set<string>)
    requires k < |names|
    requires ReadSegments(files, names[..k + 1], unreadable).error.Some?
    ensures ReadSegments(files, names, unreadable) == ReadSegments(files, names[..k + 1], unreadable)
    decreases |names| - k
  {
    if k + 1 < |names| {
      assert names[..|names| - 1][..k + 1] == names[..k + 1];
      ReadSegmentsStop(files, names[..|names| - 1], k, unreadable);
    } else {
      assert names[..k + 1] == names;
    }
  }

  /** The recovery reader: its stream and whether the stream has been closed. */
  class Reader {
    var stream: seq<Batch>
    var closed: bool

    /** `NewReader`: an open stream with nothing sent on it. */
    constructor ()
      ensures stream == [] && !closed
    {
      stream := [];
      closed := false;
    }

    /**
     * `Read`: `listing` is the result of `os.ReadDir` (None when it fails),
     * `unreadable` the names `os.ReadFile` fails on. Closing a closed channel
     * panics, so a reader reads once.
     */
    method Read(fs: FileSystem, listing: Option<seq<string>>, unreadable: set<string>) returns (err: Option<ReadError>)
      requires !closed
      modifies this
      ensures closed
      ensures stream == old(stream) + ReadOutcome(fs.files, listing, unreadable).batches
      ensures err == ReadOutcome(fs.files, listing, unreadable).error
    {
      if listing.None? {
        closed := true;
        return Some(CantReadWalDirectory);
      }
      var segments := WalSegments(listing.value);
      segments := SortStrings(segments);
      err := SendSegments(fs.files, segments, unreadable);
      closed := true;
    }

    /** The loop over the sorted segments: each one is read and sent, and the first failure ends it. */
    method SendSegments(files: Directory, segments: seq<string>, unreadable: set<string>) returns (err: Option<ReadError>)
      modifies this
      ensures stream == old(stream) + ReadSegments(files, segments, unreadable).batches
      ensures err == ReadSegments(files, segments, unreadable).error
      ensures closed == old(closed)
    {
      var start := stream;
      var k := 0;
      while k < |segments|
        invariant 0 <= k <= |segments|
        invariant ReadSegments(files, segments[..k], unreadable).error == None
        invariant stream == start + ReadSegments(files, segments[..k], unreadable).batches
        invariant closed == old(closed)
      {
        ghost var sent := ReadSegments(files, segments[..k], unreadable).batches;
        ReadSegmentsNext(files, segments, k, unreadable);
        err := SendSegment(files, segments[k], unreadable);
        assert stream == start + (sent + SegmentRead(files, segments[k], unreadable).batches);
        if err.Some? {
          ReadSegmentsStop(files, segments, k, unreadable);
          return;
        }
        k := k + 1;
      }
      assert segments[..k] == segments;
      return None;
    }

    /** One segment: read the file, then send its batches in file order until the bytes run out. */
    method SendSegment(files: Directory, name: string, unreadable: set<string>) returns (err: Option<ReadError>)
      modifies this
      ensures stream == old(stream) + SegmentRead(files, name, unreadable).batches
      ensures err == SegmentRead(files, name, unreadable).error
      ensures closed == old(closed)
    {
      if name !in files || name in unreadable {
        return Some(CantOpenSegment(name));
      }
      var frames := files[name];
      DecodedPrefixFacts(frames);
      var j := 0;
      while j < |frames|
        invariant 0 <= j <= |frames|
        invariant j <= |DecodedPrefix(frames)|
        invariant stream == old(stream) + DecodedPrefix(frames)[..j]
        invariant closed == old(closed)
      {
        if frames[j].Corrupt? {
          assert DecodedPrefix(frames)[..j] == DecodedPrefix(frames);
          return Some(CantParseSegment(name));
        }
        assert DecodedPrefix(frames)[..j + 1] == DecodedPrefix(frames)[..j] + [frames[j].batch];
        stream := stream + [frames[j].batch];
        j := j + 1;
      }
      assert DecodedPrefix(frames)[..j] == DecodedPrefix(frames);
      return None;
    }
  }

  /** The names of a listing that look like segments, in listing order. */
  method WalSegments(entries: seq<string>) returns (segments: seq<string>)
    ensures segments == Filter(entries, IsWalName)
  {
    segments := [];
    var i := 0;
    while i < |entries|
      invariant 0 <= i <= |entries|
      invariant Filter(entries, IsWalName) == segments + Filter(entries[i..], IsWalName)
    {
      assert entries[i..][0] == entries[i] && entries[i..][1..] == entries[i + 1..];
      if HasPrefix(entries[i], "wal-") && HasSuffix(entries[i], ".gob") {
        segments := segments + [entries[i]];
      }
      i := i + 1;
    }
  }
}

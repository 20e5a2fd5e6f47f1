/**
 * WAL compaction: on each tick, the two oldest segments are replayed into a
 * scratch table, its live keys are written as SET units to a temporary file,
 * the two sources are removed, and the temporary file takes the oldest name.
 */
module WalCompaction {
  import opened Wrappers
  import opened Text
  import opened ComputeQuery
  import opened WalUnit
  import opened WalReplay
  import opened WalDisk
  import opened WalReader

  /** The errors a compaction run returns, one per failing step. */
  datatype CompactionError =
    | CantReadWalDirectory
    | CantReadUnits(cause: ReadError)
    | CantOpenFile
    | CantEncodeData
    | CantWriteData
    | CantSyncFile
    | CantRemoveSegment(name: string)
    | CantRenameFile

  /**
   * What the calls of one compaction return: the clock for the temporary
   * name, the names `os.ReadFile` fails on, whether opening, encoding,
   * writing, syncing and renaming succeed, the names `os.Remove` fails on,
   * and the byte count of the encoded snapshot.
   */
  datatype CompactIo = CompactIo(
    now: int, unreadable: set<string>,
    openOk: bool, encodeOk: bool, writeOk: bool, syncOk: bool,
    removeFails: set<string>, renameOk: bool, size: nat)

  /** The name the snapshot is written under before it takes the oldest name. */
  function TempName(now: int): (r: string)
    ensures !IsWalName(r)
  {
    assert ("compacted-" + FormatInt(now) + ".gob")[..4] == "comp";
    "compacted-" + FormatInt(now) + ".gob"
  }

  /** The segments `run` hands to `compact`: the two smallest WAL names, or none when there are fewer than two. */
  function SegmentsToCompact(listing: seq<string>): (r: seq<string>)
  {
    var segments := SegmentsToRead(listing);
    if |segments| > 1 then segments[..2] else []
  }

  /**
   * On a listing of the directory, compaction takes exactly the two oldest
   * segments in replay order, and nothing when there are fewer than two.
   */
  lemma CompactsTwoOldest(listing: seq<string>, files: Directory)
    requires IsListing(listing, files)
    ensures var w := WalOrder(files);
      SegmentsToCompact(listing) == if |w| > 1 then w[..2] else []
    ensures |SegmentsToCompact(listing)| == 2 ==>
      var s := SegmentsToCompact(listing);
      && s[0] in files && s[1] in files && Less(s[0], s[1])
      && forall n :: n in files && IsWalName(n) && n != s[0] && n != s[1] ==> Less(s[1], n)
  {
    WalOrderOfListing(listing, files);
    if |WalOrder(files)| > 1 {
      TwoOldest(files);
    }
  }

  /** The first two names of the replay order sort below every other WAL name. */
  lemma TwoOldest(files: Directory)
    requires |WalOrder(files)| > 1
    ensures var w := WalOrder(files);
      && w[0] in files && w[1] in files && Less(w[0], w[1])
      && forall n :: n in files && IsWalName(n) && n != w[0] && n != w[1] ==> Less(w[1], n)
  {
    var w := WalOrder(files);
    WalOrderSorted(files);
    SortedDistinctStrict(w, 0, 1);
    forall n | n in files && IsWalName(n) && n != w[0] && n != w[1] ensures Less(w[1], n) {
      var j :| 0 <= j < |w| && w[j] == n;
      SortedDistinctStrict(w, 1, j);
    }
  }

  /** The key a unit writes (its first argument). */
  function Key(u: Unit): string
  {
    if |u.arguments| > 0 then u.arguments[0] else ""
  }

  /** The keys the units write. */
  function KeysOf(units: Batch): set<string>
  {
    if units == [] then {} else KeysOf(units[..|units| - 1]) + {Key(units[|units| - 1])}
  }

  /** `u` is `SET k v` for a key `k` of the table holding `v`. */
  predicate IsSetOf(u: Unit, t: Table)
  {
    u.command == SetCommand && |u.arguments| == 2 && u.arguments[0] in t && u.arguments[1] == t[u.arguments[0]]
  }

  /**
   * The units `readUnits` returns for a table: one SET per live key, with
   * its value, in any order, and nothing else.
   */
  predicate IsSnapshotOf(units: Batch, t: Table)
  {
    && (forall i :: 0 <= i < |units| ==> IsSetOf(units[i], t))
    && (forall i, j :: 0 <= i < j < |units| ==> Key(units[i]) != Key(units[j]))
    && (forall k :: k in t ==> k in KeysOf(units))
  }

  lemma KeysOfSnoc(units: Batch, u: Unit)
    ensures KeysOf(units + [u]) == KeysOf(units) + {Key(u)}
  {
    assert (units + [u])[..|units|] == units;
  }

  /** Replaying SET units of a table over `m` sets their keys to the table's values. */
  lemma {:induction false} ReplaySets(m: Table, us: Batch, t: Table)
    requires forall i :: 0 <= i < |us| ==> IsSetOf(us[i], t)
    ensures BatchWellFormed(us)
    ensures KeysOf(us) <= t.Keys
    ensures ApplyUnits(m, us) == m + map k | k in KeysOf(us) :: t[k]
    decreases |us|
  {
    if us != [] {
      var front := us[..|us| - 1];
      var u := us[|us| - 1];
      assert us == front + [u];
      ReplaySets(m, front, t);
      KeysOfSnoc(front, u);
      var a := map k | k in KeysOf(front) :: t[k];
      RestrictAdd(t, KeysOf(front), Key(u));
      assert ApplyUnits(m, us) == ApplyUnit(m + a, u);
      assert ApplyUnit(m + a, u) == (m + a)[Key(u) := t[Key(u)]];
    }
  }

  /** Restricting a table to one more of its keys adds that key's entry. */
  lemma RestrictAdd(t: Table, ks: set<string>, k: string)
    requires ks <= t.Keys && k in t
    ensures (map x | x in ks + {k} :: t[x]) == (map x | x in ks :: t[x])[k := t[k]]
  {
  }

  /** A snapshot replayed over an empty table gives the table back. */
  lemma SnapshotReplays(units: Batch, t: Table)
    requires IsSnapshotOf(units, t)
    ensures BatchWellFormed(units)
    ensures ApplyUnits(map[], units) == t
  {
    ReplaySets(map[], units, t);
    assert KeysOf(units) == t.Keys;
  }

  /** A snapshot holds exactly one unit per key of the table, so none of an empty table. */
  lemma SnapshotSize(units: Batch, t: Table)
    requires IsSnapshotOf(units, t)
    ensures units == [] <==> t == map[]
  {
    if units != [] {
      assert units[0].arguments[0] in t;
    }
    if t != map[] {
      var k :| k in t;
      assert k in KeysOf(units);
    }
  }

  /** Replaying a batch into a scratch table, unit by unit. */
  method ReplayBatch(table: Table, units: Batch) returns (t: Table)
    requires BatchWellFormed(units)
    ensures t == ApplyUnits(table, units)
  {
    t := table;
    var i := 0;
    while i < |units|
      invariant 0 <= i <= |units|
      invariant t == ApplyUnits(table, units[..i])
    {
      assert units[..i + 1][..i] == units[..i];
      var unit := units[i];
      if unit.command == SetCommand {
        t := t[unit.arguments[0] := unit.arguments[1]];
      } else if unit.command == DelCommand {
        t := t - {unit.arguments[0]};
      }
      i := i + 1;
    }
    assert units[..i] == units;
  }

  /** The batches a well-formed file decodes to are well formed. */
  lemma DecodedWellFormed(frames: Segment)
    requires SegmentWellFormed(frames)
    ensures BatchesWellFormed(DecodedPrefix(frames))
  {
    DecodedPrefixFacts(frames);
  }

  /** Replaying one file's batches until the bytes run out or one fails to decode. */
  method ReplaySegment(table: Table, frames: Segment) returns (t: Table, ok: bool)
    requires SegmentWellFormed(frames)
    ensures BatchesWellFormed(DecodedPrefix(frames))
    ensures ok <==> |DecodedPrefix(frames)| == |frames|
    ensures ok ==> t == ApplyBatches(table, DecodedPrefix(frames))
  {
    DecodedPrefixFacts(frames);
    DecodedWellFormed(frames);
    ghost var bs := DecodedPrefix(frames);
    t := table;
    var j := 0;
    while j < |frames|
      invariant 0 <= j <= |frames| && j <= |bs|
      invariant BatchesWellFormed(bs[..j])
      invariant t == ApplyBatches(table, bs[..j])
    {
      if frames[j].Corrupt? {
        return t, false;
      }
      assert bs[..j + 1][..j] == bs[..j] && bs[..j + 1][j] == frames[j].batch;
      t := ReplayBatch(t, frames[j].batch);
      j := j + 1;
    }
    assert bs[..j] == bs;
    return t, true;
  }

  /** Every named file that exists holds well-formed units. */
  predicate NamedWellFormed(files: Directory, segments: seq<string>)
  {
    forall i :: 0 <= i < |segments| && segments[i] in files ==> SegmentWellFormed(files[segments[i]])
  }

  /** What a read of the named segments replays to. */
  function ReadTable(files: Directory, segments: seq<string>, unreadable: set<string>): Table
    requires NamedWellFormed(files, segments)
  {
    BatchesOfWellFormed(files, segments);
    ReadSegmentsPrefix(files, segments, unreadable);
    var r := ReadSegments(files, segments, unreadable);
    if r.error.None? then ApplyBatches(map[], r.batches) else map[]
  }

  /**
   * `readUnits`: replays the named segments in order into a scratch table
   * and returns its snapshot; the first segment that cannot be read or
   * decoded ends it with that error.
   */
  method ReadUnits(files: Directory, segments: seq<string>, unreadable: set<string>) returns (unitsData: Batch, err: Option<ReadError>)
    requires NamedWellFormed(files, segments)
    ensures err == ReadSegments(files, segments, unreadable).error
    ensures err.None? ==> IsSnapshotOf(unitsData, ReadTable(files, segments, unreadable))
  {
    var memoryTable: Table := map[];
    var k := 0;
    while k < |segments|
      invariant 0 <= k <= |segments|
      invariant ReadSegments(files, segments[..k], unreadable).error == None
      invariant BatchesWellFormed(ReadSegments(files, segments[..k], unreadable).batches)
      invariant memoryTable == ApplyBatches(map[], ReadSegments(files, segments[..k], unreadable).batches)
    {
      ghost var before := ReadSegments(files, segments[..k], unreadable).batches;
      ReadSegmentsNext(files, segments, k, unreadable);
      var segment := segments[k];
      if segment !in files || segment in unreadable {
        ReadSegmentsStop(files, segments, k, unreadable);
        return [], Some(CantOpenSegment(segment));
      }
      var t, ok := ReplaySegment(memoryTable, files[segment]);
      if !ok {
        ReadSegmentsStop(files, segments, k, unreadable);
        return [], Some(CantParseSegment(segment));
      }
      ApplyBatchesAppend(map[], before, DecodedPrefix(files[segment]));
      memoryTable := t;
      k := k + 1;
    }
    assert segments[..k] == segments;
    unitsData := Snapshot(memoryTable);
    return unitsData, None;
  }

  /** The loop over the scratch table: one SET per key, in the map's (unspecified) order. */
  method Snapshot(table: Table) returns (units: Batch)
    ensures IsSnapshotOf(units, table)
  {
    units := [];
    var remaining := table.Keys;
    while remaining != {}
      invariant remaining <= table.Keys
      invariant forall i :: 0 <= i < |units| ==> IsSetOf(units[i], table) && Key(units[i]) !in remaining
      invariant forall i, j :: 0 <= i < j < |units| ==> Key(units[i]) != Key(units[j])
      invariant KeysOf(units) == table.Keys - remaining
      decreases remaining
    {
      var key :| key in remaining;
      var u := NewUnit(SetCommand, [key, table[key]]);
      assert Key(u) == key;
      KeysOfSnoc(units, u);
      units := units + [u];
      remaining := remaining - {key};
    }
  }

  /** `os.Remove` of each segment in order; the first failure (or a missing file) stops it. */
  function RemoveSegments(files: Directory, segments: seq<string>, removeFails: set<string>): (Directory, Option<CompactionError>)
  {
    if segments == [] then (files, None)
    else if segments[0] !in files || segments[0] in removeFails then (files, Some(CantRemoveSegment(segments[0])))
    else RemoveSegments(files - {segments[0]}, segments[1..], removeFails)
  }

  /**
   * From opening the temporary file on: open it for appending, encode,
   * write and sync the snapshot, remove the sources, and rename the
   * temporary file to the first source.
   */
  function WriteSnapshot(files: Directory, segments: seq<string>, units: Batch, io: CompactIo): (Directory, Option<CompactionError>)
    requires segments != []
  {
    var tmp := TempName(io.now);
    if !io.openOk then (files, Some(CantOpenFile))
    else
      var created := OpenForAppend(files, tmp);
      if !io.encodeOk then (created, Some(CompactionError.CantEncodeData))
      else if !io.writeOk then (created, Some(CompactionError.CantWriteData))
      else
        var written := created[tmp := created[tmp] + [Encoded(units, io.size)]];
        if !io.syncOk then (written, Some(CantSyncFile))
        else
          var (removed, err) := RemoveSegments(written, segments, io.removeFails);
          if err.Some? then (removed, err)
          else if !io.renameOk || tmp !in removed then (removed, Some(CantRenameFile))
          else ((removed - {tmp})[segments[0] := removed[tmp]], None)
  }

  /**
   * `compact`: what it does to the directory and returns, given the snapshot
   * `units` its read produced. Nothing to compact, a failed read, or an
   * empty snapshot leave the directory alone.
   */
  function CompactOutcome(files: Directory, segments: seq<string>, units: Batch, io: CompactIo): (Directory, Option<CompactionError>)
  {
    if segments == [] then (files, None)
    else if ReadSegments(files, segments, io.unreadable).error.Some? then
      (files, Some(CantReadUnits(ReadSegments(files, segments, io.unreadable).error.value)))
    else if units == [] then (files, None)
    else WriteSnapshot(files, segments, units, io)
  }

  /** `compact`; `written` is the snapshot the read produced, whose order the map iteration chose. */
  method Compact(fs: FileSystem, segments: seq<string>, io: CompactIo) returns (err: Option<CompactionError>, ghost written: Batch)
    requires NamedWellFormed(fs.files, segments)
    modifies fs
    ensures segments != [] && ReadSegments(old(fs.files), segments, io.unreadable).error.None? ==>
      IsSnapshotOf(written, ReadTable(old(fs.files), segments, io.unreadable))
    ensures (fs.files, err) == CompactOutcome(old(fs.files), segments, written, io)
  {
    written := [];
    if |segments| == 0 {
      return None, written;
    }
    var unitsData, readErr := ReadUnits(fs.files, segments, io.unreadable);
    written := unitsData;
    if readErr.Some? {
      return Some(CantReadUnits(readErr.value)), written;
    }
    if |unitsData| == 0 {
      return None, written;
    }

    var compactedFilename := TempName(io.now);
    if !io.openOk {
      return Some(CantOpenFile), written;
    }
    fs.files := OpenForAppend(fs.files, compactedFilename);
    if !io.encodeOk {
      return Some(CompactionError.CantEncodeData), written;
    }
    if !io.writeOk {
      return Some(CompactionError.CantWriteData), written;
    }
    fs.files := fs.files[compactedFilename := fs.files[compactedFilename] + [Encoded(unitsData, io.size)]];
    if !io.syncOk {
      return Some(CantSyncFile), written;
    }

    ghost var synced := fs.files;
    var i := 0;
    while i < |segments|
      invariant 0 <= i <= |segments|
      invariant RemoveSegments(synced, segments, io.removeFails) == RemoveSegments(fs.files, segments[i..], io.removeFails)
    {
      assert segments[i..][0] == segments[i] && segments[i..][1..] == segments[i + 1..];
      if segments[i] !in fs.files || segments[i] in io.removeFails {
        return Some(CantRemoveSegment(segments[i])), written;
      }
      fs.files := fs.files - {segments[i]};
      i := i + 1;
    }

    if !io.renameOk || compactedFilename !in fs.files {
      return Some(CantRenameFile), written;
    }
    fs.files := (fs.files - {compactedFilename})[segments[0] := fs.files[compactedFilename]];
    return None, written;
  }

  /** What `Compact` promises of its snapshot, as a premise for the lemmas below. */
  predicate SnapshotFor(files: Directory, segments: seq<string>, units: Batch, unreadable: set<string>)
    requires NamedWellFormed(files, segments)
  {
    ReadSegments(files, segments, unreadable).error.None? ==> IsSnapshotOf(units, ReadTable(files, segments, unreadable))
  }

  /** An intact directory's WAL files are well formed. */
  lemma IntactNamed(files: Directory, k: nat)
    requires Intact(files) && k <= |WalOrder(files)|
    ensures NamedWellFormed(files, WalOrder(files)[..k])
  {
    WalOrderInFiles(files);
  }

  /**
   * `g` is `files` with `drop` gone and `keep` holding `seg`, as far as WAL
   * files go.
   */
  ghost predicate MergedInto(files: Directory, g: Directory, keep: string, drop: string, seg: Segment)
  {
    && keep in g && g[keep] == seg
    && forall n :: IsWalName(n) ==>
      && (n in g <==> n in files && n != drop)
      && (n in g && n != keep ==> g[n] == files[n])
  }

  lemma MergedOrder(files: Directory, g: Directory, seg: Segment)
    requires |WalOrder(files)| > 1
    requires MergedInto(files, g, WalOrder(files)[0], WalOrder(files)[1], seg)
    ensures WalOrder(g) == [WalOrder(files)[0]] + WalOrder(files)[2..]
  {
    var w := WalOrder(files);
    WalOrderSorted(files);
    SortedDropSecond(w);
    WalOrderFromMembers(g, [w[0]] + w[2..]);
  }

  lemma MergedIntact(files: Directory, g: Directory, units: Batch, size: nat)
    requires Intact(files) && |WalOrder(files)| > 1 && BatchWellFormed(units)
    requires MergedInto(files, g, WalOrder(files)[0], WalOrder(files)[1], [Encoded(units, size)])
    ensures Intact(g)
  {
    assert DecodedPrefix([Encoded(units, size)]) == [units];
  }

  lemma MergedBatches(files: Directory, g: Directory, units: Batch, size: nat)
    requires |WalOrder(files)| > 1
    requires MergedInto(files, g, WalOrder(files)[0], WalOrder(files)[1], [Encoded(units, size)])
    ensures var w := WalOrder(files);
      BatchesOf(g, [w[0]] + w[2..]) == [units] + BatchesOf(files, w[2..])
  {
    var w := WalOrder(files);
    var rest := w[2..];
    BatchesOfAppend(g, [w[0]], rest);
    assert BatchesOf(g, [w[0]]) == [units] by {
      assert [w[0]][..0] == [];
      assert DecodedPrefix([Encoded(units, size)]) == [units];
    }
    MergedRest(files, g, [Encoded(units, size)]);
  }

  /** The files after the two oldest are untouched by a merge. */
  lemma MergedRest(files: Directory, g: Directory, seg: Segment)
    requires |WalOrder(files)| > 1
    requires MergedInto(files, g, WalOrder(files)[0], WalOrder(files)[1], seg)
    ensures BatchesOf(g, WalOrder(files)[2..]) == BatchesOf(files, WalOrder(files)[2..])
  {
    var w := WalOrder(files);
    var rest := w[2..];
    WalOrderSorted(files);
    forall i | 0 <= i < |rest|
      ensures FileBatches(g, rest[i]) == FileBatches(files, rest[i])
    {
      assert rest[i] == w[i + 2] && rest[i] in w;
    }
    BatchesOfSameFiles(g, files, rest);
  }

  /** Replaying the snapshot and then the rest is replaying the whole directory. */
  lemma ReplayInTwoParts(files: Directory, units: Batch)
    requires Intact(files) && |WalOrder(files)| > 1 && BatchWellFormed(units)
    requires BatchesWellFormed(BatchesOf(files, WalOrder(files)[..2]))
    requires ApplyUnits(map[], units) == ApplyBatches(map[], BatchesOf(files, WalOrder(files)[..2]))
    ensures var rest := WalOrder(files)[2..];
      && BatchesWellFormed([units] + BatchesOf(files, rest))
      && Replay(files) == ApplyBatches(map[], [units] + BatchesOf(files, rest))
  {
    var w := WalOrder(files);
    var rest := w[2..];
    assert BatchesOf(files, w) == BatchesOf(files, w[..2]) + BatchesOf(files, rest) by {
      assert w == w[..2] + rest;
      BatchesOfAppend(files, w[..2], rest);
    }
    WalOrderInFiles(files);
    BatchesOfWellFormed(files, rest);
    ApplyBatchesAppend(map[], BatchesOf(files, w[..2]), BatchesOf(files, rest));
    ApplyBatchesAppend(map[], [units], BatchesOf(files, rest));
    assert ApplyBatches(map[], [units]) == ApplyUnits(map[], units) by {
      assert [units][..0] == [];
    }
    ReplayUnfold(files);
  }

  /**
   * The directory after a merge: the second oldest file is gone and the
   * oldest holds the snapshot. When the snapshot replays to the two oldest
   * files' batches, the directory replays to the same table as before.
   */
  lemma ReplayMerged(files: Directory, g: Directory, units: Batch, size: nat)
    requires Intact(files) && |WalOrder(files)| > 1 && BatchWellFormed(units)
    requires BatchesWellFormed(BatchesOf(files, WalOrder(files)[..2]))
    requires ApplyUnits(map[], units) == ApplyBatches(map[], BatchesOf(files, WalOrder(files)[..2]))
    requires MergedInto(files, g, WalOrder(files)[0], WalOrder(files)[1], [Encoded(units, size)])
    ensures Intact(g)
    ensures WalOrder(g) == [WalOrder(files)[0]] + WalOrder(files)[2..]
    ensures Replay(g) == Replay(files)
  {
    MergedOrder(files, g, [Encoded(units, size)]);
    MergedIntact(files, g, units, size);
    MergedBatches(files, g, units, size);
    ReplayInTwoParts(files, units);
    ReplayUnfold(g);
  }

  /** The directory just before the sources are removed: the snapshot sits in the temporary file. */
  function Staged(files: Directory, units: Batch, io: CompactIo): Directory
  {
    files[TempName(io.now) := [Encoded(units, io.size)]]
  }

  /** The directory after a complete run: the sources and the temporary file are gone, the snapshot holds the first name. */
  function Merged(files: Directory, a: string, b: string, units: Batch, io: CompactIo): Directory
  {
    (Staged(files, units, io) - {a, b, TempName(io.now)})[a := [Encoded(units, io.size)]]
  }

  /** A complete run merges the second source into the first, as far as WAL files go. */
  lemma MergedIsMerge(files: Directory, a: string, b: string, units: Batch, io: CompactIo)
    requires a != b && a in files
    ensures MergedInto(files, Merged(files, a, b, units, io), a, b, [Encoded(units, io.size)])
  {
    assert !IsWalName(TempName(io.now));
  }

  /** Removing two distinct files in order. */
  lemma RemoveTwo(f: Directory, a: string, b: string, fails: set<string>)
    requires a != b
    ensures RemoveSegments(f, [a, b], fails) ==
      if a !in f || a in fails then (f, Some(CantRemoveSegment(a)))
      else if b !in f || b in fails then (f - {a}, Some(CantRemoveSegment(b)))
      else (f - {a} - {b}, None)
  {
    assert [a, b][0] == a && [a, b][1..] == [b] && [b][1..] == [];
    if a !in f || a in fails {
    } else {
      assert RemoveSegments(f, [a, b], fails) == RemoveSegments(f - {a}, [b], fails);
      if b !in f || b in fails {
      } else {
        assert RemoveSegments(f - {a}, [b], fails) == RemoveSegments(f - {a} - {b}, [], fails);
      }
    }
  }

  /** Where writing the snapshot leaves the directory, step by step, when the temporary name is new. */
  lemma SnapshotSteps(files: Directory, a: string, b: string, units: Batch, io: CompactIo)
    requires a != b && a in files && b in files && TempName(io.now) !in files
    ensures var staged := Staged(files, units, io);
      var (g, err) := WriteSnapshot(files, [a, b], units, io);
      && (err == None ==> g == Merged(files, a, b, units, io))
      && (err == Some(CantRemoveSegment(b)) ==> g == staged - {a})
      && (err == Some(CantRenameFile) ==> g == staged - {a, b})
      && (err.Some? && err != Some(CantRemoveSegment(b)) && err != Some(CantRenameFile) ==>
            g == files || g == files[TempName(io.now) := []] || g == staged)
  {
    var tmp := TempName(io.now);
    var staged := Staged(files, units, io);
    assert OpenForAppend(files, tmp) == files[tmp := []];
    assert [] + [Encoded(units, io.size)] == [Encoded(units, io.size)];
    assert files[tmp := []][tmp := [Encoded(units, io.size)]] == staged;
    RemoveTwo(staged, a, b, io.removeFails);
    assert staged - {a} - {b} == staged - {a, b};
    assert staged - {a, b} - {tmp} == staged - {a, b, tmp};
  }

  /**
   * Where each run of `compact` on the two oldest segments leaves the
   * directory, when the temporary name is new.
   */
  lemma CompactSteps(files: Directory, units: Batch, io: CompactIo)
    requires |WalOrder(files)| > 1 && TempName(io.now) !in files
    ensures var w := WalOrder(files); var tmp := TempName(io.now);
      var (g, err) := CompactOutcome(files, w[..2], units, io);
      && (err == None ==> g == files || g == Merged(files, w[0], w[1], units, io))
      && (err == Some(CantRemoveSegment(w[1])) ==> g == Staged(files, units, io) - {w[0]})
      && (err == Some(CantRenameFile) ==> g == Staged(files, units, io) - {w[0], w[1]})
      && (err.Some? && err != Some(CantRemoveSegment(w[1])) && err != Some(CantRenameFile) ==>
            g == files || g == files[tmp := []] || g == Staged(files, units, io))
  {
    var w := WalOrder(files);
    WalOrderInFiles(files);
    WalOrderSorted(files);
    assert w[..2] == [w[0], w[1]];
    if ReadSegments(files, w[..2], io.unreadable).error.None? && units != [] {
      SnapshotSteps(files, w[0], w[1], units, io);
    }
  }

  /**
   * The strong property of compaction: merging the two oldest segments
   * into the oldest name changes nothing recovery replays. The directory
   * stays intact and, when a snapshot was written, the second oldest name
   * is gone from the replay order.
   */
  lemma CompactKeepsReplay(files: Directory, units: Batch, io: CompactIo)
    requires Intact(files) && |WalOrder(files)| > 1 && TempName(io.now) !in files
    requires NamedWellFormed(files, WalOrder(files)[..2])
    requires SnapshotFor(files, WalOrder(files)[..2], units, io.unreadable)
    ensures var w := WalOrder(files);
      var (g, err) := CompactOutcome(files, w[..2], units, io);
      err == None ==>
        && Intact(g) && Replay(g) == Replay(files)
        && (g != files ==> WalOrder(g) == [w[0]] + w[2..])
  {
    var w := WalOrder(files);
    var s := w[..2];
    var (g, err) := CompactOutcome(files, s, units, io);
    CompactSteps(files, units, io);
    if err == None && g != files {
      var t := ReadTable(files, s, io.unreadable);
      BatchesOfWellFormed(files, s);
      ReadSegmentsPrefix(files, s, io.unreadable);
      SnapshotReplays(units, t);
      WalOrderInFiles(files);
      WalOrderSorted(files);
      assert w[0] != w[1];
      MergedIsMerge(files, w[0], w[1], units, io);
      ReplayMerged(files, g, units, io.size);
    } else if err == None {
      ReplayWithout(files, 0, g);
      ReplayUnfold(files);
      assert w[0..] == w;
    }
  }

  /**
   * A compaction that fails before the first source is removed, or while
   * removing it, leaves the WAL files as they were: the table recovery
   * rebuilds is unchanged (a temporary file may be left behind).
   */
  lemma CompactFailureKeepsReplay(files: Directory, units: Batch, io: CompactIo)
    requires Intact(files) && |WalOrder(files)| > 1 && TempName(io.now) !in files
    ensures var w := WalOrder(files);
      var (g, err) := CompactOutcome(files, w[..2], units, io);
      err.Some? && err != Some(CantRemoveSegment(w[1])) && err != Some(CantRenameFile) ==>
        Intact(g) && Replay(g) == Replay(files)
  {
    var w := WalOrder(files);
    var (g, err) := CompactOutcome(files, w[..2], units, io);
    CompactSteps(files, units, io);
    if err.Some? && err != Some(CantRemoveSegment(w[1])) && err != Some(CantRenameFile) {
      ReplayWithout(files, 0, g);
      ReplayUnfold(files);
      assert w[0..] == w;
    }
  }

  /**
   * When removing the second source fails, the oldest segment is already
   * gone and the snapshot sits under a name recovery does not read: the
   * directory replays without the oldest segment's batches.
   */
  lemma CompactRemoveFailureLosesOldest(files: Directory, units: Batch, io: CompactIo)
    requires Intact(files) && |WalOrder(files)| > 1 && TempName(io.now) !in files
    ensures var w := WalOrder(files);
      var (g, err) := CompactOutcome(files, w[..2], units, io);
      err == Some(CantRemoveSegment(w[1])) ==>
        && Intact(g) && WalOrder(g) == w[1..]
        && BatchesWellFormed(BatchesOf(files, w[1..]))
        && Replay(g) == ApplyBatches(map[], BatchesOf(files, w[1..]))
  {
    var w := WalOrder(files);
    var (g, err) := CompactOutcome(files, w[..2], units, io);
    CompactSteps(files, units, io);
    if err == Some(CantRemoveSegment(w[1])) {
      assert w[..1] == [w[0]];
      ReplayWithout(files, 1, g);
    }
  }

  /**
   * When the rename fails, both sources are gone and the snapshot sits under
   * a name recovery does not read: the directory replays without the two
   * oldest segments' batches.
   */
  lemma CompactRenameFailureLosesBoth(files: Directory, units: Batch, io: CompactIo)
    requires Intact(files) && |WalOrder(files)| > 1 && TempName(io.now) !in files
    ensures var w := WalOrder(files);
      var (g, err) := CompactOutcome(files, w[..2], units, io);
      err == Some(CantRenameFile) ==>
        && Intact(g) && WalOrder(g) == w[2..]
        && BatchesWellFormed(BatchesOf(files, w[2..]))
        && Replay(g) == ApplyBatches(map[], BatchesOf(files, w[2..]))
  {
    var w := WalOrder(files);
    var (g, err) := CompactOutcome(files, w[..2], units, io);
    CompactSteps(files, units, io);
    if err == Some(CantRenameFile) {
      assert forall n :: n in w[..2] <==> n == w[0] || n == w[1];
      ReplayWithout(files, 2, g);
    }
  }

  /**
   * Compaction does not know which segment the writer holds open: with
   * exactly two segments it merges the newest one, the writer's, into the
   * oldest and removes it, so whatever the writer appends afterwards lands
   * in a file recovery never reads.
   */
  lemma CompactRemovesOpenSegment(files: Directory, units: Batch, io: CompactIo, open: string, b: Batch, size: nat)
    requires |WalOrder(files)| == 2 && TempName(io.now) !in files && IsNewest(files, open)
    ensures var (g, err) := CompactOutcome(files, WalOrder(files)[..2], units, io);
      err == None && g != files ==> open !in g && AppendThrough(g, open, b, size) == g
  {
    var w := WalOrder(files);
    CompactSteps(files, units, io);
    NewestIsLast(files, open);
    WalOrderInFiles(files);
    WalOrderSorted(files);
    assert w[0] != w[1];
  }

  /**
   * A run over a listing of the directory keeps what recovery replays,
   * whichever snapshot order the read produced, when it succeeds.
   */
  lemma RunKeepsReplay(files: Directory, listing: seq<string>, units: Batch, io: CompactIo)
    requires IsListing(listing, files) && Intact(files) && TempName(io.now) !in files
    requires NamedWellFormed(files, SegmentsToCompact(listing))
    requires SnapshotFor(files, SegmentsToCompact(listing), units, io.unreadable)
    ensures var (g, err) := CompactOutcome(files, SegmentsToCompact(listing), units, io);
      err == None ==> Intact(g) && Replay(g) == Replay(files)
  {
    CompactsTwoOldest(listing, files);
    if |WalOrder(files)| > 1 {
      CompactKeepsReplay(files, units, io);
    }
  }

  /** The compaction loop's state: whether a run is under way. */
  class Compaction {
    var isProcessing: bool

    constructor ()
      ensures !isProcessing
    {
      isProcessing := false;
    }

    /**
     * `run`: list the directory, keep the WAL names, and when there are at
     * least two, compact the two smallest. The flag is set for the run and
     * cleared on every way out.
     */
    method Run(fs: FileSystem, listing: Option<seq<string>>, io: CompactIo) returns (err: Option<CompactionError>, ghost written: Batch)
      requires listing.Some? ==> NamedWellFormed(fs.files, SegmentsToCompact(listing.value))
      modifies this, fs
      ensures !isProcessing
      ensures listing.None? ==> err == Some(CompactionError.CantReadWalDirectory) && fs.files == old(fs.files)
      ensures listing.Some? ==>
        && SnapshotFor(old(fs.files), SegmentsToCompact(listing.value), written, io.unreadable)
        && (fs.files, err) == CompactOutcome(old(fs.files), SegmentsToCompact(listing.value), written, io)
    {
      isProcessing := true;
      written := [];
      if listing.None? {
        isProcessing := false;
        return Some(CompactionError.CantReadWalDirectory), written;
      }
      var segments := WalSegments(listing.value);
      if |segments| > 1 {
        assert |multiset(SortStrings(segments))| == |multiset(segments)|;
        segments := SortStrings(segments);
        err, written := Compact(fs, segments[..2], io);
      } else {
        err := None;
      }
      isProcessing := false;
    }

    /** One tick of `Start`: skipped while a run is under way, otherwise a run. */
    method Tick(fs: FileSystem, listing: Option<seq<string>>, io: CompactIo) returns (ran: bool, err: Option<CompactionError>, ghost written: Batch)
      requires listing.Some? ==> NamedWellFormed(fs.files, SegmentsToCompact(listing.value))
      modifies this, fs
      ensures ran == !old(isProcessing)
      ensures !ran ==> err == None && fs.files == old(fs.files) && isProcessing
      ensures ran ==> !isProcessing
      ensures ran && listing.None? ==> err == Some(CompactionError.CantReadWalDirectory) && fs.files == old(fs.files)
      ensures ran && listing.Some? ==>
        && SnapshotFor(old(fs.files), SegmentsToCompact(listing.value), written, io.unreadable)
        && (fs.files, err) == CompactOutcome(old(fs.files), SegmentsToCompact(listing.value), written, io)
    {
      written := [];
      if isProcessing {
        return false, None, written;
      }
      ran := true;
      err, written := Run(fs, listing, io);
    }
  }
}

/**
 * The replication master: a replica sends the name of the last segment it
 * holds, and the master answers with the next segment's name and, when that
 * is a different file, the file's whole contents.
 */
module ReplicationMaster {
  import opened Wrappers
  import opened Text
  import opened WalUnit
  import opened WalDisk
  import opened WalSegment
  import WalCompaction

  /** The reply to a replica: a segment name and the file bytes shipped with it (none when empty). */
  datatype SegmentResponse = SegmentResponse(name: string, data: Segment)

  /**
   * `findLastSegment` over the master's WAL directory: `listing` is what
   * `os.ReadDir` returned (None when it failed) and `unreadable` the names
   * `os.ReadFile` fails on. The response always names what `GetNextSegment`
   * resolved ("" on error), and it carries data only for an existing,
   * readable file other than the one asked about, and then all of it.
   */
  function FindLastSegment(files: Directory, listing: Option<seq<string>>, lastName: string, unreadable: set<string>): (r: SegmentResponse)
    ensures GetNextSegment(listing, lastName).Err? ==> r == SegmentResponse("", [])
    ensures GetNextSegment(listing, lastName).Ok? ==> r.name == GetNextSegment(listing, lastName).value
    ensures r.name == lastName || r.name == "" ==> r.data == []
    ensures r.data != [] ==> r.name in files && r.name !in unreadable && r.data == files[r.name]
  {
    match GetNextSegment(listing, lastName)
    case Err(_) => SegmentResponse("", [])
    case Ok(segment) =>
      if segment == lastName then SegmentResponse(segment, [])
      else if segment == "" then SegmentResponse(segment, [])
      else if segment !in files || segment in unreadable then SegmentResponse(segment, [])
      else SegmentResponse(segment, files[segment])
  }

  /**
   * The handler the master serves: a request that does not decode gets no
   * reply at all; a decoded one carries the replica's last segment name
   * ("" when it has none) and gets the `findLastSegment` response.
   */
  function Handle(files: Directory, listing: Option<seq<string>>, request: Option<string>, unreadable: set<string>): (r: Option<SegmentResponse>)
    ensures r.None? <==> request.None?
    ensures r.Some? ==> r.value.name == "" || r.value.name == request.value || (listing.Some? && r.value.name in listing.value)
  {
    match request
    case None => None
    case Some(lastName) =>
      var resp := FindLastSegment(files, listing, lastName, unreadable);
      assert resp.name != "" && resp.name != lastName ==> resp.name in listing.value by {
        NextIsListed(listing, lastName);
      }
      Some(resp)
  }

  /** A resolved name other than "" and the request itself is one of the listed entries. */
  lemma NextIsListed(listing: Option<seq<string>>, lastName: string)
    ensures GetNextSegment(listing, lastName).Ok? ==>
      var next := GetNextSegment(listing, lastName).value;
      next == "" || next in listing.value
  {
    var newer := GetNewerSegmentNames(listing, lastName);
    if newer.Ok? && |newer.value| > 0 {
      var t := ParseName(lastName).value;
      NewerMembers(listing.value, t);
      assert newer.value == SortStrings(Filter(listing.value, QualifiesFor(t)));
      assert newer.value[0] in newer.value;
      if |newer.value| > 1 {
        assert newer.value[1] in newer.value;
      }
    }
  }

  /**
   * A replica that holds segment `last`, with a newer one on the master,
   * is sent the least newer segment, with the file's whole contents when it
   * can be read.
   */
  lemma ShipsSuccessor(entries: seq<string>, files: Directory, last: string, unreadable: set<string>)
    requires Distinct(entries) && OrderConsistent(entries)
    requires last in entries && last != "" && ParseName(last).Some?
    requires exists y :: y in entries && ParseName(y).Some? && Less(last, y)
    ensures var r := FindLastSegment(files, Some(entries), last, unreadable);
      && r.name in entries && Less(last, r.name)
      && (forall y :: y in entries && ParseName(y).Some? && Less(last, y) ==> LessEq(r.name, y))
      && r.data == if r.name in files && r.name !in unreadable then files[r.name] else []
  {
    NextSegmentIsSuccessor(entries, last);
    var next := GetNextSegment(Some(entries), last).value;
    LessIrreflexive(last);
    assert next != last;
    assert next != "";
  }

  /** A replica at the master's newest segment gets that name back and no data. */
  lemma CaughtUpGetsNothing(entries: seq<string>, files: Directory, last: string, unreadable: set<string>)
    requires Distinct(entries) && OrderConsistent(entries)
    requires last in entries && last != "" && ParseName(last).Some?
    requires forall y :: y in entries && ParseName(y).Some? ==> !Less(last, y)
    ensures FindLastSegment(files, Some(entries), last, unreadable) == SegmentResponse(last, [])
  {
    NextSegmentIsSuccessor(entries, last);
  }

  /**
   * A replica with no segment yet is sent the least listed segment name
   * with a non-negative timestamp (and its contents), or "" when there is none.
   */
  lemma ShipsOldestFirst(entries: seq<string>, files: Directory, unreadable: set<string>)
    requires "" !in entries
    ensures var r := FindLastSegment(files, Some(entries), "", unreadable);
      && ((forall y :: y in entries ==> !Qualifies(y, 0)) ==> r == SegmentResponse("", []))
      && ((exists y :: y in entries && Qualifies(y, 0)) ==>
            && r.name in entries && Qualifies(r.name, 0)
            && (forall y :: y in entries && Qualifies(y, 0) ==> LessEq(r.name, y))
            && r.data == if r.name in files && r.name !in unreadable then files[r.name] else [])
  {
    var s := SortStrings(Filter(entries, QualifiesFor(0)));
    NextFromScratch(entries);
    OldestQualifying(entries);
    if |s| > 0 {
      assert s[0] != "";
    }
  }

  /** Asked from scratch, `GetNextSegment` resolves to the first name in sorted order, or "". */
  lemma NextFromScratch(entries: seq<string>)
    ensures var s := SortStrings(Filter(entries, QualifiesFor(0)));
      GetNextSegment(Some(entries), "") == if s == [] then Ok("") else Ok(s[0])
  {
    assert ParseName("") == Some(0);
  }

  /** The first name in sorted order is the least qualifying entry; no name means none qualifies. */
  lemma OldestQualifying(entries: seq<string>)
    ensures var s := SortStrings(Filter(entries, QualifiesFor(0)));
      && (s == [] ==> forall y :: y in entries ==> !Qualifies(y, 0))
      && (s != [] ==>
            && s[0] in entries && Qualifies(s[0], 0)
            && forall y :: y in entries && Qualifies(y, 0) ==> LessEq(s[0], y))
  {
    var s := SortStrings(Filter(entries, QualifiesFor(0)));
    NewerMembers(entries, 0);
    if |s| > 0 {
      assert s[0] in s;
      forall y | y in entries && Qualifies(y, 0) ensures LessEq(s[0], y) {
        var j :| 0 <= j < |s| && s[j] == y;
      }
    }
  }

  /**
   * A segment is shipped at most once: once a replica's cursor is at or
   * past `c`, no response carries data for `c`. Whatever the master appends
   * to `c` after shipping it never reaches the replica.
   */
  lemma ShippedOnce(entries: seq<string>, files: Directory, c: string, cursor: string, unreadable: set<string>)
    requires Distinct(entries) && OrderConsistent(entries)
    requires cursor in entries && cursor != "" && ParseName(cursor).Some?
    requires LessEq(c, cursor)
    ensures var r := FindLastSegment(files, Some(entries), cursor, unreadable);
      r.data != [] ==> r.name != c
  {
    var r := FindLastSegment(files, Some(entries), cursor, unreadable);
    if exists y :: y in entries && ParseName(y).Some? && Less(cursor, y) {
      ShipsSuccessor(entries, files, cursor, unreadable);
      if c != cursor {
        LessTransitive(c, cursor, r.name);
      }
      LessIrreflexive(c);
    } else {
      CaughtUpGetsNothing(entries, files, cursor, unreadable);
    }
  }

  /**
   * Every name the master replies with is "" or a name that parses, so it is
   * ASCII and the reply always marshals: protobuf refuses a string field
   * only when it is not valid UTF-8.
   */
  lemma ReplyNameIsAscii(files: Directory, listing: Option<seq<string>>, lastName: string, unreadable: set<string>)
    ensures IsAscii(FindLastSegment(files, listing, lastName, unreadable).name)
  {
    var next := GetNextSegment(listing, lastName);
    if next.Ok? && next.value != "" {
      NextQualifies(listing, lastName);
      ParsedNameIsAscii(next.value);
    }
  }

  /** A compaction's temporary file never parses as a segment name. */
  lemma TempNameUnparsed(now: int)
    ensures ParseName(WalCompaction.TempName(now)) == None
  {
  }

  /**
   * Asking with a temporary file's name fails on its timestamp, whatever the
   * directory holds, and the master answers with an empty response.
   */
  lemma TempNameFails(files: Directory, listing: Option<seq<string>>, now: int, unreadable: set<string>)
    ensures GetNewerSegmentNames(listing, WalCompaction.TempName(now)) == Err(CantParseTimestamp)
    ensures FindLastSegment(files, listing, WalCompaction.TempName(now), unreadable) == SegmentResponse("", [])
  {
  }

  /**
   * The master never names, let alone ships, a compaction's temporary file,
   * even while it sits in the directory listing.
   */
  lemma ScratchNeverShipped(files: Directory, listing: Option<seq<string>>, lastName: string, unreadable: set<string>, now: int)
    ensures FindLastSegment(files, listing, lastName, unreadable).name != WalCompaction.TempName(now)
  {
    var next := GetNextSegment(listing, lastName);
    if next.Ok? && next.value != "" {
      NextQualifies(listing, lastName);
      TempNameUnparsed(now);
    }
  }

  /** In a consistently ordered listing, a cursor qualifies the entries after it and not the oldest. */
  lemma CursorQualifies(w: seq<string>)
    requires |w| > 3 && Sorted(w) && Distinct(w) && OrderConsistent(w)
    requires ParseName(w[0]).Some? && ParseName(w[1]).Some? && ParseName(w[2]).Some? && ParseName(w[3]).Some?
    ensures var t := ParseName(w[1]).value;
      Qualifies(w[2], t) && Qualifies(w[3], t) && !Qualifies(w[0], t)
  {
    SortedDistinctStrict(w, 0, 1);
    SortedDistinctStrict(w, 1, 2);
    SortedDistinctStrict(w, 1, 3);
    assert w[0] in w && w[1] in w && w[2] in w && w[3] in w;
  }

  /** Dropping the second entry of a listing without repeats leaves the cursor out and the next two in. */
  lemma DroppedCursorAbsent(w: seq<string>, e: seq<string>)
    requires |w| > 3 && Distinct(w) && e == [w[0]] + w[2..]
    ensures w[1] !in e && w[2] in e && w[3] in e && w[2] != w[3]
  {
    assert e[1] == w[2] && e[2] == w[3];
    forall k | 0 <= k < |e| ensures e[k] != w[1] {
      if k > 0 {
        assert e[k] == w[k + 1];
      }
    }
  }

  /** Past the oldest entry, no entry of a sorted listing sorts before the third. */
  lemma NoneBeforeThird(w: seq<string>, e: seq<string>, m: string)
    requires |w| > 2 && Sorted(w) && Distinct(w) && e == [w[0]] + w[2..]
    requires m in e && m != w[0]
    ensures !Less(m, w[2])
  {
    var k :| 0 <= k < |e| && e[k] == m;
    assert e[k] == w[k + 1];
    if k == 1 {
      LessIrreflexive(m);
    } else {
      SortedDistinctStrict(w, 2, k + 1);
      LessAsymmetric(w[2], m);
    }
  }

  /**
   * A cursor dropped from a sorted listing, between its oldest entry and the
   * rest, is answered with something other than the next entry after it.
   */
  lemma DroppedCursorSkipsNext(w: seq<string>, e: seq<string>)
    requires |w| > 3 && Sorted(w) && Distinct(w) && OrderConsistent(w)
    requires ParseName(w[0]).Some? && ParseName(w[1]).Some? && ParseName(w[2]).Some? && ParseName(w[3]).Some?
    requires e == [w[0]] + w[2..] && Distinct(e)
    ensures w[1] !in e && w[2] in e
    ensures GetNextSegment(Some(e), w[1]).Ok? && GetNextSegment(Some(e), w[1]).value != w[2]
  {
    var t := ParseName(w[1]).value;
    CursorQualifies(w);
    DroppedCursorAbsent(w, e);
    AbsentNameSkipsOne(e, w[1]);
    var next := GetNextSegment(Some(e), w[1]).value;
    if next == w[2] {
      var m :| m in e && Qualifies(m, t) && Less(m, next);
      NoneBeforeThird(w, e, m);
    }
  }

  /** Dropping the second entry of a listing without repeats keeps the rest and only the rest. */
  lemma DroppedEntry(w: seq<string>, e: seq<string>)
    requires |w| > 2 && Distinct(w) && e == [w[0]] + w[2..]
    ensures w[0] in e && w[1] !in e && w[2] in e
    ensures forall x :: x in e ==> x in w
  {
    assert e[1] == w[2];
    forall k | 0 <= k < |e| ensures e[k] != w[1] && e[k] in w {
      if k > 0 {
        assert e[k] == w[k + 1];
      }
    }
  }

  /** Order consistency carries over to any listing made of the same entries. */
  lemma ConsistentSubset(w: seq<string>, e: seq<string>)
    requires OrderConsistent(w)
    requires forall x :: x in e ==> x in w
    ensures OrderConsistent(e)
  {
  }

  /**
   * An oldest cursor that stays listed while the second entry is dropped is
   * answered with the third: the dropped entry is never asked for.
   */
  lemma KeptCursorSkipsDropped(w: seq<string>, e: seq<string>)
    requires |w| > 2 && Sorted(w) && Distinct(w) && OrderConsistent(w)
    requires w[0] != "" && ParseName(w[0]).Some? && ParseName(w[2]).Some?
    requires e == [w[0]] + w[2..] && Distinct(e)
    ensures w[0] in e && w[1] !in e
    ensures GetNextSegment(Some(e), w[0]) == Ok(w[2])
  {
    DroppedEntry(w, e);
    ConsistentSubset(w, e);
    SortedDistinctStrict(w, 0, 2);
    NextSegmentIsSuccessor(e, w[0]);
    var next := GetNextSegment(Some(e), w[0]).value;
    assert Less(w[0], next) && LessEq(next, w[2]);
    LessIrreflexive(w[0]);
    NoneBeforeThird(w, e, next);
  }

  /**
   * Compaction hides the second-oldest segment from a replica whose cursor is
   * the oldest: after a merge that name is gone, its writes live only in the
   * oldest segment the replica already holds, and the next answer is the
   * third-oldest.
   */
  lemma CompactionHidesMerged(files: Directory, units: Batch, io: WalCompaction.CompactIo)
    requires Intact(files) && |WalOrder(files)| > 2 && WalCompaction.TempName(io.now) !in files
    requires WalCompaction.NamedWellFormed(files, WalOrder(files)[..2])
    requires WalCompaction.SnapshotFor(files, WalOrder(files)[..2], units, io.unreadable)
    requires OrderConsistent(WalOrder(files))
    requires var w := WalOrder(files); ParseName(w[0]).Some? && ParseName(w[2]).Some?
    ensures var w := WalOrder(files);
      var (g, err) := WalCompaction.CompactOutcome(files, w[..2], units, io);
      err == None && g != files ==>
        && w[0] in WalOrder(g) && w[1] !in WalOrder(g)
        && GetNextSegment(Some(WalOrder(g)), w[0]) == Ok(w[2])
  {
    var w := WalOrder(files);
    var (g, err) := WalCompaction.CompactOutcome(files, w[..2], units, io);
    if err == None && g != files {
      WalCompaction.CompactKeepsReplay(files, units, io);
      WalOrderSorted(files);
      WalOrderSorted(g);
      WalOrderInFiles(files);
      assert IsWalName(w[0]);
      KeptCursorSkipsDropped(w, WalOrder(g));
    }
  }

  /**
   * Compaction strands a replica whose cursor is the second-oldest segment.
   * A successful compaction that merged the two oldest removes that name
   * from the master's directory, and the replica's next request then skips
   * the third-oldest segment, which is still there.
   */
  lemma CompactionStrandsReplica(files: Directory, units: Batch, io: WalCompaction.CompactIo)
    requires Intact(files) && |WalOrder(files)| > 3 && WalCompaction.TempName(io.now) !in files
    requires WalCompaction.NamedWellFormed(files, WalOrder(files)[..2])
    requires WalCompaction.SnapshotFor(files, WalOrder(files)[..2], units, io.unreadable)
    requires OrderConsistent(WalOrder(files))
    requires var w := WalOrder(files);
      ParseName(w[0]).Some? && ParseName(w[1]).Some? && ParseName(w[2]).Some? && ParseName(w[3]).Some?
    ensures var w := WalOrder(files);
      var (g, err) := WalCompaction.CompactOutcome(files, w[..2], units, io);
      err == None && g != files ==>
        && w[1] !in WalOrder(g) && w[2] in WalOrder(g)
        && GetNextSegment(Some(WalOrder(g)), w[1]).Ok?
        && GetNextSegment(Some(WalOrder(g)), w[1]).value != w[2]
  {
    var w := WalOrder(files);
    var (g, err) := WalCompaction.CompactOutcome(files, w[..2], units, io);
    if err == None && g != files {
      WalCompaction.CompactKeepsReplay(files, units, io);
      WalOrderSorted(files);
      WalOrderSorted(g);
      DroppedCursorSkipsNext(w, WalOrder(g));
    }
  }
}

/**
 * The WAL directory. A file holds a sequence of frames, each one gob value
 * (a batch of units) or a stretch of bytes that does not decode. A directory
 * listing is some enumeration of the file names. The ghost functions here give
 * the meaning of a directory: its WAL files in string order, and the table
 * that replaying them produces.
 */
module WalDisk {
  import opened Wrappers
  import opened Text
  import opened WalUnit
  import opened WalReplay

  /** One gob value in a file, with its encoded size in bytes, or bytes that fail to decode. */
  datatype Frame = Encoded(batch: Batch, size: nat) | Corrupt

  type Segment = seq<Frame>
  type Directory = map<string, Segment>

  /** The WAL directory on disk, shared by the writer, the compactor, the reader and the replica. */
  class FileSystem {
    var files: Directory

    constructor (files: Directory)
      ensures this.files == files
    {
      this.files := files;
    }
  }

  /** The names the reader and the compactor treat as segments. */
  predicate IsWalName(name: string)
  {
    HasPrefix(name, "wal-") && HasSuffix(name, ".gob")
  }

  /** `os.ReadDir` succeeded with `listing`: every file exactly once, in some order. */
  ghost predicate IsListing(listing: seq<string>, files: Directory)
  {
    multiset(listing) == multiset(files.Keys)
  }

  /** The batches a decoder reads from a file before it runs out of bytes or hits a bad frame. */
  function DecodedPrefix(frames: Segment): (bs: seq<Batch>)
    ensures |bs| <= |frames|
  {
    if frames == [] then []
    else if frames[0].Corrupt? then []
    else [frames[0].batch] + DecodedPrefix(frames[1..])
  }

  /** The decoded batches are the leading good frames, and decoding stops only at a bad one. */
  lemma {:induction false} DecodedPrefixFacts(frames: Segment)
    ensures forall j :: 0 <= j < |DecodedPrefix(frames)| ==>
      frames[j].Encoded? && DecodedPrefix(frames)[j] == frames[j].batch
    ensures |DecodedPrefix(frames)| < |frames| ==> frames[|DecodedPrefix(frames)|].Corrupt?
  {
    if frames != [] && frames[0].Encoded? {
      DecodedPrefixFacts(frames[1..]);
    }
  }

  predicate Decodable(frames: Segment)
  {
    forall j :: 0 <= j < |frames| ==> frames[j].Encoded?
  }

  /** A file is decoded through to its end exactly when it has no bad frame. */
  lemma DecodedPrefixFull(frames: Segment)
    ensures |DecodedPrefix(frames)| == |frames| <==> Decodable(frames)
  {
    DecodedPrefixFacts(frames);
  }

  /** Appending a good frame to a good file adds its batch at the end. */
  lemma DecodedAppend(frames: Segment, b: Batch, size: nat)
    requires Decodable(frames)
    ensures Decodable(frames + [Encoded(b, size)])
    ensures DecodedPrefix(frames + [Encoded(b, size)]) == DecodedPrefix(frames) + [b]
  {
    var g := frames + [Encoded(b, size)];
    DecodedPrefixFull(frames);
    DecodedPrefixFull(g);
    DecodedPrefixFacts(frames);
    DecodedPrefixFacts(g);
    assert DecodedPrefix(g) == DecodedPrefix(frames) + [b];
  }

  /** Every unit a file holds has the arity replay needs. */
  predicate SegmentWellFormed(frames: Segment)
  {
    forall j :: 0 <= j < |frames| && frames[j].Encoded? ==> BatchWellFormed(frames[j].batch)
  }

  /** Every WAL file decodes completely and holds only well-formed units. */
  ghost predicate Intact(files: Directory)
  {
    forall n :: n in files && IsWalName(n) ==> Decodable(files[n]) && SegmentWellFormed(files[n])
  }

  ghost function WalNames(files: Directory): set<string>
  {
    set n | n in files && IsWalName(n)
  }

  /** The WAL files in the order recovery reads them: string order. */
  ghost function WalOrder(files: Directory): (r: seq<string>)
    ensures forall n :: n in r <==> n in files && IsWalName(n)
  {
    var all := SetToSeq(files.Keys);
    var r := SortStrings(Filter(all, IsWalName));
    WalOrderCounts(files);
    forall n ensures n in r <==> n in files && IsWalName(n) {
      assert n in r <==> n in multiset(r);
    }
    r
  }

  lemma WalOrderCounts(files: Directory)
    ensures multiset(SortStrings(Filter(SetToSeq(files.Keys), IsWalName))) == multiset(WalNames(files))
  {
    var all := SetToSeq(files.Keys);
    var r := SortStrings(Filter(all, IsWalName));
    FilterCounts(all, IsWalName);
    forall n ensures multiset(r)[n] == multiset(WalNames(files))[n] {
      assert multiset(all)[n] == multiset(files.Keys)[n];
    }
  }

  /** The replay order lists every WAL file once, in string order. */
  lemma WalOrderSorted(files: Directory)
    ensures Sorted(WalOrder(files)) && Distinct(WalOrder(files))
    ensures multiset(WalOrder(files)) == multiset(WalNames(files))
  {
    WalOrderCounts(files);
    DistinctCounts(WalOrder(files));
  }

  /** Whatever order the directory is listed in, filtering and sorting it gives the replay order. */
  lemma WalOrderOfListing(listing: seq<string>, files: Directory)
    requires IsListing(listing, files)
    ensures SortStrings(Filter(listing, IsWalName)) == WalOrder(files)
  {
    var f := Filter(listing, IsWalName);
    FilterCounts(listing, IsWalName);
    assert multiset(f) == multiset(WalNames(files)) by {
      forall n ensures multiset(f)[n] == multiset(WalNames(files))[n] {
        assert multiset(listing)[n] == multiset(files.Keys)[n];
      }
    }
    assert Sorted(WalOrder(files)) && multiset(WalOrder(files)) == multiset(WalNames(files)) by {
      WalOrderSorted(files);
    }
    SortedUnique(SortStrings(f), WalOrder(files));
  }

  /** The batches a file holds; a name with no file holds none. */
  function FileBatches(files: Directory, name: string): seq<Batch>
  {
    if name in files then DecodedPrefix(files[name]) else []
  }

  /** The batches of the named files, one file after another. */
  function BatchesOf(files: Directory, names: seq<string>): seq<Batch>
  {
    if names == [] then []
    else BatchesOf(files, names[..|names| - 1]) + FileBatches(files, names[|names| - 1])
  }

  /** Only the named files matter. */
  lemma {:induction false} BatchesOfSameFiles(f1: Directory, f2: Directory, names: seq<string>)
    requires forall i :: 0 <= i < |names| ==> FileBatches(f1, names[i]) == FileBatches(f2, names[i])
    ensures BatchesOf(f1, names) == BatchesOf(f2, names)
    decreases |names|
  {
    if names != [] {
      BatchesOfSameFiles(f1, f2, names[..|names| - 1]);
    }
  }

  lemma {:induction false} BatchesOfAppend(files: Directory, a: seq<string>, b: seq<string>)
    ensures BatchesOf(files, a + b) == BatchesOf(files, a) + BatchesOf(files, b)
    decreases |b|
  {
    if b == [] {
      assert a + b == a;
    } else {
      var b' := b[..|b| - 1];
      var last := b[|b| - 1];
      var ab' := a + b';
      calc {
        BatchesOf(files, a + b);
        { assert a + b == ab' + [last]; BatchesOfSnoc(files, ab', last); }
        BatchesOf(files, ab') + FileBatches(files, last);
        { BatchesOfAppend(files, a, b'); }
        (BatchesOf(files, a) + BatchesOf(files, b')) + FileBatches(files, last);
        BatchesOf(files, a) + (BatchesOf(files, b') + FileBatches(files, last));
        { assert b == b' + [last]; BatchesOfSnoc(files, b', last); }
        BatchesOf(files, a) + BatchesOf(files, b);
      }
    }
  }

  /** One more name adds that file's batches at the end. */
  lemma BatchesOfSnoc(files: Directory, names: seq<string>, n: string)
    ensures BatchesOf(files, names + [n]) == BatchesOf(files, names) + FileBatches(files, n)
  {
    assert (names + [n])[..|names|] == names;
  }

  /** The files named hold only well-formed units, so their batches can be replayed. */
  lemma {:induction false} BatchesOfWellFormed(files: Directory, names: seq<string>)
    requires forall i :: 0 <= i < |names| && names[i] in files ==> SegmentWellFormed(files[names[i]])
    ensures BatchesWellFormed(BatchesOf(files, names))
    decreases |names|
  {
    if names != [] {
      var last := names[|names| - 1];
      BatchesOfWellFormed(files, names[..|names| - 1]);
      var x := BatchesOf(files, names[..|names| - 1]);
      var y := FileBatches(files, last);
      assert BatchesWellFormed(y) by {
        if last in files {
          assert SegmentWellFormed(files[last]);
          DecodedPrefixFacts(files[last]);
        }
      }
      assert forall j :: 0 <= j < |x + y| ==> (x + y)[j] == if j < |x| then x[j] else y[j - |x|];
    }
  }

  /** The table recovery rebuilds from an intact directory. */
  ghost function Replay(files: Directory): Table
    requires Intact(files)
  {
    var w := WalOrder(files);
    BatchesOfWellFormed(files, w);
    ApplyBatches(map[], BatchesOf(files, w))
  }

  /** `n` is the newest WAL file: no WAL name sorts after it. */
  ghost predicate IsNewest(files: Directory, n: string)
  {
    n in files && IsWalName(n) && forall w :: w in files && IsWalName(w) ==> LessEq(w, n)
  }

  /** Rewriting the newest file's contents keeps it the newest. */
  lemma NewestAfterWrite(files: Directory, n: string, contents: Segment)
    requires IsNewest(files, n)
    ensures IsNewest(files[n := contents], n)
  {
    assert files[n := contents].Keys == files.Keys;
  }

  /** The newest file is the last one replayed. */
  lemma NewestIsLast(files: Directory, n: string)
    requires IsNewest(files, n)
    ensures var w := WalOrder(files); |w| > 0 && w[|w| - 1] == n && n !in w[..|w| - 1]
  {
    var w := WalOrder(files);
    WalOrderSorted(files);
    assert n in w;
    SortedMaxIsLast(w, n);
  }

  /** The replay order depends only on which names exist. */
  lemma WalOrderSameKeys(f1: Directory, f2: Directory)
    requires f1.Keys == f2.Keys
    ensures WalOrder(f1) == WalOrder(f2)
  {
  }

  /** Appending a frame to the file read last adds its batch at the end, whatever the order is. */
  lemma BatchesAppendLast(files: Directory, n: string, b: Batch, size: nat, w: seq<string>)
    requires n in files && Decodable(files[n])
    requires |w| > 0 && w[|w| - 1] == n && n !in w[..|w| - 1]
    ensures BatchesOf(files[n := files[n] + [Encoded(b, size)]], w) == BatchesOf(files, w) + [b]
  {
    var g := files[n := files[n] + [Encoded(b, size)]];
    var front := w[..|w| - 1];
    assert BatchesOf(files, w) == BatchesOf(files, front) + FileBatches(files, n);
    assert BatchesOf(g, w) == BatchesOf(g, front) + FileBatches(g, n);
    assert BatchesOf(g, front) == BatchesOf(files, front) by {
      assert forall i :: 0 <= i < |front| ==> front[i] != n;
      BatchesOfSameFiles(files, g, front);
    }
    assert FileBatches(g, n) == FileBatches(files, n) + [b] by {
      DecodedAppend(files[n], b, size);
    }
  }

  /** Appending a frame to the newest file adds its batch at the end of the replayed batches. */
  lemma BatchesAppendNewest(files: Directory, n: string, b: Batch, size: nat)
    requires IsNewest(files, n) && Decodable(files[n])
    ensures var g := files[n := files[n] + [Encoded(b, size)]];
      BatchesOf(g, WalOrder(g)) == BatchesOf(files, WalOrder(files)) + [b]
  {
    var g := files[n := files[n] + [Encoded(b, size)]];
    var w := WalOrder(files);
    assert WalOrder(g) == w by {
      WalOrderSameKeys(files, g);
    }
    assert |w| > 0 && w[|w| - 1] == n && n !in w[..|w| - 1] by {
      NewestIsLast(files, n);
    }
    BatchesAppendLast(files, n, b, size, w);
  }

  /** What recovery replays: the batches of the WAL files in replay order. */
  lemma ReplayUnfold(files: Directory)
    requires Intact(files)
    ensures BatchesWellFormed(BatchesOf(files, WalOrder(files)))
    ensures Replay(files) == ApplyBatches(map[], BatchesOf(files, WalOrder(files)))
  {
    BatchesOfWellFormed(files, WalOrder(files));
  }

  /** Appending a well-formed batch to a WAL file keeps the directory intact. */
  lemma IntactAppend(files: Directory, n: string, b: Batch, size: nat)
    requires Intact(files) && n in files && BatchWellFormed(b)
    ensures Intact(files[n := files[n] + [Encoded(b, size)]])
  {
    var g := files[n := files[n] + [Encoded(b, size)]];
    forall k | k in g && IsWalName(k) ensures Decodable(g[k]) && SegmentWellFormed(g[k]) {
      if k == n {
        DecodedAppend(files[n], b, size);
        assert SegmentWellFormed(files[n]);
      }
    }
  }

  /**
   * Appending a batch to the newest file: the directory stays intact and its
   * replay is the old replay followed by the batch.
   */
  lemma ReplayAppendNewest(files: Directory, n: string, b: Batch, size: nat)
    requires Intact(files) && IsNewest(files, n) && BatchWellFormed(b)
    ensures Intact(files[n := files[n] + [Encoded(b, size)]])
    ensures Replay(files[n := files[n] + [Encoded(b, size)]]) == ApplyUnits(Replay(files), b)
  {
    var g := files[n := files[n] + [Encoded(b, size)]];
    IntactAppend(files, n, b, size);
    var x := BatchesOf(files, WalOrder(files));
    ReplayUnfold(files);
    ReplayUnfold(g);
    assert BatchesOf(g, WalOrder(g)) == x + [b] by {
      BatchesAppendNewest(files, n, b, size);
    }
    assert (x + [b])[..|x|] == x;
  }

  /**
   * Bytes written through an open handle land at the end of its file; when
   * the file has been removed from the directory they land nowhere visible.
   */
  function AppendThrough(files: Directory, name: string, b: Batch, size: nat): (r: Directory)
    ensures r.Keys == files.Keys
  {
    if name in files then files[name := files[name] + [Encoded(b, size)]] else files
  }

  /**
   * The bytes a segment's encoded frames take on disk. A corrupt tail's own
   * length is not modelled and counts nothing.
   */
  function SegmentBytes(frames: Segment): nat
  {
    if frames == [] then 0
    else
      var last := frames[|frames| - 1];
      SegmentBytes(frames[..|frames| - 1]) + (if last.Encoded? then last.size else 0)
  }

  /** Appending through a handle on a listed file grows it by the batch's bytes and leaves every other file alone. */
  lemma AppendThroughBytes(files: Directory, name: string, b: Batch, size: nat)
    requires name in files
    ensures SegmentBytes(AppendThrough(files, name, b, size)[name]) == SegmentBytes(files[name]) + size
    ensures forall k :: k in files && k != name ==> AppendThrough(files, name, b, size)[k] == files[k]
  {
  }

  /** Writing a batch through a handle on the newest file replays it last. */
  lemma ReplayWriteThrough(files: Directory, n: string, b: Batch, size: nat)
    requires Intact(files) && IsNewest(files, n) && BatchWellFormed(b)
    ensures Intact(AppendThrough(files, n, b, size)) && IsNewest(AppendThrough(files, n, b, size), n)
    ensures Replay(AppendThrough(files, n, b, size)) == ApplyUnits(Replay(files), b)
  {
    ReplayAppendNewest(files, n, b, size);
    NewestAfterWrite(files, n, files[n] + [Encoded(b, size)]);
  }

  /**
   * `os.OpenFile(name, O_APPEND|O_CREATE|O_WRONLY)`: an existing file is kept
   * as it is, a missing one is created empty.
   */
  function OpenForAppend(files: Directory, name: string): (r: Directory)
    ensures name in r && r.Keys == files.Keys + {name}
    ensures forall k :: k in files ==> r[k] == files[k]
    ensures name !in files ==> r[name] == []
  {
    if name in files then files else files[name := []]
  }

  /** A new name that sorts after every WAL name joins the replay order at the end. */
  lemma WalOrderAddNewest(files: Directory, c: string)
    requires c !in files && IsWalName(c)
    requires forall w :: w in files && IsWalName(w) ==> LessEq(w, c)
    ensures WalOrder(files[c := []]) == WalOrder(files) + [c]
  {
    var g := files[c := []];
    var w := WalOrder(files);
    var u := WalOrder(g);
    assert Sorted(w) && Distinct(w) && Sorted(u) && Distinct(u) by {
      WalOrderSorted(files);
      WalOrderSorted(g);
    }
    assert c !in w && forall x :: x in w ==> LessEq(x, c);
    assert forall x :: x in u <==> x in w || x == c;
    SortedAddTop(w, c, u);
  }


  /**
   * Opening a new newest segment leaves the replay as it was, and the new
   * name is the newest file afterwards.
   */
  lemma ReplayOpenNewest(files: Directory, c: string)
    requires Intact(files) && IsWalName(c)
    requires forall w :: w in files && IsWalName(w) ==> LessEq(w, c)
    ensures Intact(OpenForAppend(files, c))
    ensures IsNewest(OpenForAppend(files, c), c)
    ensures Replay(OpenForAppend(files, c)) == Replay(files)
  {
    if c !in files {
      var g := files[c := []];
      var w := WalOrder(files);
      assert WalOrder(g) == w + [c] by {
        WalOrderAddNewest(files, c);
      }
      WalOrderInFiles(files);
      IntactAddEmpty(files, c);
      BatchesAddEmpty(files, c, w);
      ReplayUnfold(files);
      ReplayUnfold(g);
    }
  }

  /** Every name in the replay order is a WAL file of the directory. */
  lemma WalOrderInFiles(files: Directory)
    ensures forall i :: 0 <= i < |WalOrder(files)| ==> WalOrder(files)[i] in files && IsWalName(WalOrder(files)[i])
  {
    var w := WalOrder(files);
    assert forall i :: 0 <= i < |w| ==> w[i] in w;
  }

  /** A new empty file keeps the directory intact. */
  lemma IntactAddEmpty(files: Directory, c: string)
    requires Intact(files)
    ensures Intact(files[c := []])
  {
    var g := files[c := []];
    forall k | k in g && IsWalName(k) ensures Decodable(g[k]) && SegmentWellFormed(g[k]) {
      if k != c {
        assert g[k] == files[k];
      }
    }
  }

  /** An empty file read last adds no batches; the files before it are untouched. */
  lemma BatchesAddEmpty(files: Directory, c: string, w: seq<string>)
    requires c !in files
    requires forall i :: 0 <= i < |w| ==> w[i] in files
    ensures BatchesOf(files[c := []], w + [c]) == BatchesOf(files, w)
  {
    var v := w + [c];
    assert v[..|v| - 1] == w;
    BatchesOfSameFiles(files, files[c := []], w);
  }

  /** A sorted list without repeats of exactly the WAL names of a directory is its replay order. */
  lemma WalOrderFromMembers(files: Directory, s: seq<string>)
    requires Sorted(s) && Distinct(s)
    requires forall x :: x in s <==> x in files && IsWalName(x)
    ensures WalOrder(files) == s
  {
    WalOrderSorted(files);
    SortedSameMembers(WalOrder(files), s);
  }

  /** `g` holds the WAL files of `files` less the `k` oldest, with the same contents. */
  ghost predicate DropsOldest(files: Directory, k: nat, g: Directory)
    requires k <= |WalOrder(files)|
  {
    forall n :: IsWalName(n) ==>
      && (n in g <==> n in files && n !in WalOrder(files)[..k])
      && (n in g ==> g[n] == files[n])
  }

  lemma DropsOldestOrder(files: Directory, k: nat, g: Directory)
    requires k <= |WalOrder(files)| && DropsOldest(files, k, g)
    ensures WalOrder(g) == WalOrder(files)[k..]
  {
    var w := WalOrder(files);
    WalOrderSorted(files);
    SortedSuffix(w, k);
    WalOrderFromMembers(g, w[k..]);
  }

  lemma DropsOldestBatches(files: Directory, k: nat, g: Directory)
    requires k <= |WalOrder(files)| && DropsOldest(files, k, g)
    ensures BatchesOf(g, WalOrder(files)[k..]) == BatchesOf(files, WalOrder(files)[k..])
  {
    var w := WalOrder(files);
    var rest := w[k..];
    WalOrderSorted(files);
    SortedSuffix(w, k);
    forall i | 0 <= i < |rest|
      ensures FileBatches(g, rest[i]) == FileBatches(files, rest[i])
    {
      assert rest[i] in rest;
    }
    BatchesOfSameFiles(g, files, rest);
  }

  /**
   * A directory whose WAL files are those of `files` less the `k` oldest, with
   * the same contents, is intact and replays the batches of the rest.
   */
  lemma ReplayWithout(files: Directory, k: nat, g: Directory)
    requires Intact(files) && k <= |WalOrder(files)|
    requires DropsOldest(files, k, g)
    ensures Intact(g)
    ensures WalOrder(g) == WalOrder(files)[k..]
    ensures BatchesWellFormed(BatchesOf(files, WalOrder(files)[k..]))
    ensures Replay(g) == ApplyBatches(map[], BatchesOf(files, WalOrder(files)[k..]))
  {
    DropsOldestOrder(files, k, g);
    DropsOldestBatches(files, k, g);
    ReplayUnfold(g);
  }
}

/**
 * Segment naming: segments are files `wal-<unix seconds>.gob`. Listings are
 * filtered by the timestamp embedded in each name, but ordered as strings.
 * A failed directory read is a listing of None.
 */
module WalSegment {
  import opened Wrappers
  import opened Text

  datatype SegmentError = CantParseTimestamp | CantReadDirectory

  /** The name `createNewSegment` gives a segment opened at second `now`. */
  function SegmentName(now: int): string
  {
    "wal-" + FormatInt(now) + ".gob"
  }

  /**
   * `parseName`: "" stands for timestamp 0; otherwise an optional "wal-"
   * prefix and ".gob" suffix are stripped and the rest must be a base-10 int64.
   */
  function ParseName(fileName: string): Option<int>
  {
    if fileName == "" then Some(0)
    else ParseInt64(TrimSuffix(TrimPrefix(fileName, "wal-"), ".gob"))
  }

  /** A segment's name parses back to the second it was opened at. */
  lemma SegmentNameRoundTrip(now: int)
    requires MinInt64 <= now <= MaxInt64
    ensures ParseName(SegmentName(now)) == Some(now)
  {
    var d := FormatInt(now);
    var name := SegmentName(now);
    assert name == "wal-" + (d + ".gob");
    assert name[..4] == "wal-";
    assert TrimPrefix(name, "wal-") == d + ".gob";
    assert (d + ".gob")[|d|..] == ".gob";
    assert TrimSuffix(d + ".gob", ".gob") == d;
    FormatParseRoundTrip(now);
  }

  /** Entry `n` is kept for a request whose timestamp is `t`. */
  predicate Qualifies(n: string, t: int)
  {
    ParseName(n).Some? && ParseName(n).value >= t
  }

  /** The filter `GetNewerSegmentNames` applies for a request at `t`. */
  function QualifiesFor(t: int): string -> bool
  {
    n => Qualifies(n, t)
  }

  /** `GetNewerSegmentNames`: the qualifying entries, sorted as strings. */
  function GetNewerSegmentNames(listing: Option<seq<string>>, name: string): (r: Result<seq<string>, SegmentError>)
    ensures ParseName(name).None? ==> r == Err(CantParseTimestamp)
    ensures ParseName(name).Some? && listing.None? ==> r == Err(CantReadDirectory)
    ensures r.Ok? ==> listing.Some? && ParseName(name).Some? && Sorted(r.value)
    ensures r.Ok? ==> forall x ::
      multiset(r.value)[x] == if Qualifies(x, ParseName(name).value) then multiset(listing.value)[x] else 0
  {
    match ParseName(name)
    case None => Err(CantParseTimestamp)
    case Some(t) =>
      match listing
      case None => Err(CantReadDirectory)
      case Some(entries) =>
        FilterCounts(entries, QualifiesFor(t));
        Ok(SortStrings(Filter(entries, QualifiesFor(t))))
  }

  /** `GetLastSegment`: the greatest (as a string) entry with a non-negative timestamp, or "". */
  function GetLastSegment(listing: Option<seq<string>>): (r: Result<string, SegmentError>)
    ensures listing.None? <==> r == Err(CantReadDirectory)
  {
    match GetNewerSegmentNames(listing, "")
    case Err(e) => Err(e)
    case Ok(segments) =>
      if |segments| == 0 then Ok("")
      else Ok(segments[|segments| - 1])
  }

  /**
   * A listing that was read resolves to "" when no entry has a non-negative
   * timestamp, and otherwise to the greatest such entry.
   */
  lemma LastSegmentIsGreatest(listing: Option<seq<string>>)
    ensures var r := GetLastSegment(listing);
      && (r.Ok? && (forall x :: x in listing.value ==> !Qualifies(x, 0)) ==> r.value == "")
      && (r.Ok? && (exists x :: x in listing.value && Qualifies(x, 0)) ==>
            && r.value in listing.value && Qualifies(r.value, 0)
            && forall x :: x in listing.value && Qualifies(x, 0) ==> LessEq(x, r.value))
  {
    if listing.Some? {
      LastQualifying(listing.value);
    }
  }

  /** Asked from "", the sorted names are the qualifying entries; the last of them is the greatest one. */
  lemma LastQualifying(entries: seq<string>)
    ensures GetNewerSegmentNames(Some(entries), "") == Ok(SortStrings(Filter(entries, QualifiesFor(0))))
    ensures var s := SortStrings(Filter(entries, QualifiesFor(0)));
      && (s == [] ==> forall x :: x in entries ==> !Qualifies(x, 0))
      && (s != [] ==>
            && s[|s| - 1] in entries && Qualifies(s[|s| - 1], 0)
            && forall x :: x in entries && Qualifies(x, 0) ==> LessEq(x, s[|s| - 1]))
  {
    assert ParseName("") == Some(0);
    var s := SortStrings(Filter(entries, QualifiesFor(0)));
    NewerMembers(entries, 0);
    if |s| > 0 {
      assert s[|s| - 1] in s;
      SortedLast(s);
    }
  }

  /** The names `GetNewerSegmentNames` keeps are exactly the listed ones that qualify. */
  lemma NewerMembers(entries: seq<string>, t: int)
    ensures var s := SortStrings(Filter(entries, QualifiesFor(t)));
      forall x :: x in s <==> x in entries && Qualifies(x, t)
  {
    var f := Filter(entries, QualifiesFor(t));
    var s := SortStrings(f);
    FilterCounts(entries, QualifiesFor(t));
    forall x ensures x in s <==> x in entries && Qualifies(x, t) {
      assert x in s <==> x in multiset(s);
      assert x in entries <==> x in multiset(entries);
      assert multiset(s)[x] == multiset(f)[x];
    }
  }

  /**
   * `GetNextSegment`: "" when nothing qualifies; the first qualifying entry
   * when only one qualifies or when the request is ""; otherwise the second.
   */
  function GetNextSegment(listing: Option<seq<string>>, name: string): (r: Result<string, SegmentError>)
    ensures GetNewerSegmentNames(listing, name).Err? ==> r == Err(GetNewerSegmentNames(listing, name).error)
    ensures GetNewerSegmentNames(listing, name).Ok? ==> r.Ok?
  {
    match GetNewerSegmentNames(listing, name)
    case Err(e) => Err(e)
    case Ok(segments) =>
      if |segments| == 0 then Ok("")
      else if |segments| == 1 || name == "" then Ok(segments[0])
      else Ok(segments[1])
  }

  /**
   * String order and timestamp order agree on the entries that parse. This
   * holds for real segment names as long as all timestamps have the same
   * number of digits.
   */
  ghost predicate OrderConsistent(entries: seq<string>)
  {
    forall x, y :: x in entries && y in entries && ParseName(x).Some? && ParseName(y).Some? && Less(x, y) ==>
      ParseName(x).value < ParseName(y).value
  }

  /** The entries, sorted, that qualify for `t`: members, order and no repeats. */
  lemma NewerFacts(entries: seq<string>, t: int)
    requires Distinct(entries)
    ensures var s := SortStrings(Filter(entries, QualifiesFor(t)));
      && Sorted(s) && Distinct(s)
      && forall x :: x in s <==> x in entries && Qualifies(x, t)
  {
    var f := Filter(entries, QualifiesFor(t));
    var s := SortStrings(f);
    FilterCounts(entries, QualifiesFor(t));
    DistinctCounts(entries);
    forall x ensures multiset(s)[x] <= 1 {
      assert multiset(s)[x] == multiset(f)[x];
    }
    DistinctCounts(s);
    NewerMembers(entries, t);
  }

  /**
   * When string and timestamp order agree, the entries newer than a listed
   * name are that name and every parseable entry after it.
   */
  lemma NewerThanListed(entries: seq<string>, name: string)
    requires OrderConsistent(entries)
    requires name in entries && ParseName(name).Some?
    ensures var t := ParseName(name).value;
      forall x :: x in entries && Qualifies(x, t) <==>
        x == name || (x in entries && ParseName(x).Some? && Less(name, x))
  {
    var t := ParseName(name).value;
    forall x | x in entries && Qualifies(x, t) && x != name
      ensures Less(name, x)
    {
      LessTotal(x, name);
    }
    forall x | x in entries && ParseName(x).Some? && Less(name, x)
      ensures Qualifies(x, t)
    {
      assert t < ParseName(x).value;
    }
  }

  /**
   * Replication walks the log in order: asked for a segment it has, the
   * master answers with the next segment in string order, or with the same
   * name when it is the newest.
   */
  lemma NextSegmentIsSuccessor(entries: seq<string>, name: string)
    requires Distinct(entries) && OrderConsistent(entries)
    requires name in entries && name != "" && ParseName(name).Some?
    ensures GetNextSegment(Some(entries), name).Ok?
    ensures var next := GetNextSegment(Some(entries), name).value;
      && next in entries && ParseName(next).Some?
      && ((forall y :: y in entries && ParseName(y).Some? ==> !Less(name, y)) ==> next == name)
      && ((exists y :: y in entries && ParseName(y).Some? && Less(name, y)) ==>
            && Less(name, next)
            && forall y :: y in entries && ParseName(y).Some? && Less(name, y) ==> LessEq(next, y))
  {
    var t := ParseName(name).value;
    NewerFacts(entries, t);
    NewerThanListed(entries, name);
    var s := SortStrings(Filter(entries, QualifiesFor(t)));
    assert GetNewerSegmentNames(Some(entries), name) == Ok(s);
    forall x | x in s ensures x == name || Less(name, x) {
    }
    assert name in s;
    SortedFromLeast(s, name);
  }

  /** At the tip the next segment is the last segment itself: a caught-up replica stays put. */
  lemma NextAtTip(entries: seq<string>)
    requires Distinct(entries) && OrderConsistent(entries)
    requires GetLastSegment(Some(entries)) != Ok("")
    ensures GetNextSegment(Some(entries), GetLastSegment(Some(entries)).value) == GetLastSegment(Some(entries))
  {
    var last := GetLastSegment(Some(entries)).value;
    LastSegmentIsGreatest(Some(entries));
    assert exists x :: x in entries && Qualifies(x, 0);
    forall y | y in entries && ParseName(y).Some? ensures !Less(last, y) {
      if Less(last, y) {
        assert Qualifies(y, 0);
        LessAsymmetric(last, y);
      }
    }
    NextSegmentIsSuccessor(entries, last);
  }

  /** A request that does not parse fails before the directory is looked at, whatever it holds. */
  lemma BadNameFailsFirst(listing: Option<seq<string>>, name: string)
    requires ParseName(name).None?
    ensures GetNextSegment(listing, name) == Err(CantParseTimestamp)
    ensures GetNextSegment(None, name) == GetNextSegment(listing, name)
  {
  }

  /** A name that parses is all ASCII: an optional "wal-", a sign and digits, an optional ".gob". */
  lemma ParsedNameIsAscii(n: string)
    requires ParseName(n).Some?
    ensures IsAscii(n)
  {
    if n != "" {
      var inner := TrimPrefix(n, "wal-");
      var stem := TrimSuffix(inner, ".gob");
      ParseInt64Ascii(stem);
      if HasSuffix(inner, ".gob") {
        AsciiConcat(stem, ".gob");
      }
      if HasPrefix(n, "wal-") {
        AsciiConcat("wal-", inner);
      }
    }
  }

  /** A request with a name but no digit before ".gob" does not parse. */
  lemma NoDigitNoParse(name: string)
    requires name != ""
    requires var stem := TrimSuffix(TrimPrefix(name, "wal-"), ".gob");
      stem == [] || !IsDigit(stem[|stem| - 1])
    ensures ParseName(name).None?
  {
  }

  /** A non-empty answer of `GetNextSegment` qualifies for the request. */
  lemma NextQualifies(listing: Option<seq<string>>, name: string)
    requires GetNextSegment(listing, name).Ok? && GetNextSegment(listing, name).value != ""
    ensures ParseName(name).Some?
    ensures Qualifies(GetNextSegment(listing, name).value, ParseName(name).value)
  {
  }

  /** The name of a segment opened in a second below ten: "wal-" and one digit. */
  lemma OneDigitName(x: int)
    requires 0 <= x < 10
    ensures SegmentName(x) == "wal-" + (['0' + x as char] + ".gob")
  {
  }

  /** The name of a segment opened in a second from ten to nineteen: "wal-1" and one digit. */
  lemma TeenName(y: int)
    requires 10 <= y < 20
    ensures SegmentName(y) == "wal-" + (['1'] + (['0' + (y - 10) as char] + ".gob"))
  {
    assert FormatNat(y / 10) == ['1'];
  }

  /** The three names of the counterexample below, in string order. */
  lemma DigitCountOrder(x: int, y: int, z: int)
    requires 2 <= x < 10 && 10 <= y < z < 20
    ensures Sorted([SegmentName(y), SegmentName(z), SegmentName(x)])
  {
    OneDigitName(x);
    TeenName(y);
    TeenName(z);
    var ty := ['0' + (y - 10) as char] + ".gob";
    var tz := ['0' + (z - 10) as char] + ".gob";
    LessCommonPrefix("wal-", ['1'] + ty, ['1'] + tz);
    LessCommonPrefix(['1'], ty, tz);
    LessCommonPrefix("wal-", ['1'] + ty, ['0' + x as char] + ".gob");
    LessCommonPrefix("wal-", ['1'] + tz, ['0' + x as char] + ".gob");
    assert Less(SegmentName(y), SegmentName(z));
    assert Less(SegmentName(y), SegmentName(x));
    assert Less(SegmentName(z), SegmentName(x));
  }

  lemma DigitCountQualify(x: int, y: int, z: int, t: int)
    requires 2 <= x < 10 && 10 <= y < z < 20 && t <= x
    ensures var entries := [SegmentName(x), SegmentName(y), SegmentName(z)];
      Filter(entries, QualifiesFor(t)) == entries
  {
    var entries := [SegmentName(x), SegmentName(y), SegmentName(z)];
    NameQualifies(x, t);
    NameQualifies(y, t);
    NameQualifies(z, t);
    FilterThree(SegmentName(x), SegmentName(y), SegmentName(z), t);
  }

  lemma FilterThree(a: string, b: string, c: string, t: int)
    requires QualifiesFor(t)(a) && QualifiesFor(t)(b) && QualifiesFor(t)(c)
    ensures Filter([a, b, c], QualifiesFor(t)) == [a, b, c]
  {
    FilterAll([a, b, c], QualifiesFor(t));
  }

  /** A segment opened at or after `t` is kept for a request at `t`. */
  lemma NameQualifies(now: int, t: int)
    requires MinInt64 <= now <= MaxInt64 && t <= now
    ensures QualifiesFor(t)(SegmentName(now))
  {
    SegmentNameRoundTrip(now);
  }

  lemma DigitCountSort(x: int, y: int, z: int)
    requires 2 <= x < 10 && 10 <= y < z < 20
    ensures SortStrings([SegmentName(x), SegmentName(y), SegmentName(z)])
      == [SegmentName(y), SegmentName(z), SegmentName(x)]
  {
    var entries := [SegmentName(x), SegmentName(y), SegmentName(z)];
    var sorted := [SegmentName(y), SegmentName(z), SegmentName(x)];
    RotatedSameElements(SegmentName(x), SegmentName(y), SegmentName(z));
    DigitCountOrder(x, y, z);
    SortedUnique(SortStrings(entries), sorted);
  }

  /** Three names moved first to last keep the same elements. */
  lemma RotatedSameElements<T>(a: T, b: T, c: T)
    ensures multiset([a, b, c]) == multiset([b, c, a])
  {
    assert multiset([a, b, c]) == multiset{a, b, c};
    assert multiset([b, c, a]) == multiset{b, c, a};
  }

  /** Every one of the three names qualifies for a request at `t`, so all three are kept, in string order. */
  lemma DigitCountNewer(x: int, y: int, z: int, t: int)
    requires 2 <= x < 10 && 10 <= y < z < 20 && t <= x
    ensures SortStrings(Filter([SegmentName(x), SegmentName(y), SegmentName(z)], QualifiesFor(t)))
      == [SegmentName(y), SegmentName(z), SegmentName(x)]
  {
    DigitCountQualify(x, y, z, t);
    DigitCountSort(x, y, z);
  }

  /**
   * Without order consistency the tip is not a fixed point: once the seconds
   * gain a digit, the last segment in string order is not the newest, and
   * asking for the segment after it moves on (e.g. wal-9, wal-10, wal-11:
   * the last is wal-9 and the next after wal-9 is wal-11).
   */
  lemma DigitCountBreaksTip(x: int, y: int, z: int)
    requires 2 <= x < 10 && 10 <= y < z < 20
    ensures GetLastSegment(Some([SegmentName(x), SegmentName(y), SegmentName(z)])) == Ok(SegmentName(x))
    ensures GetNextSegment(Some([SegmentName(x), SegmentName(y), SegmentName(z)]), SegmentName(x)) == Ok(SegmentName(z))
  {
    DigitCountLast(x, y, z);
    DigitCountNext(x, y, z);
  }

  lemma DigitCountLast(x: int, y: int, z: int)
    requires 2 <= x < 10 && 10 <= y < z < 20
    ensures GetLastSegment(Some([SegmentName(x), SegmentName(y), SegmentName(z)])) == Ok(SegmentName(x))
  {
    var entries := [SegmentName(x), SegmentName(y), SegmentName(z)];
    assert ParseName("") == Some(0);
    DigitCountNewer(x, y, z, 0);
    assert GetNewerSegmentNames(Some(entries), "") == Ok([SegmentName(y), SegmentName(z), SegmentName(x)]);
  }

  lemma DigitCountNext(x: int, y: int, z: int)
    requires 2 <= x < 10 && 10 <= y < z < 20
    ensures GetNextSegment(Some([SegmentName(x), SegmentName(y), SegmentName(z)]), SegmentName(x)) == Ok(SegmentName(z))
  {
    var entries := [SegmentName(x), SegmentName(y), SegmentName(z)];
    SegmentNameRoundTrip(x);
    DigitCountNewer(x, y, z, x);
    NewerUnfold(entries, SegmentName(x));
    assert |SegmentName(x)| > 0;
  }

  /** A request whose name parses lists the entries that qualify for its timestamp, sorted. */
  lemma NewerUnfold(entries: seq<string>, name: string)
    requires ParseName(name).Some?
    ensures GetNewerSegmentNames(Some(entries), name) == Ok(SortStrings(Filter(entries, QualifiesFor(ParseName(name).value))))
  {
  }

  /**
   * Asked for a name it does not have, `GetNextSegment` skips an entry: the
   * least entry at or after the requested time is passed over.
   */
  lemma AbsentNameSkipsOne(entries: seq<string>, name: string)
    requires Distinct(entries)
    requires name != "" && name !in entries && ParseName(name).Some?
    requires exists x, y ::
      x in entries && y in entries && x != y && Qualifies(x, ParseName(name).value) && Qualifies(y, ParseName(name).value)
    ensures GetNextSegment(Some(entries), name).Ok?
    ensures var next := GetNextSegment(Some(entries), name).value;
      && next in entries && Qualifies(next, ParseName(name).value)
      && exists m :: m in entries && Qualifies(m, ParseName(name).value) && Less(m, next)
  {
    var t := ParseName(name).value;
    NewerFacts(entries, t);
    var s := SortStrings(Filter(entries, QualifiesFor(t)));
    assert GetNewerSegmentNames(Some(entries), name) == Ok(s);
    var x, y :| x in entries && y in entries && x != y && Qualifies(x, t) && Qualifies(y, t);
    TwoMembers(s, x, y);
    SortedDistinctStrict(s, 0, 1);
    assert GetNextSegment(Some(entries), name) == Ok(s[1]);
    assert s[0] in s && s[1] in s;
  }
}

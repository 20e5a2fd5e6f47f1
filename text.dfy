/**
 * The few pieces of Go's standard library the core relies on, stated over
 * Dafny strings whose characters are the bytes of a Go string:
 * string comparison and `sort.Strings`, `strings.HasPrefix`/`TrimPrefix`/
 * `HasSuffix`/`TrimSuffix`, `strconv.ParseInt(s, 10, 64)` and the `%d` verb.
 */
module Text {
  import opened Wrappers

  // ---------------------------------------------------------------------------
  // Byte-wise lexicographic order, as Go's `<` on strings.
  // ---------------------------------------------------------------------------

  predicate Less(a: string, b: string)
    decreases |a|
  {
    if |a| == 0 then |b| > 0
    else if |b| == 0 then false
    else if a[0] != b[0] then a[0] < b[0]
    else Less(a[1..], b[1..])
  }

  predicate LessEq(a: string, b: string)
  {
    a == b || Less(a, b)
  }

  lemma {:induction false} LessIrreflexive(a: string)
    ensures !Less(a, a)
  {
    if |a| > 0 {
      LessIrreflexive(a[1..]);
    }
  }

  lemma {:induction false} LessTransitive(a: string, b: string, c: string)
    requires Less(a, b) && Less(b, c)
    ensures Less(a, c)
    decreases |a|
  {
    if |a| > 0 && a[0] == b[0] && b[0] == c[0] {
      LessTransitive(a[1..], b[1..], c[1..]);
    }
  }

  lemma {:induction false} LessTotal(a: string, b: string)
    requires a != b
    ensures Less(a, b) || Less(b, a)
    decreases |a|
  {
    if |a| > 0 && |b| > 0 && a[0] == b[0] {
      assert a == [a[0]] + a[1..] && b == [b[0]] + b[1..];
      LessTotal(a[1..], b[1..]);
    }
  }

  lemma LessAsymmetric(a: string, b: string)
    requires Less(a, b)
    ensures !Less(b, a)
  {
    if Less(b, a) {
      LessTransitive(a, b, a);
      LessIrreflexive(a);
    }
  }

  lemma LessEqTransitive(a: string, b: string, c: string)
    requires LessEq(a, b) && LessEq(b, c)
    ensures LessEq(a, c)
  {
    if a != b && b != c {
      LessTransitive(a, b, c);
    }
  }

  // ---------------------------------------------------------------------------
  // sort.Strings: an insertion sort, specified as "sorted and a permutation".
  // ---------------------------------------------------------------------------

  /** A common prefix does not change how two strings compare. */
  lemma {:induction false} LessCommonPrefix(p: string, a: string, b: string)
    ensures Less(p + a, p + b) <==> Less(a, b)
  {
    if p == [] {
      assert p + a == a && p + b == b;
    } else {
      assert (p + a)[1..] == p[1..] + a;
      assert (p + b)[1..] == p[1..] + b;
      LessCommonPrefix(p[1..], a, b);
    }
  }

  ghost predicate Sorted(s: seq<string>)
  {
    forall i, j :: 0 <= i < j < |s| ==> LessEq(s[i], s[j])
  }

  /** No name is listed twice (what a directory listing guarantees). */
  ghost predicate Distinct(s: seq<string>)
  {
    forall i, j :: 0 <= i < j < |s| ==> s[i] != s[j]
  }

  /** A sequence has no repeated name exactly when no name occurs in it twice. */
  lemma {:induction false} DistinctCounts(s: seq<string>)
    ensures Distinct(s) <==> forall x :: multiset(s)[x] <= 1
  {
    if s != [] {
      var t := s[1..];
      assert s == [s[0]] + t;
      DistinctCounts(t);
      if Distinct(s) {
        assert Distinct(t) by {
          forall i, j | 0 <= i < j < |t| ensures t[i] != t[j] {
            assert t[i] == s[i + 1] && t[j] == s[j + 1];
          }
        }
        assert s[0] !in t by {
          forall k | 0 <= k < |t| ensures t[k] != s[0] {
            assert t[k] == s[k + 1];
          }
        }
      }
      if forall x :: multiset(s)[x] <= 1 {
        assert multiset(s)[s[0]] == 1 + multiset(t)[s[0]];
        assert s[0] !in t;
        forall x ensures multiset(t)[x] <= 1 {
          assert multiset(s)[x] <= 1;
        }
        forall i, j | 0 <= i < j < |s| ensures s[i] != s[j] {
          if i == 0 {
            assert s[j] == t[j - 1];
          } else {
            assert s[i] == t[i - 1] && s[j] == t[j - 1];
          }
        }
      }
    }
  }

  /** In a sorted sequence without repeats, an earlier name is strictly smaller. */
  lemma SortedDistinctStrict(s: seq<string>, i: int, j: int)
    requires Sorted(s) && Distinct(s)
    requires 0 <= i < j < |s|
    ensures Less(s[i], s[j])
  {
  }

  /** The last element of a sorted sequence is its greatest. */
  lemma SortedLast(s: seq<string>)
    requires Sorted(s) && |s| > 0
    ensures forall x :: x in s ==> LessEq(x, s[|s| - 1])
  {
    forall x | x in s ensures LessEq(x, s[|s| - 1]) {
      var i :| 0 <= i < |s| && s[i] == x;
      if i < |s| - 1 {
        assert LessEq(s[i], s[|s| - 1]);
      }
    }
  }

  /**
   * A sorted sequence without repeats whose every element is `least` or above
   * it starts with `least`, and its second element is the least of the rest.
   */
  lemma SortedFromLeast(s: seq<string>, least: string)
    requires Sorted(s) && Distinct(s) && least in s
    requires forall x :: x in s ==> x == least || Less(least, x)
    ensures s[0] == least
    ensures |s| > 1 ==> Less(least, s[1]) && forall x :: x in s && x != least ==> LessEq(s[1], x)
    ensures |s| == 1 ==> forall x :: x in s ==> x == least
  {
    var k :| 0 <= k < |s| && s[k] == least;
    if k > 0 {
      assert Less(s[0], s[k]);
      assert s[0] in s;
      LessAsymmetric(s[0], least);
    }
    if |s| > 1 {
      assert Less(s[0], s[1]);
      forall x | x in s && x != least ensures LessEq(s[1], x) {
        var j :| 0 <= j < |s| && s[j] == x;
        assert j != 0;
        if j > 1 {
          assert LessEq(s[1], s[j]);
        }
      }
    }
  }

  lemma TwoMembers(s: seq<string>, x: string, y: string)
    requires x in s && y in s && x != y
    ensures |s| >= 2
  {
  }

  /** The greatest element of a sorted sequence without repeats is its last, and occurs only there. */
  lemma SortedMaxIsLast(s: seq<string>, top: string)
    requires Sorted(s) && Distinct(s) && top in s
    requires forall x :: x in s ==> LessEq(x, top)
    ensures |s| > 0 && s[|s| - 1] == top && top !in s[..|s| - 1]
  {
    var last := s[|s| - 1];
    assert last in s;
    var k :| 0 <= k < |s| && s[k] == top;
    if k < |s| - 1 {
      assert Less(top, last);
      LessAsymmetric(top, last);
    }
  }

  /** A name at or above every element may be appended to a sorted sequence. */
  lemma SortedSnoc(s: seq<string>, top: string)
    requires Sorted(s)
    requires forall x :: x in s ==> LessEq(x, top)
    ensures Sorted(s + [top])
  {
    var v := s + [top];
    forall i, j | 0 <= i < j < |v| ensures LessEq(v[i], v[j]) {
      if j == |v| - 1 {
        assert v[i] in s;
      } else {
        assert v[i] == s[i] && v[j] == s[j];
      }
    }
  }

  /** Two sorted sequences without repeats that hold the same names are equal. */
  lemma SortedSameMembers(a: seq<string>, b: seq<string>)
    requires Sorted(a) && Distinct(a) && Sorted(b) && Distinct(b)
    requires forall x :: x in a <==> x in b
    ensures a == b
  {
    DistinctCounts(a);
    DistinctCounts(b);
    forall x ensures multiset(a)[x] == multiset(b)[x] {
      assert x in a <==> x in multiset(a);
      assert x in b <==> x in multiset(b);
    }
    SortedUnique(a, b);
  }

  lemma DistinctSnoc(s: seq<string>, top: string)
    requires Distinct(s) && top !in s
    ensures Distinct(s + [top])
  {
    var v := s + [top];
    forall i, j | 0 <= i < j < |v| ensures v[i] != v[j] {
      assert v[i] == s[i];
      if j < |s| {
        assert v[j] == s[j];
      }
    }
  }
  /** Dropping the first `k` names of a sorted sequence without repeats keeps it so. */
  lemma SortedSuffix(s: seq<string>, k: nat)
    requires Sorted(s) && Distinct(s) && k <= |s|
    ensures Sorted(s[k..]) && Distinct(s[k..])
    ensures forall x :: x in s[k..] <==> x in s && x !in s[..k]
  {
    var t := s[k..];
    forall i, j | 0 <= i < j < |t| ensures LessEq(t[i], t[j]) && t[i] != t[j] {
      assert t[i] == s[k + i] && t[j] == s[k + j];
    }
    forall x ensures x in t <==> x in s && x !in s[..k] {
      assert s == s[..k] + t;
      if x in t {
        var j :| 0 <= j < |t| && t[j] == x;
        assert s[k + j] == x;
        forall i | 0 <= i < k ensures s[..k][i] != x {
          assert s[..k][i] == s[i];
        }
      }
    }
  }

  /** Dropping the second name of a sorted sequence without repeats keeps it so. */
  lemma SortedDropSecond(s: seq<string>)
    requires Sorted(s) && Distinct(s) && |s| >= 2
    ensures Sorted([s[0]] + s[2..]) && Distinct([s[0]] + s[2..])
    ensures forall x :: x in [s[0]] + s[2..] <==> x in s && x != s[1]
  {
    var t := [s[0]] + s[2..];
    assert forall i :: 1 <= i < |t| ==> t[i] == s[i + 1];
    forall i, j | 0 <= i < j < |t| ensures LessEq(t[i], t[j]) && t[i] != t[j] {
      if i == 0 {
        assert t[j] == s[j + 1];
      } else {
        assert t[i] == s[i + 1] && t[j] == s[j + 1];
      }
    }
    forall x ensures x in t <==> x in s && x != s[1] {
      if x in s && x != s[1] {
        var j :| 0 <= j < |s| && s[j] == x;
        if j > 1 {
          assert t[j - 1] == x;
        }
      }
    }
  }

  /**
   * A sorted sequence without repeats holding exactly the names of `s` and
   * one name above all of them is `s` with that name appended.
   */
  lemma SortedAddTop(s: seq<string>, top: string, u: seq<string>)
    requires Sorted(s) && Distinct(s) && top !in s
    requires forall x :: x in s ==> LessEq(x, top)
    requires Sorted(u) && Distinct(u)
    requires forall x :: x in u <==> x in s || x == top
    ensures u == s + [top]
  {
    SortedSnoc(s, top);
    DistinctSnoc(s, top);
    SortedSameMembers(u, s + [top]);
  }


  function Insert(x: string, s: seq<string>): (r: seq<string>)
    ensures multiset(r) == multiset(s) + multiset{x}
  {
    if s == [] then [x]
    else if LessEq(x, s[0]) then [x] + s
    else
      assert s == [s[0]] + s[1..];
      [s[0]] + Insert(x, s[1..])
  }

  /** Prepending an element no greater than every element keeps a sequence sorted. */
  lemma SortedCons(h: string, t: seq<string>)
    requires Sorted(t)
    requires forall y :: y in t ==> LessEq(h, y)
    ensures Sorted([h] + t)
  {
    var r := [h] + t;
    forall i, j | 0 <= i < j < |r|
      ensures LessEq(r[i], r[j])
    {
      assert r[j] == t[j - 1];
      if i > 0 {
        assert r[i] == t[i - 1];
      }
    }
  }

  lemma {:induction false} InsertSorted(x: string, s: seq<string>)
    requires Sorted(s)
    ensures Sorted(Insert(x, s))
  {
    if s == [] {
    } else if LessEq(x, s[0]) {
      forall y | y in s
        ensures LessEq(x, y)
      {
        var j :| 0 <= j < |s| && s[j] == y;
        if j > 0 {
          assert LessEq(s[0], s[j]);
          LessEqTransitive(x, s[0], y);
        }
      }
      SortedCons(x, s);
    } else {
      var t := Insert(x, s[1..]);
      assert Sorted(s[1..]) by {
        forall i, j | 0 <= i < j < |s[1..]|
          ensures LessEq(s[1..][i], s[1..][j])
        {
          assert s[1..][i] == s[i + 1] && s[1..][j] == s[j + 1];
        }
      }
      InsertSorted(x, s[1..]);
      LessTotal(x, s[0]);
      forall y | y in t
        ensures LessEq(s[0], y)
      {
        assert y in multiset(t);
        if y != x {
          assert y in multiset(s[1..]);
          var j :| 0 <= j < |s[1..]| && s[1..][j] == y;
          assert LessEq(s[0], s[1 + j]);
        }
      }
      SortedCons(s[0], t);
    }
  }

  /** `sort.Strings`: the result is sorted and holds exactly the input's elements. */
  function SortStrings(s: seq<string>): (r: seq<string>)
    ensures multiset(r) == multiset(s)
    ensures Sorted(r)
  {
    if s == [] then []
    else
      assert s == [s[0]] + s[1..];
      var t := SortStrings(s[1..]);
      InsertSorted(s[0], t);
      Insert(s[0], t)
  }

  /** A sorted arrangement of a multiset of strings is unique. */
  lemma {:induction false} SortedUnique(a: seq<string>, b: seq<string>)
    requires Sorted(a) && Sorted(b)
    requires multiset(a) == multiset(b)
    ensures a == b
  {
    if a == [] {
      assert |b| == |multiset(b)| == 0;
    } else {
      assert |b| == |multiset(b)| == |multiset(a)| == |a|;
      SortedSameHead(a, b);
      SameTail(a, b);
      SortedTail(a);
      SortedTail(b);
      SortedUnique(a[1..], b[1..]);
      assert a == [a[0]] + a[1..] && b == [b[0]] + b[1..];
    }
  }

  /** Two sorted sequences with the same elements start with the same one. */
  lemma SortedSameHead(a: seq<string>, b: seq<string>)
    requires Sorted(a) && Sorted(b) && |a| > 0 && |b| > 0
    requires multiset(a) == multiset(b)
    ensures a[0] == b[0]
  {
    assert a[0] in multiset(b) && b[0] in multiset(a);
    var j :| 0 <= j < |b| && b[j] == a[0];
    var i :| 0 <= i < |a| && a[i] == b[0];
    assert LessEq(b[0], a[0]) by { if j > 0 { assert LessEq(b[0], b[j]); } }
    assert LessEq(a[0], b[0]) by { if i > 0 { assert LessEq(a[0], a[i]); } }
    if a[0] != b[0] {
      LessAsymmetric(a[0], b[0]);
    }
  }

  lemma SameTail(a: seq<string>, b: seq<string>)
    requires |a| > 0 && |b| > 0 && a[0] == b[0] && multiset(a) == multiset(b)
    ensures multiset(a[1..]) == multiset(b[1..])
  {
    assert a == [a[0]] + a[1..] && b == [b[0]] + b[1..];
    assert multiset(a[1..]) == multiset(a) - multiset{a[0]};
    assert multiset(b[1..]) == multiset(b) - multiset{b[0]};
  }

  lemma SortedTail(s: seq<string>)
    requires Sorted(s) && |s| > 0
    ensures Sorted(s[1..])
  {
    forall i, j | 0 <= i < j < |s[1..]|
      ensures LessEq(s[1..][i], s[1..][j])
    {
      assert s[1..][i] == s[i + 1] && s[1..][j] == s[j + 1];
    }
  }

  lemma SortCanonical(a: seq<string>, b: seq<string>)
    requires multiset(a) == multiset(b)
    ensures SortStrings(a) == SortStrings(b)
  {
    SortedUnique(SortStrings(a), SortStrings(b));
  }

  /** Some enumeration of a finite set of names (the order a directory happens to list them in). */
  ghost function SetToSeq(s: set<string>): (r: seq<string>)
    ensures multiset(r) == multiset(s)
  {
    if s == {} then []
    else
      var x :| x in s;
      assert s == (s - {x}) + {x};
      [x] + SetToSeq(s - {x})
  }

  /** Keeps the elements satisfying `p`, in order. */
  function Filter(s: seq<string>, p: string -> bool): (r: seq<string>)
    ensures |r| <= |s|
  {
    if s == [] then []
    else (if p(s[0]) then [s[0]] else []) + Filter(s[1..], p)
  }

  /** Filtering keeps every passing element as often as it occurs, and nothing else. */
  lemma {:induction false} FilterCounts(s: seq<string>, p: string -> bool)
    ensures forall x :: multiset(Filter(s, p))[x] == if p(x) then multiset(s)[x] else 0
  {
    if s != [] {
      assert s == [s[0]] + s[1..];
      FilterCounts(s[1..], p);
    }
  }

  /** Filtering by a test every element passes keeps the sequence as it is. */
  lemma {:induction false} FilterAll(s: seq<string>, p: string -> bool)
    requires forall i :: 0 <= i < |s| ==> p(s[i])
    ensures Filter(s, p) == s
  {
    if s != [] {
      assert p(s[0]);
      FilterAll(s[1..], p);
    }
  }

  // ---------------------------------------------------------------------------
  // strings.HasPrefix / TrimPrefix / HasSuffix / TrimSuffix
  // ---------------------------------------------------------------------------

  predicate HasPrefix(s: string, prefix: string)
  {
    |prefix| <= |s| && s[..|prefix|] == prefix
  }

  predicate HasSuffix(s: string, suffix: string)
  {
    |suffix| <= |s| && s[|s| - |suffix|..] == suffix
  }

  function TrimPrefix(s: string, prefix: string): (r: string)
    ensures HasPrefix(s, prefix) ==> s == prefix + r
    ensures !HasPrefix(s, prefix) ==> r == s
  {
    if HasPrefix(s, prefix) then s[|prefix|..] else s
  }

  function TrimSuffix(s: string, suffix: string): (r: string)
    ensures HasSuffix(s, suffix) ==> s == r + suffix
    ensures !HasSuffix(s, suffix) ==> r == s
  {
    if HasSuffix(s, suffix) then s[..|s| - |suffix|] else s
  }

  // ---------------------------------------------------------------------------
  // Decimal integers: strconv.ParseInt(s, 10, 64) and fmt's %d.
  // ---------------------------------------------------------------------------

  const MinInt64: int := -0x8000_0000_0000_0000
  const MaxInt64: int := 0x7fff_ffff_ffff_ffff

  predicate IsDigit(c: char)
  {
    '0' <= c <= '9'
  }

  predicate AllDigits(s: string)
  {
    forall i :: 0 <= i < |s| ==> IsDigit(s[i])
  }

  /** The value of a string of decimal digits, most significant first. */
  function DigitsValue(s: string): nat
    requires AllDigits(s)
  {
    if s == [] then 0
    else DigitsValue(s[..|s| - 1]) * 10 + (s[|s| - 1] - '0') as int
  }

  /** The decimal digits of `n`, with no leading zero. */
  function FormatNat(n: nat): (r: string)
    ensures |r| > 0 && AllDigits(r)
    ensures n < 10 <==> |r| == 1
  {
    if n < 10 then ['0' + n as char]
    else FormatNat(n / 10) + ['0' + (n % 10) as char]
  }

  /** `fmt.Sprintf("%d", n)`. */
  function FormatInt(n: int): string
  {
    if n < 0 then "-" + FormatNat(-n) else FormatNat(n)
  }

  /**
   * `strconv.ParseInt(s, 10, 64)`: an optional sign, then one or more decimal
   * digits, and a value that fits in 64 bits; anything else is an error (None).
   */
  function ParseInt64(s: string): (r: Option<int>)
    ensures r.Some? ==> MinInt64 <= r.value <= MaxInt64
    ensures r.Some? ==> s != [] && IsDigit(s[|s| - 1])
  {
    var signed := |s| > 0 && (s[0] == '+' || s[0] == '-');
    var digits := if signed then s[1..] else s;
    if digits == [] || !AllDigits(digits) then None
    else
      assert IsDigit(s[|s| - 1]);
      var v: int := if signed && s[0] == '-' then -(DigitsValue(digits) as int) else DigitsValue(digits);
      if MinInt64 <= v <= MaxInt64 then Some(v) else None
  }

  /** Every character is 7-bit ASCII, so the string is valid UTF-8. */
  predicate IsAscii(s: string)
  {
    forall i :: 0 <= i < |s| ==> s[i] < 128 as char
  }

  /** Joining two ASCII strings gives an ASCII string. */
  lemma AsciiConcat(a: string, b: string)
    requires IsAscii(a) && IsAscii(b)
    ensures IsAscii(a + b)
  {
  }

  /** A string `strconv.ParseInt` accepts is a sign and digits, all ASCII. */
  lemma ParseInt64Ascii(s: string)
    requires ParseInt64(s).Some?
    ensures IsAscii(s)
  {
  }

  lemma {:induction false} FormatNatValue(n: nat)
    ensures DigitsValue(FormatNat(n)) == n
  {
    if n >= 10 {
      var s := FormatNat(n);
      assert s[..|s| - 1] == FormatNat(n / 10);
      FormatNatValue(n / 10);
    }
  }

  /** Printing a 64-bit integer with %d and parsing it back gives the same integer. */
  lemma FormatParseRoundTrip(n: int)
    requires MinInt64 <= n <= MaxInt64
    ensures ParseInt64(FormatInt(n)) == Some(n)
  {
    var s := FormatInt(n);
    if n < 0 {
      var d := FormatNat(-n);
      assert s == "-" + d && s[0] == '-' && s[1..] == d;
      FormatNatValue(-n);
      assert ParseInt64(s) == Some(-(DigitsValue(d) as int));
    } else {
      assert IsDigit(s[0]);
      FormatNatValue(n);
      assert ParseInt64(s) == Some(DigitsValue(s));
    }
  }
}

/**
 * The query tokenizer: a byte-by-byte state machine over the query text that
 * splits it into maximal runs of letter bytes separated by blanks.
 *
 * A Go string is a sequence of bytes; here each character of a Dafny string
 * stands for one byte. Every byte of a multi-byte UTF-8 character is >= 0x80,
 * so it is neither a letter nor a separator, as in the source.
 */
module ComputeParser {
  import opened Wrappers
  import opened ComputeQuery

  /** `isSpaceSymbol`: the separators are space, tab and newline only. */
  predicate IsSpaceSymbol(c: char)
  {
    c == '\t' || c == '\n' || c == ' '
  }

  /** `isLetter`: ASCII letters and digits, `*`, `/` and `_`. */
  predicate IsLetter(c: char)
  {
    ('a' <= c <= 'z') || ('A' <= c <= 'Z') || ('0' <= c <= '9') || c == '*' || c == '/' || c == '_'
  }

  // ---------------------------------------------------------------------------
  // Reference definition: the words of a text are its maximal runs of
  // non-separator characters, left to right.
  // ---------------------------------------------------------------------------

  /** Length of the run of non-separators at the start of `s`. */
  function RunLength(s: string): (n: nat)
    ensures n <= |s|
    ensures forall k :: 0 <= k < n ==> !IsSpaceSymbol(s[k])
    ensures n < |s| ==> IsSpaceSymbol(s[n])
  {
    if s == [] || IsSpaceSymbol(s[0]) then 0 else 1 + RunLength(s[1..])
  }

  function Words(s: string): seq<string>
    decreases |s|
  {
    if s == [] then []
    else if IsSpaceSymbol(s[0]) then Words(s[1..])
    else
      var n := RunLength(s);
      [s[..n]] + Words(s[n..])
  }

  /** What parsing a query yields, stated without the state machine. */
  function Tokenize(query: string): Result<seq<string>, ComputeError>
  {
    if query == [] then Ok([])
    else if IsSpaceSymbol(query[0]) then Err(ErrParse)
    else if exists i :: 0 <= i < |query| && !IsSpaceSymbol(query[i]) && !IsLetter(query[i]) then Err(ErrInvalidSymbol)
    else Ok(Words(query))
  }

  // ---------------------------------------------------------------------------
  // How the words change when one more character is read.
  // ---------------------------------------------------------------------------

  lemma {:induction false} RunLengthSnoc(p: string, c: char)
    ensures RunLength(p + [c]) ==
      if RunLength(p) < |p| || IsSpaceSymbol(c) then RunLength(p) else |p| + 1
  {
    if p != [] && !IsSpaceSymbol(p[0]) {
      assert (p + [c])[1..] == p[1..] + [c];
      RunLengthSnoc(p[1..], c);
    }
  }

  /** A separator never adds a word. */
  lemma {:induction false} WordsSnocSpace(p: string, c: char)
    requires IsSpaceSymbol(c)
    ensures Words(p + [c]) == Words(p)
    decreases |p|
  {
    if p == [] {
      assert Words([c]) == Words([]);
    } else if IsSpaceSymbol(p[0]) {
      assert (p + [c])[1..] == p[1..] + [c];
      WordsSnocSpace(p[1..], c);
    } else {
      var n := RunLength(p);
      RunLengthSnoc(p, c);
      assert (p + [c])[..n] == p[..n];
      assert (p + [c])[n..] == p[n..] + [c];
      WordsSnocSpace(p[n..], c);
    }
  }

  /** A letter after a separator (or at the start) opens a new word. */
  lemma {:induction false} WordsSnocStart(p: string, c: char)
    requires !IsSpaceSymbol(c)
    requires p == [] || IsSpaceSymbol(p[|p| - 1])
    ensures Words(p + [c]) == Words(p) + [[c]]
    decreases |p|
  {
    if p == [] {
      assert RunLength([c]) == 1;
      assert [c][..1] == [c] && [c][1..] == [];
      assert p + [c] == [c];
    } else if IsSpaceSymbol(p[0]) {
      assert (p + [c])[1..] == p[1..] + [c];
      WordsSnocStart(p[1..], c);
    } else {
      var n := RunLength(p);
      RunLengthSnoc(p, c);
      assert (p + [c])[..n] == p[..n];
      assert (p + [c])[n..] == p[n..] + [c];
      WordsSnocStart(p[n..], c);
    }
  }

  /** A letter right after a letter extends the last word. */
  lemma {:induction false} WordsSnocExtend(p: string, c: char)
    requires !IsSpaceSymbol(c)
    requires p != [] && !IsSpaceSymbol(p[|p| - 1])
    ensures |Words(p)| > 0
    ensures Words(p + [c]) == Words(p)[..|Words(p)| - 1] + [Words(p)[|Words(p)| - 1] + [c]]
    decreases |p|
  {
    if IsSpaceSymbol(p[0]) {
      assert (p + [c])[1..] == p[1..] + [c];
      WordsSnocExtend(p[1..], c);
    } else if RunLength(p) == |p| {
      WordsSnocWholeRun(p, c);
    } else {
      var n := RunLength(p);
      RunLengthSnoc(p, c);
      var q := p + [c];
      assert q[..n] == p[..n];
      assert q[n..] == p[n..] + [c];
      assert Words(q) == [p[..n]] + Words(p[n..] + [c]);
      assert Words(p) == [p[..n]] + Words(p[n..]);
      WordsSnocExtend(p[n..], c);
      var w := Words(p[n..]);
      assert Words(p)[..|Words(p)| - 1] == [p[..n]] + w[..|w| - 1];
      assert Words(p)[|Words(p)| - 1] == w[|w| - 1];
    }
  }

  /** The case where `p` is one single run. */
  lemma WordsSnocWholeRun(p: string, c: char)
    requires !IsSpaceSymbol(c)
    requires p != [] && RunLength(p) == |p|
    ensures Words(p) == [p]
    ensures Words(p + [c]) == [p + [c]]
  {
    RunLengthSnoc(p, c);
    var q := p + [c];
    assert RunLength(q) == |q|;
    assert q[..|q|] == q && q[|q|..] == [];
    assert p[..|p|] == p && p[|p|..] == [];
    assert !IsSpaceSymbol(p[0]) && !IsSpaceSymbol(q[0]);
  }

  // ---------------------------------------------------------------------------
  // The state machine.
  // ---------------------------------------------------------------------------

  datatype State = Initial | LetterFound | SpaceFound

  /** Only letters and separators occur in `s`. */
  ghost predicate Clean(s: string)
  {
    forall k :: 0 <= k < |s| ==> IsSpaceSymbol(s[k]) || IsLetter(s[k])
  }

  class Parser {
    var state: State
    var buff: string

    constructor ()
      ensures state == Initial && buff == []
    {
      state := Initial;
      buff := [];
    }

    /** `Parse`: resets the machine, then reads the query one byte at a time. */
    method Parse(query: string) returns (r: Result<seq<string>, ComputeError>)
      modifies this
      ensures r == Tokenize(query)
    {
      var tokens: seq<string> := [];
      state := Initial;
      buff := [];
      var i := 0;
      while i < |query|
        invariant 0 <= i <= |query|
        invariant Clean(query[..i])
        invariant (state == Initial) <==> i == 0
        invariant i > 0 ==> !IsSpaceSymbol(query[0])
        invariant state == Initial ==> tokens == [] && buff == []
        invariant state == LetterFound ==>
          !IsSpaceSymbol(query[i - 1]) && Words(query[..i]) == tokens + [buff]
        invariant state == SpaceFound ==>
          IsSpaceSymbol(query[i - 1]) && buff == [] && Words(query[..i]) == tokens
      {
        var symbol := query[i];
        assert query[..i + 1] == query[..i] + [symbol];
        match state {
          case Initial =>
            if IsSpaceSymbol(symbol) {
              return Err(ErrParse);
            }
            if !IsLetter(symbol) {
              return Err(ErrInvalidSymbol);
            }
            WordsSnocStart(query[..i], symbol);
            assert query[..i] == [];
            assert Words(query[..i] + [symbol]) == Words(query[..i]) + [[symbol]];
            assert Words(query[..i + 1]) == [[symbol]];
            assert buff + [symbol] == [symbol];
            buff := buff + [symbol];
            state := LetterFound;
            assert Words(query[..i + 1]) == tokens + [buff];
          case LetterFound =>
            if IsSpaceSymbol(symbol) {
              WordsSnocSpace(query[..i], symbol);
              tokens := tokens + [buff];
              buff := [];
              state := SpaceFound;
            } else {
              if !IsLetter(symbol) {
                return Err(ErrInvalidSymbol);
              }
              WordsSnocExtend(query[..i], symbol);
              ghost var w := tokens + [buff];
              assert w[..|w| - 1] == tokens && w[|w| - 1] == buff;
              buff := buff + [symbol];
              assert Words(query[..i + 1]) == tokens + [buff];
            }
          case SpaceFound =>
            if IsSpaceSymbol(symbol) {
              WordsSnocSpace(query[..i], symbol);
            } else {
              if !IsLetter(symbol) {
                return Err(ErrInvalidSymbol);
              }
              WordsSnocStart(query[..i], symbol);
              assert Words(query[..i + 1]) == tokens + [[symbol]];
              assert buff + [symbol] == [symbol];
              buff := buff + [symbol];
              state := LetterFound;
              assert Words(query[..i + 1]) == tokens + [buff];
            }
        }
        i := i + 1;
      }
      assert query[..i] == query;
      if state == LetterFound {
        tokens := tokens + [buff];
        buff := [];
      }
      r := Ok(tokens);
    }
  }

  // ---------------------------------------------------------------------------
  // Properties of the tokenizer.
  // ---------------------------------------------------------------------------

  /** Every word is a non-empty run of characters of the text, none a separator. */
  lemma {:induction false} WordsAreRuns(s: string)
    ensures forall w :: w in Words(s) ==>
      w != [] && forall k :: 0 <= k < |w| ==> !IsSpaceSymbol(w[k]) && w[k] in s
    decreases |s|
  {
    if s != [] {
      if IsSpaceSymbol(s[0]) {
        WordsAreRuns(s[1..]);
      } else {
        var n := RunLength(s);
        WordsAreRuns(s[n..]);
        forall w | w in Words(s)
          ensures w != [] && forall k :: 0 <= k < |w| ==> !IsSpaceSymbol(w[k]) && w[k] in s
        {
          if w != s[..n] {
            assert w in Words(s[n..]);
            forall k | 0 <= k < |w| ensures w[k] in s {
              assert w[k] in s[n..];
            }
          } else {
            forall k | 0 <= k < |w| ensures w[k] in s {
              assert w[k] == s[k];
            }
          }
        }
      }
    }
  }

  /** A successful parse yields non-empty tokens made only of letters. */
  lemma TokensAreLetters(query: string)
    requires Tokenize(query).Ok?
    ensures forall t :: t in Tokenize(query).value ==>
      t != [] && forall k :: 0 <= k < |t| ==> IsLetter(t[k])
  {
    if query != [] {
      WordsAreRuns(query);
      forall t | t in Tokenize(query).value
        ensures t != [] && forall k :: 0 <= k < |t| ==> IsLetter(t[k])
      {
        forall k | 0 <= k < |t| ensures IsLetter(t[k]) {
          assert t[k] in query;
          var j :| 0 <= j < |query| && query[j] == t[k];
        }
      }
    }
  }

  /** Tokens of letters joined by single spaces. */
  function JoinWords(ts: seq<string>): string
  {
    if ts == [] then []
    else if |ts| == 1 then ts[0]
    else ts[0] + " " + JoinWords(ts[1..])
  }

  ghost predicate IsToken(t: string)
  {
    t != [] && forall k :: 0 <= k < |t| ==> IsLetter(t[k])
  }

  lemma {:induction false} RunLengthOfToken(t: string, rest: string)
    requires forall k :: 0 <= k < |t| ==> IsLetter(t[k])
    requires rest == [] || IsSpaceSymbol(rest[0])
    ensures RunLength(t + rest) == |t|
    decreases |t|
  {
    if t == [] {
    } else {
      assert (t + rest)[1..] == t[1..] + rest;
      RunLengthOfToken(t[1..], rest);
    }
  }

  lemma {:induction false} WordsOfJoin(ts: seq<string>)
    requires forall i :: 0 <= i < |ts| ==> IsToken(ts[i])
    ensures Words(JoinWords(ts)) == ts
    ensures Clean(JoinWords(ts))
    ensures ts != [] ==> IsLetter(JoinWords(ts)[0])
    decreases |ts|
  {
    if ts == [] {
    } else if |ts| == 1 {
      var t := ts[0];
      RunLengthOfToken(t, []);
      assert t + [] == t;
      assert t[..|t|] == t && t[|t|..] == [];
    } else {
      var t := ts[0];
      var rest := JoinWords(ts[1..]);
      WordsOfJoin(ts[1..]);
      var s := t + " " + rest;
      assert s == t + (" " + rest);
      RunLengthOfToken(t, " " + rest);
      assert s[..|t|] == t;
      assert s[|t|..] == " " + rest;
      assert (" " + rest)[1..] == rest;
      assert Words(" " + rest) == Words(rest);
      assert Words(s) == [t] + ts[1..];
      CleanJoin(t, rest);
    }
  }

  /** A token, a blank and a clean text make a clean text that starts with a letter. */
  lemma CleanJoin(t: string, rest: string)
    requires IsToken(t) && Clean(rest)
    ensures Clean(t + " " + rest) && IsLetter((t + " " + rest)[0])
  {
    var s := t + " " + rest;
    forall k | 0 <= k < |s| ensures IsSpaceSymbol(s[k]) || IsLetter(s[k]) {
      if k > |t| {
        assert s[k] == rest[k - |t| - 1];
      }
    }
  }

  /** Joining letter tokens with single spaces and parsing gives the tokens back. */
  lemma TokenizeJoin(ts: seq<string>)
    requires forall i :: 0 <= i < |ts| ==> IsToken(ts[i])
    ensures Tokenize(JoinWords(ts)) == Ok(ts)
  {
    WordsOfJoin(ts);
    var q := JoinWords(ts);
    if ts == [] {
    } else {
      assert !(exists i :: 0 <= i < |q| && !IsSpaceSymbol(q[i]) && !IsLetter(q[i]));
    }
  }
}

/** The compute pipeline: parse the query text, then validate the tokens. */
module Compute {
  import opened Wrappers
  import opened ComputeQuery
  import opened ComputeParser
  import opened ComputeAnalyzer

  /** What `HandleQuery` yields: a parse error unchanged, else the analyzer's verdict. */
  function Process(query: string): Result<Query, ComputeError>
  {
    match Tokenize(query) {
      case Err(e) => Err(e)
      case Ok(tokens) => Analyze(tokens)
    }
  }

  class ComputeService {
    const parser: Parser

    constructor (parser: Parser)
      ensures this.parser == parser
    {
      this.parser := parser;
    }

    /** `Compute.HandleQuery`. */
    method HandleQuery(query: string) returns (r: Result<Query, ComputeError>)
      modifies parser
      ensures r == Process(query)
      ensures Tokenize(query).Err? ==> r == Err(Tokenize(query).error)
    {
      var tokens := parser.Parse(query);
      if tokens.Err? {
        return Err(tokens.error);
      }
      r := Analyze(tokens.value);
    }
  }

  /**
   * A query the pipeline accepts is a known command with the right number of
   * arguments, each a non-empty run of letter bytes; and a rejected query
   * carries the parser's or the analyzer's error.
   */
  lemma ProcessAccepted(query: string)
    requires Process(query).Ok?
    ensures var q := Process(query).value;
      && (|| (q.command == SetCommand && |q.arguments| == 2)
          || (q.command == GetCommand && |q.arguments| == 1)
          || (q.command == DelCommand && |q.arguments| == 1))
      && forall k :: 0 <= k < |q.arguments| ==> IsToken(q.arguments[k])
  {
    TokensAreLetters(query);
    var tokens := Tokenize(query).value;
    var q := Process(query).value;
    forall k | 0 <= k < |q.arguments|
      ensures IsToken(q.arguments[k])
    {
      assert q.arguments[k] == tokens[k + 1];
      assert tokens[k + 1] in tokens;
    }
  }

  /** Any command line built from a known command and letter tokens is accepted as written. */
  lemma ProcessJoined(command: Command, arguments: seq<string>)
    requires || (command == SetCommand && |arguments| == 2)
             || (command == GetCommand && |arguments| == 1)
             || (command == DelCommand && |arguments| == 1)
    requires forall k :: 0 <= k < |arguments| ==> IsToken(arguments[k])
    ensures Process(JoinWords([command] + arguments)) == Ok(Query(command, arguments))
  {
    var ts := [command] + arguments;
    forall i | 0 <= i < |ts| ensures IsToken(ts[i]) {
      if i > 0 {
        assert ts[i] == arguments[i - 1];
      }
    }
    TokenizeJoin(ts);
    assert ts[1..] == arguments;
  }
}

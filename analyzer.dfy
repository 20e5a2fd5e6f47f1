/** The query validator: checks the command word and the token count. */
module ComputeAnalyzer {
  import opened Wrappers
  import opened ComputeQuery

  /** `Analyzer.Analyze`. */
  function Analyze(tokens: seq<string>): (r: Result<Query, ComputeError>)
    // the error cases, in the order the source checks them
    ensures tokens == [] ==> r == Err(InvalidCommand)
    ensures tokens != [] && !IsCommandWord(tokens[0]) ==> r == Err(InvalidCommand)
    ensures tokens != [] && IsCommandWord(tokens[0]) && |tokens| != ArgumentsNumber(tokens[0]) ==>
      r == Err(InvalidArguments)
    // success: the mapped command and the tokens after the command word
    ensures r.Ok? ==> tokens != [] && r.value.command == tokens[0] && r.value.arguments == tokens[1..]
    ensures r.Ok? ==>
      || (r.value.command == SetCommand && |r.value.arguments| == 2)
      || (r.value.command == GetCommand && |r.value.arguments| == 1)
      || (r.value.command == DelCommand && |r.value.arguments| == 1)
  {
    if |tokens| == 0 then Err(InvalidCommand)
    else match MapCommand(tokens[0]) {
      case Err(_) => Err(InvalidCommand)
      case Ok(command) =>
        if |tokens| != ArgumentsNumber(command) then Err(InvalidArguments)
        else Ok(NewQuery(command, tokens[1..]))
    }
  }

  /** The analyzer accepts exactly the well-formed commands. */
  lemma AnalyzeAccepts(tokens: seq<string>)
    ensures Analyze(tokens).Ok? <==>
      || (|tokens| == 3 && tokens[0] == "SET")
      || (|tokens| == 2 && (tokens[0] == "GET" || tokens[0] == "DEL"))
  {
  }
}

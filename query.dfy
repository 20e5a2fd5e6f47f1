/**
 * The command vocabulary of the compute package: the three commands, the
 * number of tokens each takes (the command word included), the word-to-command
 * table, the parsed query record, and the package's error values.
 */
module ComputeQuery {
  import opened Wrappers

  /** `compute.Command` is a Go string type; its values are the command words. */
  type Command = string

  const SetCommand: Command := "SET"
  const GetCommand: Command := "GET"
  const DelCommand: Command := "DEL"

  /** Token counts, counting the command word itself. */
  const SetArgumentsNumber: int := 3
  const GetArgumentsNumber: int := 2
  const DelArgumentsNumber: int := 2

  /** `commandMap`: the only words that name a command (case-sensitive). */
  const CommandMap: map<string, Command> :=
    map["SET" := SetCommand, "GET" := GetCommand, "DEL" := DelCommand]

  /** `queryMap`: the arity table. */
  const QueryMap: map<Command, int> :=
    map[SetCommand := SetArgumentsNumber, GetCommand := GetArgumentsNumber, DelCommand := DelArgumentsNumber]

  /** The error values of the compute package, with their `Error()` text. */
  datatype ComputeError = ErrParse | ErrInvalidSymbol | InvalidCommand | InvalidArguments {
    function Message(): string
    {
      match this
      case ErrParse => "can't parse query"
      case ErrInvalidSymbol => "invalid symbol"
      case InvalidCommand => "invalid command"
      case InvalidArguments => "invalid arguments"
    }
  }

  /** No compute error reads "internal error": each differs from it in its first or third letter. */
  lemma MessageNotInternal(e: ComputeError)
    ensures e.Message() != "internal error"
  {
    var fallback := "internal error";
    assert fallback[0] == 'i' && fallback[2] == 't';
    match e
    case ErrParse => assert e.Message()[0] == 'c';
    case ErrInvalidSymbol => assert e.Message()[2] == 'v';
    case InvalidCommand => assert e.Message()[2] == 'v';
    case InvalidArguments => assert e.Message()[2] == 'v';
  }

  /** A validated query: the command and the tokens after the command word. */
  datatype Query = Query(command: Command, arguments: seq<string>) {
    function GetCommand(): Command { command }
    function GetArguments(): seq<string> { arguments }
  }

  function NewQuery(command: Command, arguments: seq<string>): Query
  {
    Query(command, arguments)
  }

  /** The getters hand back exactly what the query was built from. */
  lemma NewQueryGetters(command: Command, arguments: seq<string>)
    ensures NewQuery(command, arguments).GetCommand() == command
    ensures NewQuery(command, arguments).GetArguments() == arguments
  {
  }

  predicate IsCommandWord(word: string)
  {
    word == "SET" || word == "GET" || word == "DEL"
  }

  /** `mapCommand`: looks a word up in the command table. */
  function MapCommand(word: string): (r: Result<Command, ComputeError>)
    ensures r.Ok? <==> IsCommandWord(word)
    ensures r.Ok? ==> r.value == word
    ensures r.Err? ==> r.error == InvalidCommand
  {
    if word in CommandMap then Ok(CommandMap[word]) else Err(InvalidCommand)
  }

  /** `queryMap[command]`, with Go's zero value for a command missing from the map. */
  function ArgumentsNumber(command: Command): (n: int)
    ensures command == SetCommand ==> n == 3
    ensures command == GetCommand || command == DelCommand ==> n == 2
    ensures !IsCommandWord(command) ==> n == 0
  {
    if command in QueryMap then QueryMap[command] else 0
  }
}

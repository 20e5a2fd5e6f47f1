/**
 * The database front end: a query line goes through the compute pipeline,
 * and a valid query is carried out on the table and answered with one of a
 * few fixed reply shapes.
 */
module Service {
  import opened Wrappers
  import opened ComputeQuery
  import opened ComputeParser
  import opened Compute
  import opened WalUnit
  import opened WalReplay
  import opened EngineMemory

  /** The reply a query gets, and the table it leaves behind. */
  datatype Response = Response(reply: string, data: Table)

  /**
   * `Database.HandleQuery` on a table: a rejected query is answered with
   * "[error] " and the error text; SET and DEL answer "[OK]"; GET answers
   * "[ok] " and the value, or "[error] not found".
   */
  function Respond(t: Table, queryStr: string): Response
  {
    match Process(queryStr)
    case Err(e) => Response("[error] " + e.Message(), t)
    case Ok(q) =>
      ProcessAccepted(queryStr);
      if q.command == SetCommand then Response("[OK]", t[q.arguments[0] := q.arguments[1]])
      else if q.command == GetCommand then
        if q.arguments[0] in t then Response("[ok] " + t[q.arguments[0]], t)
        else Response("[error] not found", t)
      else if q.command == DelCommand then Response("[OK]", t - {q.arguments[0]})
      else Response("[error] internal error", t)
  }

  /** The fallback reply after the command switch is never given: the pipeline only passes SET, GET and DEL. */
  lemma NoInternalError(t: Table, queryStr: string)
    ensures Respond(t, queryStr).reply != "[error] internal error"
  {
    match Process(queryStr)
    case Err(e) =>
      ErrorReplyNotInternal(e);
    case Ok(q) =>
      ProcessAccepted(queryStr);
      if q.command == GetCommand && q.arguments[0] in t {
        assert ("[ok] " + t[q.arguments[0]])[1] == 'o' && "[error] internal error"[1] == 'e';
      }
  }

  /** No pipeline error is answered with the fallback reply's text. */
  lemma ErrorReplyNotInternal(e: ComputeError)
    ensures "[error] " + e.Message() != "[error] internal error"
  {
    assert ("[error] " + e.Message())[8..] == e.Message();
    assert "[error] internal error"[8..] == "internal error";
    MessageNotInternal(e);
  }

  /**
   * A query the pipeline rejects leaves the table alone; an accepted write
   * changes it exactly as replaying its WAL unit would; a GET changes nothing.
   */
  lemma QueryActsAsUnit(t: Table, queryStr: string)
    ensures Process(queryStr).Err? ==> Respond(t, queryStr).data == t
    ensures Process(queryStr).Ok? ==>
      var q := Process(queryStr).value;
      && WellFormed(Unit(q.command, q.arguments))
      && Respond(t, queryStr).data == ApplyUnit(t, Unit(q.command, q.arguments))
  {
    if Process(queryStr).Ok? {
      ProcessAccepted(queryStr);
    }
  }

  /** Every reply starts with "[OK]", "[ok] " or "[error] ". */
  lemma ReplyShapes(t: Table, queryStr: string)
    ensures var r := Respond(t, queryStr).reply;
      r == "[OK]" || (|r| >= 5 && r[..5] == "[ok] ") || (|r| >= 8 && r[..8] == "[error] ")
  {
    match Process(queryStr)
    case Err(e) =>
      assert ("[error] " + e.Message())[..8] == "[error] ";
    case Ok(q) =>
      ProcessAccepted(queryStr);
      if q.command == GetCommand && q.arguments[0] in t {
        assert ("[ok] " + t[q.arguments[0]])[..5] == "[ok] ";
      }
  }

  /** Setting a key and then reading it back answers with the value set. */
  lemma SetThenGetReplies(t: Table, key: string, value: string)
    requires IsToken(key) && IsToken(value)
    ensures var after := Respond(t, JoinWords([SetCommand, key, value]));
      && after.reply == "[OK]"
      && Respond(after.data, JoinWords([GetCommand, key])) == Response("[ok] " + value, after.data)
  {
    ProcessJoined(SetCommand, [key, value]);
    ProcessJoined(GetCommand, [key]);
  }

  /** Deleting a key and then reading it answers "not found". */
  lemma DelThenGetReplies(t: Table, key: string)
    requires IsToken(key)
    ensures var after := Respond(t, JoinWords([DelCommand, key]));
      && after.reply == "[OK]" && key !in after.data
      && Respond(after.data, JoinWords([GetCommand, key])) == Response("[error] not found", after.data)
  {
    ProcessJoined(DelCommand, [key]);
    ProcessJoined(GetCommand, [key]);
  }

  class Database {
    const compute: ComputeService
    const table: MemoryTable

    constructor (compute: ComputeService, table: MemoryTable)
      ensures this.compute == compute && this.table == table
    {
      this.compute := compute;
      this.table := table;
    }

    /** `HandleQuery`: run the pipeline, then dispatch on the command. */
    method HandleQuery(queryStr: string) returns (reply: string)
      modifies compute.parser, table
      ensures Response(reply, table.data) == Respond(old(table.data), queryStr)
    {
      var query := compute.HandleQuery(queryStr);
      if query.Err? {
        return "[error] " + query.error.Message();
      }
      var command := query.value.GetCommand();
      var arguments := query.value.GetArguments();
      if command == SetCommand {
        ProcessAccepted(queryStr);
        table.Set(arguments[0], arguments[1]);
        return "[OK]";
      } else if command == GetCommand {
        ProcessAccepted(queryStr);
        var val, ok := table.Get(arguments[0]);
        if !ok {
          return "[error] not found";
        }
        return "[ok] " + val;
      } else if command == DelCommand {
        ProcessAccepted(queryStr);
        table.Del(arguments[0]);
        return "[OK]";
      }
      return "[error] internal error";
    }
  }
}

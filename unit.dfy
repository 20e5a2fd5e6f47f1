/**
 * The WAL record: a command tag and its arguments, and the pending entry that
 * pairs a record with the completion channel its writer waits on.
 */
module WalUnit {
  import opened Wrappers
  import opened ComputeQuery

  /** One mutation: `Unit{Command, Arguments}`. */
  datatype Unit = Unit(command: string, arguments: seq<string>)

  /** A flushed group of units, written and decoded as one gob value. */
  type Batch = seq<Unit>

  /** `NewUnit`: the tag is the command's string name, the arguments are kept as given. */
  function NewUnit(command: Command, arguments: seq<string>): Unit
  {
    Unit(command, arguments)
  }

  /**
   * Replay reads `Arguments[0]` and, for SET, `Arguments[1]`; `NewUnit` checks
   * nothing, so the arity is a precondition of replay.
   */
  predicate WellFormed(u: Unit)
  {
    && (u.command == SetCommand ==> |u.arguments| >= 2)
    && (u.command == DelCommand ==> |u.arguments| >= 1)
  }

  predicate BatchWellFormed(b: Batch)
  {
    forall i :: 0 <= i < |b| ==> WellFormed(b[i])
  }

  /**
   * A unit built from a query the analyzer accepted has the arity replay
   * needs, and its tag is the command word ("SET" for SET, "DEL" for DEL).
   */
  lemma NewUnitFromQuery(q: Query)
    requires || (q.command == SetCommand && |q.arguments| == 2)
             || (q.command == GetCommand && |q.arguments| == 1)
             || (q.command == DelCommand && |q.arguments| == 1)
    ensures WellFormed(NewUnit(q.command, q.arguments))
    ensures NewUnit(q.command, q.arguments).arguments == q.arguments
    ensures q.command == SetCommand ==> NewUnit(q.command, q.arguments).command == "SET"
    ensures q.command == DelCommand ==> NewUnit(q.command, q.arguments).command == "DEL"
  {
  }

  /** The errors `Writer.Write` returns, one per failing step. */
  datatype WriteError = CantCreateSegment | CantCloseFile | CantEncodeData | CantWriteData

  /** What has been sent on a completion channel: nothing yet, or a write result (None is a nil error). */
  datatype Delivery = Pending | Delivered(result: Option<WriteError>)

  /** The `chan error` a pushing caller waits on. */
  class Completion {
    var delivery: Delivery

    constructor ()
      ensures delivery == Pending
    {
      delivery := Pending;
    }
  }

  /** `UnitData`: one unit and its own completion channel. */
  datatype UnitData = UnitData(unit: Unit, errChan: Completion)

  /** The units of a list of pending entries, in order. */
  function UnitsOf(entries: seq<UnitData>): (units: Batch)
    ensures |units| == |entries|
    ensures forall i :: 0 <= i < |entries| ==> units[i] == entries[i].unit
  {
    if entries == [] then [] else [entries[0].unit] + UnitsOf(entries[1..])
  }
}

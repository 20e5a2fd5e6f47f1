/**
 * The WAL staging buffer: pending entries in push order, and a one-slot
 * oversize channel that tells the watcher a flush is due.
 */
module WalBuffer {
  import opened Wrappers
  import opened WalUnit

  class Buffer {
    /** The entry count at which a push raises the oversize signal. */
    const limit: int
    /** `values`: the entries pushed since the last `PopAll`, oldest first. */
    var values: seq<UnitData>
    /** The number of signals waiting in the oversize channel, whose capacity is one. */
    var oversize: nat

    ghost predicate Valid()
      reads this
    {
      oversize <= 1
    }

    /** `NewBuffer`: no entries, no signal. */
    constructor (limit: int)
      ensures Valid()
      ensures this.limit == limit && values == [] && oversize == 0
    {
      this.limit := limit;
      values := [];
      oversize := 0;
    }

    /**
     * `Push`: appends the unit with a fresh completion channel. When the
     * buffer has reached its limit and no signal is pending, the push signals
     * the watcher; `ctxDone` says the caller's context won the select, in
     * which case no signal is sent and nil is returned, the entry staying
     * queued all the same.
     */
    method Push(unit: Unit, ctxDone: bool) returns (errChan: Option<Completion>)
      requires Valid()
      modifies this
      ensures Valid()
      ensures |values| == |old(values)| + 1 && values[..|old(values)|] == old(values)
      ensures values[|values| - 1].unit == unit
      ensures fresh(values[|values| - 1].errChan) && values[|values| - 1].errChan.delivery == Pending
      ensures var signal := |values| >= limit && old(oversize) == 0;
        && oversize == (if signal && !ctxDone then 1 else old(oversize))
        && errChan == (if signal && ctxDone then None else Some(values[|values| - 1].errChan))
    {
      var ch := new Completion();
      values := values + [UnitData(unit, ch)];
      if |values| >= limit && oversize == 0 {
        if ctxDone {
          return None;
        }
        oversize := oversize + 1;
      }
      return Some(ch);
    }

    /** `PopAll`: hands over every entry in push order and empties the buffer; nothing (nil) when empty. */
    method PopAll() returns (entries: seq<UnitData>)
      modifies this
      ensures entries == old(values)
      ensures values == []
      ensures oversize == old(oversize)
    {
      if |values| == 0 {
        return [];
      }
      entries := values;
      values := [];
    }

    /** A receive from `GetOversize()`: takes the pending signal, if any. */
    method TakeOversize() returns (signalled: bool)
      requires Valid()
      modifies this
      ensures Valid()
      ensures signalled <==> old(oversize) == 1
      ensures oversize == 0 && values == old(values)
    {
      signalled := oversize == 1;
      oversize := 0;
    }
  }
}

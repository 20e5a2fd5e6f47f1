/**
 * The in-memory table the engine keeps: a map from keys to values that
 * `Set` overwrites, `Del` removes from and `Get` reads.
 */
module EngineMemory {
  import opened WalUnit
  import opened WalReplay

  /** What `Get` answers for a key: its value and true, or "" and false when absent. */
  function Lookup(data: Table, key: string): (string, bool)
  {
    if key in data then (data[key], true) else ("", false)
  }

  class MemoryTable {
    var data: Table

    /** `NewMemoryTable`: an empty table. */
    constructor ()
      ensures data == map[]
    {
      data := map[];
    }

    /** `Set`: the key now holds the value; what replaying `SET key value` does. */
    method Set(key: string, value: string)
      modifies this
      ensures data == old(data)[key := value]
      ensures data == ApplyUnit(old(data), Unit("SET", [key, value]))
    {
      data := data[key := value];
    }

    /** `Get`: reads the table and changes nothing. */
    method Get(key: string) returns (value: string, found: bool)
      ensures found <==> key in data
      ensures found ==> value == data[key]
      ensures !found ==> value == ""
      ensures (value, found) == Lookup(data, key)
    {
      if key in data {
        return data[key], true;
      }
      return "", false;
    }

    /** `Del`: the key is gone, present or not before; what replaying `DEL key` does. */
    method Del(key: string)
      modifies this
      ensures data == old(data) - {key}
      ensures data == ApplyUnit(old(data), Unit("DEL", [key]))
    {
      data := data - {key};
    }
  }

  /** A `Get` after a `Set` of the same key returns that value; other keys read as before. */
  lemma SetThenGet(data: Table, key: string, value: string, other: string)
    ensures Lookup(data[key := value], key) == (value, true)
    ensures other != key ==> Lookup(data[key := value], other) == Lookup(data, other)
  {
  }

  /** After `Del` the key reads as absent; other keys read as before; deleting an absent key changes nothing. */
  lemma DelThenGet(data: Table, key: string, other: string)
    ensures Lookup(data - {key}, key) == ("", false)
    ensures other != key ==> Lookup(data - {key}, other) == Lookup(data, other)
    ensures key !in data ==> data - {key} == data
  {
  }
}

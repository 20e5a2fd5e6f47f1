/**
 * What a sequence of WAL units means: the key/value table it produces when
 * replayed. SET overwrites, DEL removes, any other tag is ignored; this is the
 * rule shared by `Storage.applyUnits` and `Compaction.readUnits`.
 */
module WalReplay {
  import opened Wrappers
  import opened ComputeQuery
  import opened WalUnit

  type Table = map<string, string>

  /** The effect of one unit on the table. */
  function ApplyUnit(m: Table, u: Unit): (r: Table)
    requires WellFormed(u)
    ensures u.command == SetCommand ==> r == m[u.arguments[0] := u.arguments[1]]
    ensures u.command == DelCommand ==> r == m - {u.arguments[0]}
    ensures u.command != SetCommand && u.command != DelCommand ==> r == m
  {
    if u.command == SetCommand then m[u.arguments[0] := u.arguments[1]]
    else if u.command == DelCommand then m - {u.arguments[0]}
    else m
  }

  /** Units applied left to right. */
  function ApplyUnits(m: Table, us: Batch): Table
    requires BatchWellFormed(us)
  {
    if us == [] then m else ApplyUnit(ApplyUnits(m, us[..|us| - 1]), us[|us| - 1])
  }

  predicate BatchesWellFormed(bs: seq<Batch>)
  {
    forall j :: 0 <= j < |bs| ==> BatchWellFormed(bs[j])
  }

  /** Batches applied in order, each one unit by unit. */
  function ApplyBatches(m: Table, bs: seq<Batch>): Table
    requires BatchesWellFormed(bs)
  {
    if bs == [] then m else ApplyUnits(ApplyBatches(m, bs[..|bs| - 1]), bs[|bs| - 1])
  }

  /** Replaying a concatenation is replaying one part after the other. */
  lemma {:induction false} ApplyUnitsAppend(m: Table, a: Batch, b: Batch)
    requires BatchWellFormed(a) && BatchWellFormed(b)
    ensures BatchWellFormed(a + b)
    ensures ApplyUnits(m, a + b) == ApplyUnits(ApplyUnits(m, a), b)
    decreases |b|
  {
    if b == [] {
      assert a + b == a;
    } else {
      var ab := a + b;
      assert ab[..|ab| - 1] == a + b[..|b| - 1];
      ApplyUnitsAppend(m, a, b[..|b| - 1]);
      assert ab[|ab| - 1] == b[|b| - 1];
    }
  }

  lemma {:induction false} ApplyBatchesAppend(m: Table, a: seq<Batch>, b: seq<Batch>)
    requires BatchesWellFormed(a) && BatchesWellFormed(b)
    ensures BatchesWellFormed(a + b)
    ensures ApplyBatches(m, a + b) == ApplyBatches(ApplyBatches(m, a), b)
    decreases |b|
  {
    if b == [] {
      assert a + b == a;
    } else {
      var ab := a + b;
      assert ab[..|ab| - 1] == a + b[..|b| - 1];
      ApplyBatchesAppend(m, a, b[..|b| - 1]);
      assert ab[|ab| - 1] == b[|b| - 1];
    }
  }

  /** Batches in order mean the same as their units in one flat list. */
  function Flatten(bs: seq<Batch>): (r: Batch)
    ensures |bs| == 1 ==> r == bs[0]
  {
    if bs == [] then [] else Flatten(bs[..|bs| - 1]) + bs[|bs| - 1]
  }

  lemma {:induction false} ApplyBatchesFlatten(m: Table, bs: seq<Batch>)
    requires BatchesWellFormed(bs)
    ensures BatchWellFormed(Flatten(bs))
    ensures ApplyBatches(m, bs) == ApplyUnits(m, Flatten(bs))
    decreases |bs|
  {
    if bs != [] {
      ApplyBatchesFlatten(m, bs[..|bs| - 1]);
      ApplyUnitsAppend(m, Flatten(bs[..|bs| - 1]), bs[|bs| - 1]);
    }
  }

  /**
   * The last write a batch makes to a key: None when the batch never touches
   * it, Some(Some(v)) when its last touch is SET k v, Some(None) for DEL k.
   */
  function LastWrite(us: Batch, k: string): Option<Option<string>>
    requires BatchWellFormed(us)
  {
    if us == [] then None
    else
      var u := us[|us| - 1];
      if u.command == SetCommand && u.arguments[0] == k then Some(Some(u.arguments[1]))
      else if u.command == DelCommand && u.arguments[0] == k then Some(None)
      else LastWrite(us[..|us| - 1], k)
  }

  /** After a replay, a key holds what the batch last wrote to it, or its old value if untouched. */
  lemma {:induction false} ApplyUnitsLastWrite(m: Table, us: Batch, k: string)
    requires BatchWellFormed(us)
    ensures LastWrite(us, k) == None ==>
      (k in ApplyUnits(m, us) <==> k in m) && (k in m ==> ApplyUnits(m, us)[k] == m[k])
    ensures LastWrite(us, k) == Some(None) ==> k !in ApplyUnits(m, us)
    ensures forall v :: LastWrite(us, k) == Some(Some(v)) ==>
      k in ApplyUnits(m, us) && ApplyUnits(m, us)[k] == v
    decreases |us|
  {
    if us != [] {
      ApplyUnitsLastWrite(m, us[..|us| - 1], k);
    }
  }

  /**
   * Replaying a batch a second time changes nothing: a redelivered batch is
   * harmless, which is what lets a replica or a recovery re-apply a segment.
   */
  lemma ApplyUnitsIdempotent(m: Table, us: Batch)
    requires BatchWellFormed(us)
    ensures ApplyUnits(ApplyUnits(m, us), us) == ApplyUnits(m, us)
  {
    var once := ApplyUnits(m, us);
    var twice := ApplyUnits(once, us);
    forall k
      ensures (k in twice <==> k in once) && (k in twice ==> twice[k] == once[k])
    {
      ApplyUnitsLastWrite(m, us, k);
      ApplyUnitsLastWrite(once, us, k);
      match LastWrite(us, k)
      case None =>
      case Some(None) =>
      case Some(Some(v)) =>
        assert k in once && once[k] == v;
        assert k in twice && twice[k] == v;
    }
  }
}

/** The in-memory key-value store with ordered write batches. */
module Storage {
  import opened Core

  type Entries = map<Bytes, Bytes>

  datatype Operation = Put(key: Bytes, value: Bytes) | Erase(key: Bytes)

  function ApplyOperation(entries: Entries, op: Operation): Entries {
    match op
    case Put(key, value) => entries[key := value]
    case Erase(key) => entries - {key}
  }

  /** A batch acts in order: a later operation on a key wins. */
  function ApplyBatch(entries: Entries, batch: seq<Operation>): Entries
    decreases |batch|
  {
    if batch == [] then entries else ApplyBatch(ApplyOperation(entries, batch[0]), batch[1..])
  }

  lemma {:induction false} ApplyBatchAppend(entries: Entries, batch: seq<Operation>, op: Operation)
    ensures ApplyBatch(entries, batch + [op]) == ApplyOperation(ApplyBatch(entries, batch), op)
    decreases |batch|
  {
    hide ApplyOperation;
    if batch == [] {
      assert [] + [op] == [op] && [op][1..] == [];
      assert ApplyBatch(entries, [op]) == ApplyBatch(ApplyOperation(entries, op), []);
    } else {
      assert (batch + [op])[1..] == batch[1..] + [op];
      ApplyBatchAppend(ApplyOperation(entries, batch[0]), batch[1..], op);
    }
  }

  /** The last operation on a key is the i-th. */
  ghost predicate LastOn(batch: seq<Operation>, i: nat, key: Bytes) {
    i < |batch| && batch[i].key == key && forall j :: i < j < |batch| ==> batch[j].key != key
  }

  /** What a batch leaves under a key: what its last operation on it says, or what was there. */
  lemma {:induction false} BatchExactly(entries: Entries, batch: seq<Operation>, key: Bytes)
    ensures forall i: nat :: LastOn(batch, i, key) ==>
      (batch[i].Put? ==> key in ApplyBatch(entries, batch) && ApplyBatch(entries, batch)[key] == batch[i].value) &&
      (batch[i].Erase? ==> key !in ApplyBatch(entries, batch))
    ensures (forall i :: 0 <= i < |batch| ==> batch[i].key != key) ==>
      (key in ApplyBatch(entries, batch) <==> key in entries) &&
      (key in entries ==> ApplyBatch(entries, batch)[key] == entries[key])
    decreases |batch|
  {
    if batch != [] {
      var next, rest := ApplyOperation(entries, batch[0]), batch[1..];
      BatchExactly(next, rest, key);
      assert forall j :: 0 <= j < |rest| ==> rest[j] == batch[j + 1];
      forall i: nat | LastOn(batch, i, key)
        ensures batch[i].Put? ==> key in ApplyBatch(entries, batch) && ApplyBatch(entries, batch)[key] == batch[i].value
        ensures batch[i].Erase? ==> key !in ApplyBatch(entries, batch)
      {
        if i > 0 {
          assert LastOn(rest, i - 1, key);
        } else {
          forall j | 0 <= j < |rest| ensures rest[j].key != key { assert rest[j] == batch[j + 1]; }
        }
      }
    }
  }

  class MemoryStore {
    var entries: Entries

    constructor ()
      ensures entries == map[]
    {
      entries := map[];
    }

    method Get(key: Bytes) returns (value: Option<Bytes>)
      ensures value == if key in entries then Some(entries[key]) else None
    {
      if key !in entries {
        return None;
      }
      return Some(entries[key]);
    }

    method Apply(batch: seq<Operation>)
      modifies this
      ensures entries == ApplyBatch(old(entries), batch)
    {
      var i := 0;
      while i < |batch|
        invariant i <= |batch|
        invariant ApplyBatch(entries, batch[i..]) == ApplyBatch(old(entries), batch)
      {
        assert batch[i..][1..] == batch[i + 1..];
        match batch[i] {
          case Put(key, value) => entries := entries[key := value];
          case Erase(key) => entries := entries - {key};
        }
        i := i + 1;
      }
    }
  }
}

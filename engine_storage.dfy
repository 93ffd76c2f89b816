/** The older record store of the engine package
    (internal/database/engine/storage.go): the same ordered index, but a
    write replaces the whole record whether or not its id is present. Its
    records have the same shape as the storage package's, so the model
    reuses that `Record`. */
module EngineStorage {
  import opened Wrappers
  import opened OrderedIndex
  import opened RecordStore

  /** `Record.Less`. The source panics when handed something that is not a
      record; the model's types rule that out. */
  predicate RecordLess(r: Record, than: Record)
  {
    r.id < than.id
  }

  class Storage {
    const name: string
    var records: map<nat, Record>
    var ids: seq<nat>

    ghost predicate Valid()
      reads this
    {
      Indexes(ids, records)
    }

    /** `New`: an empty store for entity `name`. */
    constructor (name: string)
      ensures Valid() && this.name == name && records == map[]
    {
      this.name := name;
      records := map[];
      ids := [];
    }

    /** `ReplaceOrInsert`: the record goes in whole; the one it displaced,
        if any, comes back. */
    method InsertOrUpdateRecord(r: Record) returns (replaced: Option<Record>)
      requires Valid()
      modifies this
      ensures Valid()
      ensures replaced == if r.id in old(records) then Some(old(records)[r.id]) else None
      ensures records == old(records)[r.id := r]
    {
      if r.id in records {
        replaced := Some(records[r.id]);
      } else {
        replaced := None;
      }
      records := records[r.id := r];
      ids := Insert(ids, r.id);
    }

    method GetRecord(id: nat) returns (r: Option<Record>)
      requires Valid()
      ensures r.Some? <==> id in records
      ensures r.Some? ==> r.value == records[id] && r.value.id == id
    {
      if id in records {
        r := Some(records[id]);
      } else {
        r := None;
      }
    }

    method IterateOverRecords(visit: Record -> bool) returns (visited: seq<Record>)
      requires Valid()
      ensures visited == VisitUntil(Ascending(records), visit)
    {
      var order, table := ids, records;
      IndexIsAscending(order, table);
      ghost var asc := InOrder(order, table);
      visited := [];
      var i := 0;
      while i < |order|
        invariant 0 <= i <= |order|
        invariant VisitUntil(asc, visit) == visited + VisitUntil(asc[i..], visit)
      {
        var rec := table[order[i]];
        assert rec == asc[i];
        VisitStep(asc, i, visit);
        Regroup(visited, [rec], VisitUntil(asc[i + 1..], visit));
        visited := visited + [rec];
        if !visit(rec) {
          return;
        }
        i := i + 1;
      }
      assert visited + VisitUntil(asc[i..], visit) == visited + [];
    }

    method DeleteRecord(id: nat) returns (removed: Option<Record>)
      requires Valid()
      modifies this
      ensures Valid()
      ensures removed == if id in old(records) then Some(old(records)[id]) else None
      ensures records == old(records) - {id}
    {
      if id in records {
        removed := Some(records[id]);
      } else {
        removed := None;
      }
      records := records - {id};
      ids := Remove(ids, id);
    }

    method Len() returns (n: nat)
      requires Valid()
      ensures n == |records|
    {
      CountIsSize(ids, records.Keys);
      n := |ids|;
    }
  }

  /** With a callback that accepts every record, a traversal of the older
      store visits as many records as `Len` counts, in ascending id order. */
  lemma VisitAllCountsLen(records: map<nat, Record>, visited: seq<Record>)
    requires WellKeyed(records)
    requires visited == VisitUntil(Ascending(records), _ => true)
    ensures visited == Ascending(records)
    ensures |visited| == |records|
    ensures forall i, j :: 0 <= i < j < |visited| ==> Less(visited[i], visited[j])
  {
    VisitUntilShape(Ascending(records), _ => true);
    AscendingLists(records);
  }
}

/** One entity's record store (internal/database/storage/storage.go): a
    B-tree of records ordered by id, modelled as a map from id to record
    plus the ids in ascending order. */
module RecordStore {
  import opened Wrappers
  import opened StorageData
  import opened OrderedIndex

  /** A record: its id and a pointer to its attributes, `None` for a nil
      pointer (a NEW command sent without attributes stores one). */
  datatype Record = Record(id: nat, data: Option<Data>)

  /** `lessFunc`, the B-tree's order. */
  predicate Less(a: Record, b: Record)
  {
    a.id < b.id
  }

  /** Every record sits under its own id. */
  ghost predicate WellKeyed(records: map<nat, Record>)
  {
    forall id :: id in records ==> records[id].id == id
  }

  /** `ids` is the ascending list of the keys of `records`. */
  ghost predicate Indexes(ids: seq<nat>, records: map<nat, Record>)
  {
    WellKeyed(records) && Increasing(ids) && forall x :: x in ids <==> x in records
  }

  /** The records in ascending id order: a full `Ascend` traversal. */
  ghost function Ascending(records: map<nat, Record>): seq<Record>
  {
    InOrder(SortedIds(records.Keys), records)
  }

  /** The ascending traversal lists every stored record exactly once, in
      strictly increasing id order, and nothing else. */
  lemma AscendingLists(records: map<nat, Record>)
    requires WellKeyed(records)
    ensures |Ascending(records)| == |records|
    ensures forall i, j :: 0 <= i < j < |Ascending(records)| ==> Less(Ascending(records)[i], Ascending(records)[j])
    ensures forall r :: r in Ascending(records) <==> r.id in records && records[r.id] == r
  {
    var ids := SortedIds(records.Keys);
    CountIsSize(ids, records.Keys);
    var rs := Ascending(records);
    assert forall i :: 0 <= i < |rs| ==> rs[i].id == ids[i] by {
      forall i | 0 <= i < |rs| ensures rs[i].id == ids[i] {
        assert rs[i] == records[ids[i]];
      }
    }
    forall r ensures r in rs <==> r.id in records && records[r.id] == r {
      if r.id in records && records[r.id] == r {
        var i :| 0 <= i < |ids| && ids[i] == r.id;
        assert rs[i] == r;
      }
    }
  }

  /** The order kept beside the map is the one the key set determines. */
  lemma IndexIsAscending(ids: seq<nat>, records: map<nat, Record>)
    requires Indexes(ids, records)
    ensures InOrder(ids, records) == Ascending(records)
  {
    IncreasingUnique(ids, SortedIds(records.Keys));
  }

  /** What a B-tree traversal with callback `visit` hands to the callback:
      records in order, up to and including the first for which it returns
      false. */
  function VisitUntil(rs: seq<Record>, visit: Record -> bool): seq<Record>
  {
    if rs == [] then []
    else if visit(rs[0]) then [rs[0]] + VisitUntil(rs[1..], visit)
    else [rs[0]]
  }

  /** The traversal hands over a prefix of the records; every record but
      the last it hands over was accepted, and it stops early only at a
      record the callback rejects. A callback that accepts everything sees
      every record. */
  lemma {:induction false} VisitUntilShape(rs: seq<Record>, visit: Record -> bool)
    ensures VisitUntil(rs, visit) <= rs
    ensures forall i :: 0 <= i < |VisitUntil(rs, visit)| - 1 ==> visit(rs[i])
    ensures |VisitUntil(rs, visit)| < |rs| ==> |VisitUntil(rs, visit)| > 0 && !visit(rs[|VisitUntil(rs, visit)| - 1])
    ensures (forall i :: 0 <= i < |rs| ==> visit(rs[i])) ==> VisitUntil(rs, visit) == rs
  {
    if rs != [] && visit(rs[0]) {
      VisitUntilShape(rs[1..], visit);
    }
  }

  lemma VisitStep(s: seq<Record>, i: nat, visit: Record -> bool)
    requires i < |s|
    ensures VisitUntil(s[i..], visit) ==
            if visit(s[i]) then [s[i]] + VisitUntil(s[i + 1..], visit) else [s[i]]
  {
    assert s[i..][1..] == s[i + 1..];
  }

  lemma Regroup<T>(a: seq<T>, b: seq<T>, c: seq<T>)
    ensures a + (b + c) == (a + b) + c
  {
  }

  /** A full traversal, in either direction, lists each record once and in
      order of id. */
  lemma TraversalOrder(records: map<nat, Record>, descend: bool)
    requires WellKeyed(records)
    ensures var rs := if descend then Reverse(Ascending(records)) else Ascending(records);
      |rs| == |records| &&
      forall i, j :: 0 <= i < j < |rs| ==> if descend then Less(rs[j], rs[i]) else Less(rs[i], rs[j])
  {
    AscendingLists(records);
  }

  /** The new attributes of a record that `UpdateRecord` merges `incoming`
      into: incoming keys overwrite, the other keys keep their values. */
  function Merge(base: Data, incoming: Data): (r: Data)
    ensures r.Keys == base.Keys + incoming.Keys
    ensures forall k :: k in incoming ==> r[k] == incoming[k]
    ensures forall k :: k in base && k !in incoming ==> r[k] == base[k]
  {
    base + incoming
  }

  /** Merging into a nil attribute pointer is only defined (does not panic)
      when there is nothing to write. */
  function MergeInto(saved: Option<Data>, incoming: Data): (r: Option<Data>)
    requires saved.Some? || incoming == map[]
    ensures r.Some? <==> saved.Some?
    ensures r.Some? ==> r.value == Merge(saved.value, incoming)
  {
    match saved
    case None => None
    case Some(base) => Some(Merge(base, incoming))
  }

  /** `UpdateRecord` does not panic: the incoming pointer is non-nil when
      the record exists, and the saved one is non-nil when there is
      something to write into it. */
  ghost predicate UpdateDefined(records: map<nat, Record>, r: Record)
  {
    r.id in records ==> r.data.Some? && (r.data.value != map[] ==> records[r.id].data.Some?)
  }

  class Storage {
    const name: string
    var records: map<nat, Record>
    var ids: seq<nat>

    ghost predicate Valid()
      reads this
    {
      Indexes(ids, records)
    }

    /** `New`: an empty store for entity `name`. */
    constructor (name: string)
      ensures Valid() && this.name == name && records == map[]
    {
      this.name := name;
      records := map[];
      ids := [];
    }

    method GetRecord(id: nat) returns (r: Option<Record>)
      requires Valid()
      ensures r.Some? <==> id in records
      ensures r.Some? ==> r.value == records[id] && r.value.id == id
    {
      if id in records {
        r := Some(records[id]);
      } else {
        r := None;
      }
    }

    method IterateOverRecords(visit: Record -> bool) returns (visited: seq<Record>)
      requires Valid()
      ensures visited == VisitUntil(Ascending(records), visit)
    {
      var order, table := ids, records;
      IndexIsAscending(order, table);
      ghost var asc := InOrder(order, table);
      visited := [];
      var i := 0;
      while i < |order|
        invariant 0 <= i <= |order|
        invariant VisitUntil(asc, visit) == visited + VisitUntil(asc[i..], visit)
      {
        var rec := table[order[i]];
        assert rec == asc[i];
        VisitStep(asc, i, visit);
        Regroup(visited, [rec], VisitUntil(asc[i + 1..], visit));
        visited := visited + [rec];
        if !visit(rec) {
          return;
        }
        i := i + 1;
      }
      assert visited + VisitUntil(asc[i..], visit) == visited + [];
    }

    method GetAllRecords(descend: bool) returns (rs: seq<Record>)
      requires Valid()
      ensures rs == if descend then Reverse(Ascending(records)) else Ascending(records)
      ensures |rs| == |records|
      ensures forall i, j :: 0 <= i < j < |rs| ==> if descend then Less(rs[j], rs[i]) else Less(rs[i], rs[j])
    {
      rs := [];
      if descend {
        var i := |ids|;
        while i > 0
          invariant 0 <= i <= |ids|
          invariant |rs| == |ids| - i
          invariant forall j :: 0 <= j < |rs| ==> rs[j] == records[ids[|ids| - 1 - j]]
        {
          i := i - 1;
          rs := rs + [records[ids[i]]];
        }
        assert rs == Reverse(InOrder(ids, records));
      } else {
        var i := 0;
        while i < |ids|
          invariant 0 <= i <= |ids|
          invariant |rs| == i
          invariant forall j :: 0 <= j < i ==> rs[j] == records[ids[j]]
        {
          rs := rs + [records[ids[i]]];
          i := i + 1;
        }
        assert rs == InOrder(ids, records);
      }
      IndexIsAscending(ids, records);
      TraversalOrder(records, descend);
    }

    method InsertRecord(r: Record) returns (inserted: bool)
      requires Valid()
      modifies this
      ensures Valid()
      ensures inserted <==> r.id !in old(records)
      ensures records == if inserted then old(records)[r.id := r] else old(records)
    {
      var found := GetRecord(r.id);
      if found.Some? {
        return false;
      }
      records := records[r.id := r];
      ids := Insert(ids, r.id);
      return true;
    }

    method UpdateRecord(r: Record) returns (updated: bool)
      requires Valid()
      requires UpdateDefined(records, r)
      modifies this
      ensures Valid()
      ensures updated <==> r.id in old(records)
      ensures records == if updated
                         then old(records)[r.id := Record(r.id, MergeInto(old(records)[r.id].data, r.data.value))]
                         else old(records)
    {
      var found := GetRecord(r.id);
      if found.None? {
        return false;
      }
      var saved := found.value;
      var incoming := r.data.value;
      match saved.data {
        case None =>
          // nothing to write: the loop over the incoming attributes is empty
        case Some(base) =>
          var merged := base;
          var pending := incoming.Keys;
          while pending != {}
            invariant pending <= incoming.Keys
            invariant merged == Merge(base, map k | k in incoming && k !in pending :: incoming[k])
            decreases pending
          {
            var k :| k in pending;
            merged := merged[k := incoming[k]];
            pending := pending - {k};
          }
          assert (map k | k in incoming && k !in pending :: incoming[k]) == incoming;
          records := records[r.id := saved.(data := Some(merged))];
      }
      return true;
    }

    method DeleteRecord(id: nat) returns (removed: Option<Record>)
      requires Valid()
      modifies this
      ensures Valid()
      ensures removed == if id in old(records) then Some(old(records)[id]) else None
      ensures records == old(records) - {id}
    {
      if id in records {
        removed := Some(records[id]);
      } else {
        removed := None;
      }
      records := records - {id};
      ids := Remove(ids, id);
    }

    method Len() returns (n: nat)
      requires Valid()
      ensures n == |records|
    {
      CountIsSize(ids, records.Keys);
      n := |ids|;
    }
  }
}

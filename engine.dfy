/** The command dispatcher and the entity registry
    (internal/database/engine/engine.go): a command line is parsed, the
    entity's store is created on first use, the operation is applied to it
    and the reply text is produced. */
module Engine {
  import opened Wrappers
  import opened GoText
  import opened StorageData
  import opened OrderedIndex
  import opened RecordStore
  import opened Parser
  import opened Serializer

  // ---------------------------------------------------------------------
  // Wire replies
  // ---------------------------------------------------------------------

  const Done := "1"
  const NotDone := "0"
  const InvalidIdReply := "Error processing command: invalid id"
  const InvalidOperationReply := "Error processing command: invalid operation"
  const InternalError := "Internal error"
  const ListingError := "Error deserializing data"

  function ParseErrorReply(message: string): string
  {
    "Error processing command: " + message
  }

  /** The id shape NEW, UPD and DEL accept: one id, not zero. */
  predicate IsSingleId(id: Id)
  {
    id.lower == id.upper && id.lower != 0
  }

  // ---------------------------------------------------------------------
  // Listing all records: the reply of an all-records GET
  // ---------------------------------------------------------------------

  /** The texts joined by single newlines, with none after the last. */
  function JoinLines(texts: seq<string>): string
    requires texts != []
  {
    if |texts| == 1 then texts[0] else JoinLines(texts[..|texts| - 1]) + "\n" + texts[|texts| - 1]
  }

  /** The texts each followed by a newline, as the listing loop appends
      them. */
  function Terminated(texts: seq<string>): string
  {
    if texts == [] then "" else Terminated(texts[..|texts| - 1]) + texts[|texts| - 1] + "\n"
  }

  /** Dropping the last byte of the loop's buffer leaves the texts joined
      by newlines: the listing has no trailing newline. */
  lemma {:induction false} TerminatedIsJoinedLines(texts: seq<string>)
    requires texts != []
    ensures Terminated(texts) == JoinLines(texts) + "\n"
    decreases |texts|
  {
    var front := texts[..|texts| - 1];
    var last := texts[|texts| - 1];
    if |texts| == 1 {
      assert front == [];
    } else {
      TerminatedIsJoinedLines(front);
      assert Terminated(texts) == JoinLines(front) + "\n" + last + "\n";
    }
  }

  /** A record with attributes, one of which has no formatter. */
  ghost predicate Unserializable(r: Record)
  {
    r.data.Some? && !AllSerializable(r.data.value)
  }

  /** The listing loop does not panic on `rs`: it serializes records in
      order and stops at the first that fails, so every record it reaches
      must have non-nil attributes. */
  ghost predicate ListingDefined(rs: seq<Record>)
    decreases |rs|
  {
    rs == [] || (rs[0].data.Some? && (AllSerializable(rs[0].data.value) ==> ListingDefined(rs[1..])))
  }

  /** When no record fails to serialize, none of them has nil attributes. */
  lemma {:induction false} ListingAllPresent(rs: seq<Record>)
    requires ListingDefined(rs)
    requires forall i :: 0 <= i < |rs| ==> !Unserializable(rs[i])
    ensures forall i :: 0 <= i < |rs| ==> rs[i].data.Some? && AllSerializable(rs[i].data.value)
    decreases |rs|
  {
    if rs != [] {
      assert !Unserializable(rs[0]);
      ListingAllPresent(rs[1..]);
      forall i | 0 < i < |rs|
        ensures rs[i].data.Some? && AllSerializable(rs[i].data.value)
      {
        assert rs[1..][i - 1] == rs[i];
      }
    }
  }

  /** `reply` is what the all-records listing of `rs` may answer: "0" for no
      records, the error text when a record cannot be serialized, and
      otherwise one serialization per record, in order, joined by
      newlines. */
  ghost predicate ListingReply(rs: seq<Record>, formatFloat: string -> string, reply: string)
  {
    if rs == [] then reply == NotDone
    else if exists i :: 0 <= i < |rs| && Unserializable(rs[i]) then reply == ListingError
    else exists texts: seq<string> ::
      && |texts| == |rs|
      && (forall i :: 0 <= i < |rs| ==> rs[i].data.Some? && Serializes(rs[i], formatFloat, texts[i]))
      && reply == JoinLines(texts)
  }

  lemma ListingFails(rs: seq<Record>, i: nat, formatFloat: string -> string)
    requires i < |rs| && Unserializable(rs[i])
    ensures ListingReply(rs, formatFloat, ListingError)
  {
  }

  /** The first `|texts|` records all serialize, to `texts`. */
  ghost predicate SerializedPrefix(rs: seq<Record>, texts: seq<string>, formatFloat: string -> string)
  {
    && |texts| <= |rs|
    && forall j :: 0 <= j < |texts| ==>
      rs[j].data.Some? && AllSerializable(rs[j].data.value) && Serializes(rs[j], formatFloat, texts[j])
  }

  lemma SerializedPrefixStep(rs: seq<Record>, texts: seq<string>, text: string, formatFloat: string -> string)
    requires SerializedPrefix(rs, texts, formatFloat) && |texts| < |rs|
    requires rs[|texts|].data.Some? && AllSerializable(rs[|texts|].data.value)
    requires Serializes(rs[|texts|], formatFloat, text)
    ensures SerializedPrefix(rs, texts + [text], formatFloat)
  {
    var next := texts + [text];
    forall j | 0 <= j < |next|
      ensures rs[j].data.Some? && AllSerializable(rs[j].data.value) && Serializes(rs[j], formatFloat, next[j])
    {
      if j < |texts| {
        assert next[j] == texts[j];
      }
    }
  }

  lemma TerminatedStep(texts: seq<string>, text: string)
    ensures Terminated(texts + [text]) == Terminated(texts) + text + "\n"
  {
    assert (texts + [text])[..|texts|] == texts;
  }

  lemma ListingJoined(rs: seq<Record>, texts: seq<string>, formatFloat: string -> string)
    requires |texts| == |rs| > 0 && SerializedPrefix(rs, texts, formatFloat)
    ensures ListingReply(rs, formatFloat, JoinLines(texts))
  {
    assert forall j :: 0 <= j < |rs| ==> !Unserializable(rs[j]);
  }

  /** The listing loop of `getAllRecords` over the records of one
      ascending traversal. */
  method ListRecords(rs: seq<Record>, formatFloat: string -> string) returns (reply: string)
    requires ListingDefined(rs)
    ensures ListingReply(rs, formatFloat, reply)
  {
    if |rs| == 0 {
      return NotDone;
    }
    var response := "";
    ghost var texts: seq<string> := [];
    var i := 0;
    while i < |rs|
      invariant 0 <= i <= |rs| && |texts| == i
      invariant SerializedPrefix(rs, texts, formatFloat)
      invariant response == Terminated(texts)
      invariant ListingDefined(rs[i..])
    {
      assert rs[i..][1..] == rs[i + 1..];
      var serialized := SerializeRecord(rs[i], formatFloat);
      if serialized.Err? {
        ListingFails(rs, i, formatFloat);
        return ListingError;
      }
      SerializedPrefixStep(rs, texts, serialized.value, formatFloat);
      TerminatedStep(texts, serialized.value);
      response := response + serialized.value + "\n";
      texts := texts + [serialized.value];
      i := i + 1;
    }
    TerminatedIsJoinedLines(texts);
    reply := response[..|response| - 1];
    assert reply == JoinLines(texts);
    ListingJoined(rs, texts, formatFloat);
  }

  /** `reply` is what a single-record GET may answer for a stored record:
      one of its serializations, or the serialization error's text. */
  ghost predicate RecordReply(r: Record, formatFloat: string -> string, reply: string)
    requires r.data.Some?
  {
    if AllSerializable(r.data.value) then Serializes(r, formatFloat, reply)
    else reply == SerializationMessage(ValueError)
  }

  // ---------------------------------------------------------------------
  // What one operation does to one entity's records
  // ---------------------------------------------------------------------

  /** The operation does not panic on these records. */
  ghost predicate OperationDefined(records: map<nat, Record>, c: ParsedCommand)
  {
    if c.operation == "UPD" then
      IsSingleId(c.id) ==> UpdateDefined(records, Record(c.id.lower, c.data))
    else if c.operation == "GET" then
      if c.id == Id(0, 0) then ListingDefined(Ascending(records))
      else c.id.lower == c.id.upper && c.id.lower in records ==> records[c.id.lower].data.Some?
    else true
  }

  /** `getRecords`. */
  ghost predicate GetReply(records: map<nat, Record>, id: Id, formatFloat: string -> string, reply: string)
    requires id.lower == id.upper && id.lower != 0 && id.lower in records ==> records[id.lower].data.Some?
  {
    if id == Id(0, 0) then ListingReply(Ascending(records), formatFloat, reply)
    else if id.lower == id.upper then
      if id.lower in records then RecordReply(records[id.lower], formatFloat, reply)
      else reply == NotDone
    else reply == InternalError
  }

  /** `executeOperation`: the reply to a parsed command and the entity's
      records afterwards. */
  ghost predicate Outcome(records: map<nat, Record>, c: ParsedCommand, formatFloat: string -> string,
                          reply: string, records': map<nat, Record>)
    requires OperationDefined(records, c)
  {
    var id := c.id.lower;
    if c.operation == "NEW" then
      if !IsSingleId(c.id) then reply == InvalidIdReply && records' == records
      else if id in records then reply == NotDone && records' == records
      else reply == Done && records' == records[id := Record(id, c.data)]
    else if c.operation == "UPD" then
      if !IsSingleId(c.id) then reply == InvalidIdReply && records' == records
      else if id !in records then reply == NotDone && records' == records
      else reply == Done && records' == records[id := Record(id, MergeInto(records[id].data, c.data.value))]
    else if c.operation == "GET" then
      GetReply(records, c.id, formatFloat, reply) && records' == records
    else if c.operation == "DEL" then
      if !IsSingleId(c.id) then reply == InvalidIdReply && records' == records
      else if id !in records then reply == NotDone && records' == records
      else reply == Done && records' == records - {id}
    else
      reply == InvalidOperationReply && records' == records
  }

  /** The records of `entity` in the registry state, none when the entity
      has no store yet. */
  function EntityRecords(state: map<string, map<nat, Record>>, entity: string): map<nat, Record>
  {
    if entity in state then state[entity] else map[]
  }

  /** `messageHandler` does not panic on `command`. */
  ghost predicate Defined(state: map<string, map<nat, Record>>, command: string)
  {
    && ParseDefined(command)
    && (Parse(command).Ok? ==>
         OperationDefined(EntityRecords(state, Parse(command).value.entity), Parse(command).value))
  }

  /** `messageHandler` on the registry's contents: a parse error is
      reported and nothing else happens; otherwise the entity gets a store
      if it has none, and the operation runs on it. */
  ghost predicate Handles(state: map<string, map<nat, Record>>, command: string,
                          formatFloat: string -> string, reply: string,
                          state': map<string, map<nat, Record>>)
    requires Defined(state, command)
  {
    match Parse(command)
    case Err(e) => reply == ParseErrorReply(e) && state' == state
    case Ok(c) =>
      exists records' ::
        && Outcome(EntityRecords(state, c.entity), c, formatFloat, reply, records')
        && state' == state[c.entity := records']
  }

  /** An operation touches at most the record its id addresses, keeps
      every record under its own id, and every change it makes is
      reported as "1" to a single-id command. */
  lemma OutcomeIsLocal(records: map<nat, Record>, c: ParsedCommand, formatFloat: string -> string,
                       reply: string, records': map<nat, Record>)
    requires OperationDefined(records, c) && Outcome(records, c, formatFloat, reply, records')
    ensures WellKeyed(records) ==> WellKeyed(records')
    ensures forall i :: i != c.id.lower ==> (i in records' <==> i in records)
    ensures forall i :: i != c.id.lower && i in records ==> records'[i] == records[i]
    ensures records' != records ==> reply == Done && IsSingleId(c.id)
  {
  }

  /** Repeating a NEW: the second one replies "0" and changes nothing, so
      the record the first one found or stored stays. */
  lemma InsertTwice(records: map<nat, Record>, c: ParsedCommand, formatFloat: string -> string,
                    reply1: string, records1: map<nat, Record>, reply2: string, records2: map<nat, Record>)
    requires c.operation == "NEW" && IsSingleId(c.id)
    requires OperationDefined(records, c) && Outcome(records, c, formatFloat, reply1, records1)
    requires OperationDefined(records1, c) && Outcome(records1, c, formatFloat, reply2, records2)
    ensures c.id.lower in records1
    ensures reply1 == Done ==> records1[c.id.lower] == Record(c.id.lower, c.data)
    ensures reply2 == NotDone && records2 == records1
  {
  }

  /** After a NEW has stored a record, a GET of its id answers with that
      record's serialization. */
  lemma InsertThenGet(records: map<nat, Record>, c: ParsedCommand, g: ParsedCommand, formatFloat: string -> string,
                      reply1: string, records1: map<nat, Record>, reply2: string, records2: map<nat, Record>)
    requires c.operation == "NEW" && IsSingleId(c.id) && c.data.Some? && c.id.lower !in records
    requires g.operation == "GET" && g.id == c.id
    requires OperationDefined(records, c) && Outcome(records, c, formatFloat, reply1, records1)
    requires OperationDefined(records1, g) && Outcome(records1, g, formatFloat, reply2, records2)
    ensures reply1 == Done && records2 == records1
    ensures RecordReply(Record(c.id.lower, c.data), formatFloat, reply2)
  {
  }

  /** After a DEL, a GET of the same id answers "0". */
  lemma DeleteThenGet(records: map<nat, Record>, c: ParsedCommand, g: ParsedCommand, formatFloat: string -> string,
                      reply1: string, records1: map<nat, Record>, reply2: string, records2: map<nat, Record>)
    requires c.operation == "DEL" && IsSingleId(c.id)
    requires g.operation == "GET" && g.id == c.id
    requires OperationDefined(records, c) && Outcome(records, c, formatFloat, reply1, records1)
    requires Outcome(records1, g, formatFloat, reply2, records2)
    ensures reply1 == Done <==> c.id.lower in records
    ensures c.id.lower !in records1
    ensures reply2 == NotDone && records2 == records1
  {
  }

  /** What a handled command does to the registry: a parse error leaves it
      alone; otherwise the entity is registered, starting from no records
      if it was new, and no other entity's records change. */
  lemma HandlesRegistry(state: map<string, map<nat, Record>>, command: string, formatFloat: string -> string,
                        reply: string, state': map<string, map<nat, Record>>)
    requires Defined(state, command) && Handles(state, command, formatFloat, reply, state')
    ensures Parse(command).Err? ==> state' == state
    ensures Parse(command).Ok? ==> state'.Keys == state.Keys + {Parse(command).value.entity}
    ensures Parse(command).Ok? ==>
      forall e :: e in state && e != Parse(command).value.entity ==> state'[e] == state[e]
  {
  }

  /** A command that parses: the registry after it is the registry with
      the entity's records replaced by the operation's outcome. */
  lemma HandlesCommand(state: map<string, map<nat, Record>>, command: string, c: ParsedCommand,
                       formatFloat: string -> string, reply: string, state': map<string, map<nat, Record>>)
    requires Defined(state, command) && Parse(command) == Ok(c)
    ensures Handles(state, command, formatFloat, reply, state') <==>
      && c.entity in state'
      && Outcome(EntityRecords(state, c.entity), c, formatFloat, reply, state'[c.entity])
      && state' == state[c.entity := state'[c.entity]]
  {
    if c.entity in state' && Outcome(EntityRecords(state, c.entity), c, formatFloat, reply, state'[c.entity])
       && state' == state[c.entity := state'[c.entity]] {
      HandlesParsed(state, command, c, formatFloat, reply, state'[c.entity]);
    }
  }

  lemma OverwriteTwice<K, V>(m: map<K, V>, k: K, a: V, b: V)
    ensures m[k := a][k := b] == m[k := b]
  {
  }

  lemma OnlyEntryChanged<K, V>(m: map<K, V>, n: map<K, V>, k: K)
    requires k in n && m.Keys == n.Keys
    requires forall e :: e in n && e != k ==> n[e] == m[e]
    ensures n == m[k := n[k]]
  {
  }

  lemma EntryAdded<K, V>(m: map<K, V>, n: map<K, V>, k: K)
    requires k in n && n.Keys == m.Keys + {k}
    requires forall e :: e in m && e != k ==> n[e] == m[e]
    ensures n == m[k := n[k]]
  {
  }

  lemma HandlesParsed(state: map<string, map<nat, Record>>, command: string, c: ParsedCommand,
                      formatFloat: string -> string, reply: string, records': map<nat, Record>)
    requires Defined(state, command) && Parse(command) == Ok(c)
    requires Outcome(EntityRecords(state, c.entity), c, formatFloat, reply, records')
    ensures Handles(state, command, formatFloat, reply, state[c.entity := records'])
  {
  }

  // ---------------------------------------------------------------------
  // The registry
  // ---------------------------------------------------------------------

  /** The package-level registry of stores, one per entity name, with the
      float formatter the serializer uses. */
  class Database {
    const formatFloat: string -> string
    var storages: map<string, Storage>

    /** Every store is well formed and registered under its own name, and
        no store is registered twice. */
    ghost predicate Valid()
      reads this, storages.Values
    {
      && (forall e :: e in storages ==> storages[e].Valid() && storages[e].name == e)
      && (forall e, f :: e in storages && f in storages && e != f ==> storages[e] != storages[f])
    }

    /** The records of every registered entity. */
    ghost function State(): map<string, map<nat, Record>>
      reads this, storages.Values
    {
      map e | e in storages :: storages[e].records
    }

    /** `initializeStorage`: an empty registry. */
    constructor (formatFloat: string -> string)
      ensures Valid() && State() == map[] && this.formatFloat == formatFloat
    {
      this.formatFloat := formatFloat;
      storages := map[];
    }

    /** `messageHandler`. */
    method MessageHandler(command: string) returns (reply: string)
      requires Valid() && Defined(State(), command)
      modifies this, storages.Values
      ensures Valid()
      ensures forall e :: e in old(storages) ==> e in storages && storages[e] == old(storages[e])
      ensures forall e :: e in storages && e !in old(storages) ==> fresh(storages[e])
      ensures Handles(old(State()), command, formatFloat, reply, State())
    {
      var parsed := ParseCommand(command);
      if parsed.Err? {
        return ParseErrorReply(parsed.error);
      }
      reply := Dispatch(command, parsed.value);
    }

    /** The rest of `messageHandler` once the command is parsed: look the
        entity's store up, creating it on first use, and run the operation
        on it. */
    method Dispatch(ghost command: string, c: ParsedCommand) returns (reply: string)
      requires Valid() && Defined(State(), command) && Parse(command) == Ok(c)
      modifies this, storages.Values
      ensures Valid()
      ensures forall e :: e in old(storages) ==> e in storages && storages[e] == old(storages[e])
      ensures forall e :: e in storages && e !in old(storages) ==> fresh(storages[e])
      ensures Handles(old(State()), command, formatFloat, reply, State())
    {
      ghost var state := State();
      Register(c.entity);
      assert OperationDefined(storages[c.entity].records, c);
      reply := ExecuteOperation(c);
      OverwriteTwice(state, c.entity, EntityRecords(state, c.entity), storages[c.entity].records);
      HandlesParsed(state, command, c, formatFloat, reply, storages[c.entity].records);
    }

    /** The registry lookup in `messageHandler`: a store is created for an
        entity seen for the first time, and an existing one is kept. */
    method Register(entity: string)
      requires Valid()
      modifies this
      ensures Valid() && entity in storages
      ensures storages[entity].records == EntityRecords(old(State()), entity)
      ensures State() == old(State())[entity := EntityRecords(old(State()), entity)]
      ensures forall e :: e in old(storages) ==> e in storages && storages[e] == old(storages[e])
      ensures forall e :: e in storages && e !in old(storages) ==> e == entity && fresh(storages[e])
    {
      if entity !in storages {
        ghost var state := State();
        var s := new Storage(entity);
        storages := storages[entity := s];
        ghost var after := State();
        assert after.Keys == state.Keys + {entity};
        assert forall e :: e in state ==> after[e] == state[e];
        EntryAdded(state, after, entity);
      }
    }

    /** `executeOperation`: dispatch on the operation word. */
    method ExecuteOperation(c: ParsedCommand) returns (reply: string)
      requires Valid() && c.entity in storages
      requires OperationDefined(storages[c.entity].records, c)
      modifies storages[c.entity]
      ensures Valid()
      ensures Outcome(old(storages[c.entity].records), c, formatFloat, reply, storages[c.entity].records)
      ensures State() == old(State())[c.entity := storages[c.entity].records]
    {
      if c.operation == "NEW" {
        reply := InsertRecord(c);
      } else if c.operation == "UPD" {
        reply := UpdateRecord(c);
      } else if c.operation == "GET" {
        reply := GetRecords(c);
      } else if c.operation == "DEL" {
        reply := DeleteRecord(c);
      } else {
        reply := InvalidOperationReply;
      }
      forall e | e in storages && e != c.entity
        ensures storages[e].records == old(storages[e].records)
      {
        assert storages[e] != storages[c.entity];
      }
      OnlyEntryChanged(old(State()), State(), c.entity);
    }

    /** `insertRecord`. */
    method InsertRecord(c: ParsedCommand) returns (reply: string)
      requires Valid() && c.entity in storages
      modifies storages[c.entity]
      ensures Valid()
      ensures var records, id := old(storages[c.entity].records), c.id.lower;
        if !IsSingleId(c.id) then reply == InvalidIdReply && storages[c.entity].records == records
        else if id in records then reply == NotDone && storages[c.entity].records == records
        else reply == Done && storages[c.entity].records == records[id := Record(id, c.data)]
    {
      var s := storages[c.entity];
      if c.id.lower != c.id.upper || c.id.lower == 0 {
        return InvalidIdReply;
      }
      var inserted := s.InsertRecord(Record(c.id.lower, c.data));
      if !inserted {
        return NotDone;
      }
      return Done;
    }

    /** `updateRecord`. */
    method UpdateRecord(c: ParsedCommand) returns (reply: string)
      requires Valid() && c.entity in storages
      requires IsSingleId(c.id) ==> UpdateDefined(storages[c.entity].records, Record(c.id.lower, c.data))
      modifies storages[c.entity]
      ensures Valid()
      ensures var records, id := old(storages[c.entity].records), c.id.lower;
        if !IsSingleId(c.id) then reply == InvalidIdReply && storages[c.entity].records == records
        else if id !in records then reply == NotDone && storages[c.entity].records == records
        else (reply == Done &&
              storages[c.entity].records == records[id := Record(id, MergeInto(records[id].data, c.data.value))])
    {
      var s := storages[c.entity];
      if c.id.lower != c.id.upper || c.id.lower == 0 {
        return InvalidIdReply;
      }
      var updated := s.UpdateRecord(Record(c.id.lower, c.data));
      if !updated {
        return NotDone;
      }
      return Done;
    }

    /** `getRecords`: all records, one record, or a range, which is not
        served. */
    method GetRecords(c: ParsedCommand) returns (reply: string)
      requires Valid() && c.entity in storages
      requires OperationDefined(storages[c.entity].records, c) && c.operation == "GET"
      ensures GetReply(storages[c.entity].records, c.id, formatFloat, reply)
    {
      var s := storages[c.entity];
      if c.id.lower == 0 && c.id.upper == 0 {
        reply := GetAllRecords(s);
        return;
      }
      if c.id.lower == c.id.upper {
        reply := GetSingleRecord(c.id.lower, s);
        return;
      }
      return InternalError;
    }

    /** `getSingleRecord`. */
    method GetSingleRecord(id: nat, s: Storage) returns (reply: string)
      requires s.Valid()
      requires id in s.records ==> s.records[id].data.Some?
      ensures id in s.records ==> RecordReply(s.records[id], formatFloat, reply)
      ensures id !in s.records ==> reply == NotDone
    {
      var record := s.GetRecord(id);
      if record.None? {
        return NotDone;
      }
      var response := SerializeRecord(record.value, formatFloat);
      if response.Err? {
        return response.error;
      }
      return response.value;
    }

    /** `getAllRecords`: every record in ascending id order, serialized and
        joined by newlines; the first record that cannot be serialized
        turns the whole reply into an error. */
    method GetAllRecords(s: Storage) returns (reply: string)
      requires s.Valid()
      requires ListingDefined(Ascending(s.records))
      ensures ListingReply(Ascending(s.records), formatFloat, reply)
    {
      var rs := s.GetAllRecords(false);
      reply := ListRecords(rs, formatFloat);
    }

    /** `deleteRecord`. */
    method DeleteRecord(c: ParsedCommand) returns (reply: string)
      requires Valid() && c.entity in storages
      modifies storages[c.entity]
      ensures Valid()
      ensures var records, id := old(storages[c.entity].records), c.id.lower;
        if !IsSingleId(c.id) then reply == InvalidIdReply && storages[c.entity].records == records
        else if id !in records then reply == NotDone && storages[c.entity].records == records
        else reply == Done && storages[c.entity].records == records - {id}
    {
      if c.id.lower == 0 && c.id.upper == 0 {
        return InvalidIdReply;
      }
      if c.id.lower != c.id.upper {
        return InvalidIdReply;
      }
      var s := storages[c.entity];
      var removed := s.DeleteRecord(c.id.lower);
      if removed.None? {
        return NotDone;
      }
      return Done;
    }
  }
}

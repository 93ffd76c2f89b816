/** The end-to-end exchanges the engine's tests walk through, on one
    entity `car`: insert a record, insert it again, read it, delete it and
    read it again. */
module Scenarios {
  import opened Wrappers
  import opened GoText
  import opened StorageData
  import opened RecordStore
  import opened Parser
  import opened Serializer
  import opened Engine

  const Bmw: Data := map["name" := StrV("'bmw'")]

  const NewCommand := ParsedCommand("NEW", "car", Id(1, 1), Some(Bmw))

  /** A command without attributes on record `n` of `car`. */
  function Short(op: string, n: nat): ParsedCommand
  {
    ParsedCommand(op, "car", Id(n, n), None)
  }

  /** The store of `car` after the first NEW. */
  const Stored: map<nat, Record> := map[1 := Record(1, Some(Bmw))]

  /** Parsing a command whose stages are already known. */
  lemma ParseStages(cmd: string, entity: string, id: Id, data: Option<Data>)
    requires |Tokens(cmd)| >= 2 && IdsDefined(Tokens(cmd)[1])
    requires GetEntity(Tokens(cmd)[1]) == Ok(entity) && GetIds(Tokens(cmd)[1]) == Ok(id)
    requires DataOf(Tokens(cmd)[2..]) == Ok(data)
    ensures ParseDefined(cmd)
    ensures Parse(cmd) == Ok(ParsedCommand(ToUpper(Tokens(cmd)[0]), entity, id, data))
  {
  }

  lemma TokensOfNew(cmd: string)
    requires cmd == "NEW car:1 name 'bmw'"
    ensures Tokens(cmd) == ["NEW", "car:1", "name", "'bmw'"]
  {
    var ws := ["NEW", "car:1", "name", "'bmw'"];
    WordsOfNew(ws);
    TokensOfJoin(ws);
    JoinOfNew(ws, cmd);
  }

  lemma WordsOfNew(ws: seq<string>)
    requires ws == ["NEW", "car:1", "name", "'bmw'"]
    ensures forall i :: 0 <= i < |ws| ==> IsWord(ws[i]) || IsQuoted(ws[i])
  {
    assert IsWord("NEW");
    assert IsWord("car:1");
    assert IsWord("name");
    assert IsQuoted("'bmw'");
  }

  lemma JoinOfNew(ws: seq<string>, cmd: string)
    requires ws == ["NEW", "car:1", "name", "'bmw'"] && cmd == "NEW car:1 name 'bmw'"
    ensures JoinSpaced(ws) == cmd
  {
    assert ws[1..][1..][1..] == ["'bmw'"];
    assert JoinSpaced(ws[1..][1..]) == "name 'bmw'";
    assert JoinSpaced(ws[1..]) == "car:1 name 'bmw'";
  }

  lemma ParseNew(cmd: string)
    requires cmd == "NEW car:1 name 'bmw'"
    ensures ParseDefined(cmd)
    ensures Parse(cmd) == Ok(NewCommand)
  {
    TokensOfNew(cmd);
    StagesOfNew(Tokens(cmd));
    ParseStages(cmd, "car", Id(1, 1), Some(Bmw));
  }

  lemma StagesOfNew(ws: seq<string>)
    requires ws == ["NEW", "car:1", "name", "'bmw'"]
    ensures IdsDefined(ws[1]) && GetEntity(ws[1]) == Ok("car") && GetIds(ws[1]) == Ok(Id(1, 1))
    ensures DataOf(ws[2..]) == Ok(Some(Bmw))
    ensures ToUpper(ws[0]) == "NEW"
  {
    CarAddress(1, ws[1]);
    DataOfBmw(ws[2..]);
    NewWord(ws[0]);
  }

  lemma NewWord(w: string)
    requires w == "NEW"
    ensures ToUpper(w) == w
  {
    assert w[0] == 'N' && w[1] == 'E' && w[2] == 'W';
  }

  lemma DataOfBmw(pair: seq<string>)
    requires pair == ["name", "'bmw'"]
    ensures DataOf(pair) == Ok(Some(Bmw))
  {
    assert Infer(pair[1]) == StrV("'bmw'");
    PairUpSingle(pair[0], pair[1]);
  }

  /** `car:N` addresses record N of `car`. */
  lemma CarAddress(n: nat, a: string)
    requires 1 <= n <= 9 && a == "car:" + [DigitChar(n)]
    ensures a == Address("car", Id(n, n))
    ensures IdsDefined(a) && GetEntity(a) == Ok("car") && GetIds(a) == Ok(Id(n, n))
  {
    assert Itoa(n) == [DigitChar(n)];
    AddressRoundTrip("car", Id(n, n));
  }

  lemma PairUpSingle(key: string, value: string)
    ensures PairUp([key, value]) == map[key := Infer(value)]
  {
    assert [key, value][..0] == [];
  }

  /** An operation word and an address, separated by a space. */
  lemma TokensOfShort(op: string, a: string, cmd: string)
    requires IsWord(op) && IsWord(a) && cmd == op + " " + a
    ensures Tokens(cmd) == [op, a]
  {
    TokensOfJoin([op, a]);
  }

  lemma StagesOfShort(ws: seq<string>, n: nat)
    requires 1 <= n <= 9 && |ws| == 2 && ws[1] == "car:" + [DigitChar(n)]
    ensures IdsDefined(ws[1]) && GetEntity(ws[1]) == Ok("car") && GetIds(ws[1]) == Ok(Id(n, n))
    ensures DataOf(ws[2..]) == Ok(None)
  {
    CarAddress(n, ws[1]);
  }

  lemma ParseGet1(cmd: string)
    requires cmd == "GET car:1"
    ensures ParseDefined(cmd) && Parse(cmd) == Ok(Short("GET", 1))
  {
    assert IsWord("GET") && IsWord("car:1") && ToUpper("GET") == "GET";
    TokensOfShort("GET", "car:1", cmd);
    StagesOfShort(["GET", "car:1"], 1);
    ParseStages(cmd, "car", Id(1, 1), None);
  }

  lemma ParseGet2(cmd: string)
    requires cmd == "GET car:2"
    ensures ParseDefined(cmd) && Parse(cmd) == Ok(Short("GET", 2))
  {
    assert IsWord("GET") && IsWord("car:2") && ToUpper("GET") == "GET";
    TokensOfShort("GET", "car:2", cmd);
    StagesOfShort(["GET", "car:2"], 2);
    ParseStages(cmd, "car", Id(2, 2), None);
  }

  lemma ParseDel1(cmd: string)
    requires cmd == "DEL car:1"
    ensures ParseDefined(cmd) && Parse(cmd) == Ok(Short("DEL", 1))
  {
    assert IsWord("DEL") && IsWord("car:1") && ToUpper("DEL") == "DEL";
    TokensOfShort("DEL", "car:1", cmd);
    StagesOfShort(["DEL", "car:1"], 1);
    ParseStages(cmd, "car", Id(1, 1), None);
  }

  // ---------------------------------------------------------------------
  // The exchanges
  // ---------------------------------------------------------------------

  const AfterInsert: map<string, map<nat, Record>> := map["car" := Stored]
  const AfterDelete: map<string, map<nat, Record>> := map["car" := map[]]

  /** What the registry goes through for a command that parses to `c`,
      once the operation's outcome on the entity's records is known. */
  lemma HandlesAs(state: map<string, map<nat, Record>>, cmd: string, c: ParsedCommand,
                  formatFloat: string -> string, reply: string, state': map<string, map<nat, Record>>,
                  wantReply: string, wantRecords: map<nat, Record>)
    requires ParseDefined(cmd) && Parse(cmd) == Ok(c)
    requires OperationDefined(EntityRecords(state, c.entity), c)
    requires c.entity in state' ==>
      (Outcome(EntityRecords(state, c.entity), c, formatFloat, reply, state'[c.entity]) <==>
       reply == wantReply && state'[c.entity] == wantRecords)
    ensures Defined(state, cmd)
    ensures Handles(state, cmd, formatFloat, reply, state') <==>
      reply == wantReply && state' == state[c.entity := wantRecords]
  {
    HandlesCommand(state, cmd, c, formatFloat, reply, state');
  }

  /** The records of `car` in `state'`, or none when it has no entry. */
  function CarRecords(state': map<string, map<nat, Record>>): map<nat, Record>
  {
    if "car" in state' then state'["car"] else map[]
  }

  /** `NEW car:1 name 'bmw'` on an empty registry creates the `car` store
      and replies "1". */
  lemma FirstInsert(cmd: string, formatFloat: string -> string, reply: string, state': map<string, map<nat, Record>>)
    requires cmd == "NEW car:1 name 'bmw'"
    ensures Defined(map[], cmd)
    ensures Handles(map[], cmd, formatFloat, reply, state') <==>
      reply == Done && state' == AfterInsert
  {
    ParseNew(cmd);
    InsertFirst(formatFloat, reply, CarRecords(state'));
    HandlesAs(map[], cmd, NewCommand, formatFloat, reply, state', Done, Stored);
  }

  lemma InsertFirst(formatFloat: string -> string, reply: string, records': map<nat, Record>)
    ensures EntityRecords(map[], "car") == map[]
    ensures OperationDefined(map[], NewCommand)
    ensures Outcome(map[], NewCommand, formatFloat, reply, records') <==> reply == Done && records' == Stored
    ensures map[]["car" := Stored] == AfterInsert
  {
  }

  /** Sending it again replies "0" and leaves the record as it was. */
  lemma SecondInsert(cmd: string, formatFloat: string -> string, reply: string, state': map<string, map<nat, Record>>)
    requires cmd == "NEW car:1 name 'bmw'"
    ensures Defined(AfterInsert, cmd)
    ensures Handles(AfterInsert, cmd, formatFloat, reply, state') <==>
      reply == NotDone && state' == AfterInsert
  {
    ParseNew(cmd);
    InsertAgain(formatFloat, reply, CarRecords(state'));
    HandlesAs(AfterInsert, cmd, NewCommand, formatFloat, reply, state', NotDone, Stored);
  }

  lemma InsertAgain(formatFloat: string -> string, reply: string, records': map<nat, Record>)
    ensures EntityRecords(AfterInsert, "car") == Stored
    ensures OperationDefined(Stored, NewCommand)
    ensures Outcome(Stored, NewCommand, formatFloat, reply, records') <==> reply == NotDone && records' == Stored
    ensures AfterInsert["car" := Stored] == AfterInsert
  {
  }

  /** `GET car:1` then answers `id 1 name 'bmw'`. */
  lemma GetInserted(cmd: string, formatFloat: string -> string, reply: string, state': map<string, map<nat, Record>>)
    requires cmd == "GET car:1"
    ensures Defined(AfterInsert, cmd)
    ensures Handles(AfterInsert, cmd, formatFloat, reply, state') <==>
      reply == "id 1 name 'bmw'" && state' == AfterInsert
  {
    ParseGet1(cmd);
    GetStored(formatFloat, reply, CarRecords(state'));
    InsertAgain(formatFloat, reply, Stored);
    HandlesAs(AfterInsert, cmd, Short("GET", 1), formatFloat, reply, state', "id 1 name 'bmw'", Stored);
  }

  lemma GetStored(formatFloat: string -> string, reply: string, records': map<nat, Record>)
    ensures EntityRecords(AfterInsert, "car") == Stored
    ensures OperationDefined(Stored, Short("GET", 1))
    ensures Outcome(Stored, Short("GET", 1), formatFloat, reply, records') <==>
      reply == "id 1 name 'bmw'" && records' == Stored
  {
    var rec := Record(1, Some(Bmw));
    assert Stored[1] == rec;
    assert AllSerializable(Bmw);
    SerializesSingle(rec, formatFloat, "name", StrV("'bmw'"), reply);
    StoredText();
  }

  lemma StoredText()
    ensures "id " + Itoa(1) + " " + "name" + " " + "'bmw'" == "id 1 name 'bmw'"
  {
    assert Itoa(1) == "1";
  }

  /** `DEL car:1` removes it and replies "1". */
  lemma DeleteInserted(cmd: string, formatFloat: string -> string, reply: string, state': map<string, map<nat, Record>>)
    requires cmd == "DEL car:1"
    ensures Defined(AfterInsert, cmd)
    ensures Handles(AfterInsert, cmd, formatFloat, reply, state') <==>
      reply == Done && state' == AfterDelete
  {
    ParseDel1(cmd);
    DeleteStored(formatFloat, reply, CarRecords(state'));
    HandlesAs(AfterInsert, cmd, Short("DEL", 1), formatFloat, reply, state', Done, map[]);
  }

  lemma DeleteStored(formatFloat: string -> string, reply: string, records': map<nat, Record>)
    ensures EntityRecords(AfterInsert, "car") == Stored
    ensures OperationDefined(Stored, Short("DEL", 1))
    ensures Outcome(Stored, Short("DEL", 1), formatFloat, reply, records') <==> reply == Done && records' == map[]
    ensures AfterInsert["car" := map[]] == AfterDelete
  {
    assert Stored - {1} == map[];
  }

  /** Afterwards `GET car:1` replies "0". */
  lemma GetAbsent(cmd: string, formatFloat: string -> string, reply: string,
                  state': map<string, map<nat, Record>>)
    requires cmd == "GET car:1"
    ensures Defined(AfterDelete, cmd)
    ensures Handles(AfterDelete, cmd, formatFloat, reply, state') <==>
      reply == NotDone && state' == AfterDelete
  {
    ParseGet1(cmd);
    GetFromEmpty(1, formatFloat, reply, CarRecords(state'));
    HandlesAs(AfterDelete, cmd, Short("GET", 1), formatFloat, reply, state', NotDone, map[]);
  }

  /** So does `GET car:2`, an id the store never held. */
  lemma GetNeverStored(cmd: string, formatFloat: string -> string, reply: string,
                       state': map<string, map<nat, Record>>)
    requires cmd == "GET car:2"
    ensures Defined(AfterDelete, cmd)
    ensures Handles(AfterDelete, cmd, formatFloat, reply, state') <==>
      reply == NotDone && state' == AfterDelete
  {
    ParseGet2(cmd);
    GetFromEmpty(2, formatFloat, reply, CarRecords(state'));
    HandlesAs(AfterDelete, cmd, Short("GET", 2), formatFloat, reply, state', NotDone, map[]);
  }

  lemma GetFromEmpty(n: nat, formatFloat: string -> string, reply: string, records': map<nat, Record>)
    requires n > 0
    ensures EntityRecords(AfterDelete, "car") == map[]
    ensures OperationDefined(map[], Short("GET", n))
    ensures Outcome(map[], Short("GET", n), formatFloat, reply, records') <==> reply == NotDone && records' == map[]
    ensures AfterDelete["car" := map[]] == AfterDelete
  {
  }
}

/** The record serializer (internal/database/engine/serializer.go): a record
    becomes the text `id N` followed by ` key value` for each attribute. */
module Serializer {
  import opened Wrappers
  import opened GoText
  import opened StorageData
  import opened RecordStore
  import Parser

  const ValueError := "error serializing value"

  /** The text of a `SerializationError`: a fixed prefix, then the cause's
      text unchanged. */
  function SerializationMessage(message: string): (m: string)
    ensures |m| == 21 + |message|
    ensures m[21..] == message
  {
    "Serialization error: " + message
  }

  /** `strconv.FormatBool`. */
  function FormatBool(b: bool): (r: string)
    ensures r == "true" || r == "false"
    ensures b <==> r == "true"
  {
    if b then "true" else "false"
  }

  /** `SerializeValue`: a per-type formatter. Floats go through
      `formatFloat`, which stands for `strconv.FormatFloat(v, 'f', -1, 64)`
      applied to the value the literal denotes. */
  function SerializeValue(v: Value, formatFloat: string -> string): (r: Result<string, string>)
    ensures r.Ok? <==> !v.OtherV?
    ensures r.Err? ==> r.error == ValueError
    ensures v.StrV? ==> r.value == v.s
    ensures v.IntV? && MinInt64 <= v.i <= MaxInt64 ==> Atoi(r.value) == Some(v.i)
    ensures v.BoolV? ==> r.value == "true" || r.value == "false"
    ensures v.BoolV? ==> (v.b <==> ToUpper(r.value) == "TRUE")
    ensures v.FloatV? ==> r.value == formatFloat(v.literal)
  {
    match v
    case FloatV(literal) => Ok(formatFloat(literal))
    case IntV(i) =>
      if MinInt64 <= i <= MaxInt64 then AtoiItoa(i); Ok(Itoa(i)) else Ok(Itoa(i))
    case BoolV(b) =>
      assert ToUpper("true") == "TRUE" && ToUpper("false") == "FALSE";
      Ok(FormatBool(b))
    case StrV(s) => Ok(s)
    case OtherV => Err(ValueError)
  }

  /** Every attribute has one of the four supported types. */
  predicate AllSerializable(d: Data)
  {
    forall k :: k in d ==> !d[k].OtherV?
  }

  /** `order` lists every key of `d` exactly once: one of the orders in
      which ranging over the map may visit them. */
  ghost predicate IsKeyOrder(order: seq<string>, d: Data)
  {
    (forall i, j :: 0 <= i < j < |order| ==> order[i] != order[j]) &&
    (forall k :: k in order <==> k in d)
  }

  /** The ` key value` fields for the keys in `order`, failing at the first
      value that has no formatter. */
  function Fields(order: seq<string>, d: Data, formatFloat: string -> string): (r: Result<string, string>)
    requires forall k :: k in order ==> k in d
    ensures r.Ok? <==> forall i :: 0 <= i < |order| ==> !d[order[i]].OtherV?
    ensures r.Err? ==> r.error == ValueError
    decreases |order|
  {
    if order == [] then Ok("")
    else
      var key := order[|order| - 1];
      match Fields(order[..|order| - 1], d, formatFloat)
      case Err(e) => Err(e)
      case Ok(front) =>
        match SerializeValue(d[key], formatFloat)
        case Err(e) => Err(e)
        case Ok(text) => Ok(front + " " + key + " " + text)
  }

  /** The serialization of `rec` when its attributes are visited in
      `order`. */
  function Render(rec: Record, order: seq<string>, formatFloat: string -> string): (r: Result<string, string>)
    requires rec.data.Some? && forall k :: k in order ==> k in rec.data.value
    ensures r.Ok? ==> "id " + Itoa(rec.id) <= r.value
    ensures r.Err? ==> r.error == SerializationMessage(ValueError)
  {
    match Fields(order, rec.data.value, formatFloat)
    case Err(e) => Err(SerializationMessage(e))
    case Ok(fields) => Ok("id " + Itoa(rec.id) + fields)
  }

  /** `text` is what `SerializeRecord` may write for `rec`: the attributes
      in some order that lists each key once. */
  ghost predicate Serializes(rec: Record, formatFloat: string -> string, text: string)
    requires rec.data.Some?
  {
    exists order :: IsKeyOrder(order, rec.data.value) && Render(rec, order, formatFloat) == Ok(text)
  }

  /** `SerializeRecord`. The record's attributes must not be nil (the source
      ranges over the pointed-to map). It fails exactly when some attribute
      has an unsupported type, and otherwise writes one of the record's
      serializations. */
  method SerializeRecord(rec: Record, formatFloat: string -> string) returns (r: Result<string, string>)
    requires rec.data.Some?
    ensures r.Ok? <==> AllSerializable(rec.data.value)
    ensures r.Err? ==> r.error == SerializationMessage(ValueError)
    ensures r.Ok? ==> Serializes(rec, formatFloat, r.value)
  {
    var d := rec.data.value;
    var head := "id " + Itoa(rec.id);
    var buffer := head;
    var pending := d.Keys;
    ghost var order: seq<string> := [];
    while pending != {}
      invariant Visited(order, pending, d)
      invariant Fields(order, d, formatFloat).Ok?
      invariant buffer == head + Fields(order, d, formatFloat).value
      decreases pending
    {
      var key :| key in pending;
      var value := SerializeValue(d[key], formatFloat);
      if value.Err? {
        return Err(SerializationMessage(value.error));
      }
      var field := " " + key + " " + value.value;
      VisitKey(order, pending, key, d, formatFloat);
      Regroup(head, Fields(order, d, formatFloat).value, field);
      buffer := buffer + field;
      order := order + [key];
      pending := pending - {key};
    }
    VisitedAll(rec, order, formatFloat);
    return Ok(buffer);
  }

  /** The loop's bookkeeping: `order` lists, each once, the keys of `d`
      already written, and `pending` holds the others. */
  ghost predicate Visited(order: seq<string>, pending: set<string>, d: Data)
  {
    && pending <= d.Keys
    && (forall k :: k in order <==> k in d && k !in pending)
    && (forall i, j :: 0 <= i < j < |order| ==> order[i] != order[j])
  }

  /** Writing one pending key keeps the bookkeeping and extends the fields
      by that key's pair. */
  lemma VisitKey(order: seq<string>, pending: set<string>, key: string, d: Data, formatFloat: string -> string)
    requires Visited(order, pending, d) && key in pending
    requires Fields(order, d, formatFloat).Ok? && !d[key].OtherV?
    ensures Visited(order + [key], pending - {key}, d)
    ensures Fields(order + [key], d, formatFloat) ==
      Ok(Fields(order, d, formatFloat).value + (" " + key + " " + SerializeValue(d[key], formatFloat).value))
  {
    var next := order + [key];
    assert next[..|order|] == order;
    var front := Fields(order, d, formatFloat).value;
    var text := SerializeValue(d[key], formatFloat).value;
    assert front + " " + key + " " + text == front + (" " + key + " " + text);
  }

  /** Once nothing is pending, the order visited is a key order and the
      buffer is its rendering. */
  lemma VisitedAll(rec: Record, order: seq<string>, formatFloat: string -> string)
    requires rec.data.Some? && Visited(order, {}, rec.data.value)
    requires Fields(order, rec.data.value, formatFloat).Ok?
    ensures IsKeyOrder(order, rec.data.value)
    ensures AllSerializable(rec.data.value)
    ensures Serializes(rec, formatFloat, "id " + Itoa(rec.id) + Fields(order, rec.data.value, formatFloat).value)
  {
    var d := rec.data.value;
    forall k | k in d ensures !d[k].OtherV? {
      var i :| 0 <= i < |order| && order[i] == k;
    }
    assert Render(rec, order, formatFloat) == Ok("id " + Itoa(rec.id) + Fields(order, d, formatFloat).value);
  }

  // ---------------------------------------------------------------------
  // Properties
  // ---------------------------------------------------------------------

  /** A record without attributes serializes to exactly `id N`. */
  lemma SerializesEmpty(rec: Record, formatFloat: string -> string, text: string)
    requires rec.data == Some(map[])
    ensures Serializes(rec, formatFloat, text) <==> text == "id " + Itoa(rec.id)
  {
    if text == "id " + Itoa(rec.id) {
      var order: seq<string> := [];
      assert IsKeyOrder(order, rec.data.value);
      assert text + "" == text;
      assert Render(rec, order, formatFloat) == Ok(text);
    }
    if Serializes(rec, formatFloat, text) {
      var order :| IsKeyOrder(order, rec.data.value) && Render(rec, order, formatFloat) == Ok(text);
    }
  }

  /** A record with one attribute serializes to exactly `id N key value`. */
  lemma SerializesSingle(rec: Record, formatFloat: string -> string, key: string, v: Value, text: string)
    requires rec.data == Some(map[key := v]) && !v.OtherV?
    ensures Serializes(rec, formatFloat, text) <==>
      text == "id " + Itoa(rec.id) + " " + key + " " + SerializeValue(v, formatFloat).value
  {
    RenderSingle(rec, formatFloat, key, v);
    if Serializes(rec, formatFloat, text) {
      var order :| IsKeyOrder(order, rec.data.value) && Render(rec, order, formatFloat) == Ok(text);
      OnlyKeyOrder(order, key, v);
    }
  }

  lemma RenderSingle(rec: Record, formatFloat: string -> string, key: string, v: Value)
    requires rec.data == Some(map[key := v]) && !v.OtherV?
    ensures IsKeyOrder([key], rec.data.value)
    ensures Render(rec, [key], formatFloat) ==
      Ok("id " + Itoa(rec.id) + " " + key + " " + SerializeValue(v, formatFloat).value)
  {
    var single := [key];
    var t := SerializeValue(v, formatFloat).value;
    var field := " " + key + " " + t;
    assert single[..0] == [];
    assert Fields(single, rec.data.value, formatFloat) == Ok("" + " " + key + " " + t);
    assert "" + " " + key + " " + t == field;
    var head := "id " + Itoa(rec.id);
    assert head + field == head + " " + key + " " + t;
  }

  /** The only order of a one-key map is that key. */
  lemma OnlyKeyOrder(order: seq<string>, key: string, v: Value)
    requires IsKeyOrder(order, map[key := v])
    ensures order == [key]
  {
    KeyOrderSize(order, map[key := v]);
    assert order[0] in map[key := v];
  }

  /** A serialization holds every attribute, so two key orders of the
      same record visit the same keys, each once. */
  lemma KeyOrdersAgree(order1: seq<string>, order2: seq<string>, d: Data)
    requires IsKeyOrder(order1, d) && IsKeyOrder(order2, d)
    ensures |order1| == |order2| == |d|
  {
    KeyOrderSize(order1, d);
    KeyOrderSize(order2, d);
  }

  lemma KeyOrderSize(order: seq<string>, d: Data)
    requires IsKeyOrder(order, d)
    ensures |order| == |d|
  {
    DistinctCount(order);
    assert (set k | k in order) == d.Keys;
  }

  /** A sequence without repeats has as many elements as it has members. */
  lemma {:induction false} DistinctCount<T>(s: seq<T>)
    requires forall i, j :: 0 <= i < j < |s| ==> s[i] != s[j]
    ensures |set x | x in s| == |s|
    decreases |s|
  {
    if s != [] {
      var front := s[..|s| - 1];
      DistinctCount(front);
      assert (set x | x in s) == (set x | x in front) + {s[|s| - 1]};
      assert s[|s| - 1] !in front;
    }
  }

  /** Values written by the parser read back as themselves: an int as its
      decimal text, a bool as `true`/`false`, and a string, which the parser
      always stores starting with a quote, verbatim. Floats depend on the
      float formatter and are not covered. */
  predicate Rereadable(v: Value)
  {
    || (v.IntV? && MinInt64 <= v.i <= MaxInt64)
    || v.BoolV?
    || (v.StrV? && |v.s| > 0 && v.s[0] == '\'')
  }

  lemma InferredRereadable(token: string)
    ensures !Parser.Infer(token).FloatV? ==> Rereadable(Parser.Infer(token))
  {
  }

  /** Parsing a serialized value gives the value back. */
  lemma ValueRoundTrip(v: Value, formatFloat: string -> string)
    requires Rereadable(v)
    ensures Parser.Infer(SerializeValue(v, formatFloat).value) == v
  {
    match v
    case IntV(n) => IntRoundTrip(n);
    case BoolV(b) => BoolRoundTrip(b);
    case StrV(_) =>
  }

  lemma IntRoundTrip(n: int)
    requires MinInt64 <= n <= MaxInt64
    ensures Parser.Infer(Itoa(n)) == IntV(n)
  {
    var t := Itoa(n);
    AtoiItoa(n);
    assert IsDigit(t[0]) || t[0] == '-';
    assert ToUpper(t)[0] == UpperChar(t[0]) == t[0];
  }

  lemma BoolRoundTrip(b: bool)
    ensures Parser.Infer(FormatBool(b)) == BoolV(b)
  {
    assert ToUpper("true") == "TRUE";
    assert ToUpper("false") == "FALSE";
  }

  /** Re-reading a value after a round trip through the store and the
      serializer is idempotent: parse, serialize and parse again gives the
      first parse's value, for every token that is not a float. */
  lemma InferSerializeInfer(token: string, formatFloat: string -> string)
    requires !Parser.Infer(token).FloatV?
    ensures Parser.Infer(SerializeValue(Parser.Infer(token), formatFloat).value) == Parser.Infer(token)
  {
    InferredRereadable(token);
    ValueRoundTrip(Parser.Infer(token), formatFloat);
  }
}

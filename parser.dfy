/** The command parser (internal/database/parser/parser.go): one line of
    text becomes an operation word, an entity name, an id address and the
    typed attributes to write. */
module Parser {
  import opened Wrappers
  import opened GoText
  import opened StorageData

  /** An id address: `0, 0` for none (all records), `n, n` for one id, and
      anything else for a range whose zero bounds are open. */
  datatype Id = Id(lower: nat, upper: nat)

  datatype ParsedCommand = ParsedCommand(operation: string, entity: string, id: Id, data: Option<Data>)

  const InvalidCommand := "invalid command"
  const InvalidEntity := "invalid entity"
  const InvalidIdFormat := "invalid id format"
  const UnpairedData := "invalid data, different number of attributes and values"

  // ---------------------------------------------------------------------
  // Tokens: the regular expression [^\s"']+|"[^"]*"|'[^']*' applied with
  // FindAllString, written out as a left-to-right scanner.
  // ---------------------------------------------------------------------

  /** `\s` in Go's regular expressions: space, tab, newline, form feed and
      carriage return. */
  predicate IsSpace(c: char)
  {
    c == ' ' || c == '\t' || c == '\n' || c == '\U{000C}' || c == '\r'
  }

  predicate IsQuote(c: char)
  {
    c == '"' || c == '\''
  }

  predicate IsWordChar(c: char)
  {
    !IsSpace(c) && !IsQuote(c)
  }

  /** A bare token: a non-empty run of characters that are neither spaces
      nor quotes. */
  predicate IsWord(t: string)
  {
    |t| > 0 && forall i :: 0 <= i < |t| ==> IsWordChar(t[i])
  }

  /** A quoted token: an opening quote, anything but that quote, and the
      same quote again. */
  predicate IsQuoted(t: string)
  {
    |t| >= 2 && IsQuote(t[0]) && t[|t| - 1] == t[0] && forall i :: 0 < i < |t| - 1 ==> t[i] != t[0]
  }

  /** Length of the longest prefix of `s` made of word characters. */
  function WordLength(s: string): (n: nat)
    ensures n <= |s|
    ensures forall i :: 0 <= i < n ==> IsWordChar(s[i])
    ensures n < |s| ==> !IsWordChar(s[n])
  {
    if s == [] || !IsWordChar(s[0]) then 0 else 1 + WordLength(s[1..])
  }

  /** The tokens of a command line, in order. A quote with no closing
      partner matches nothing and is skipped, as the regular expression
      finds no match starting there. */
  function Tokens(s: string): (ts: seq<string>)
    ensures forall i :: 0 <= i < |ts| ==> IsWord(ts[i]) || IsQuoted(ts[i])
    decreases |s|
  {
    if s == [] then []
    else if IsSpace(s[0]) then Tokens(s[1..])
    else if IsQuote(s[0]) then
      var close := IndexOf(s[1..], s[0]);
      if close < |s| - 1 then [s[..close + 2]] + Tokens(s[close + 2..])
      else Tokens(s[1..])
    else
      var n := WordLength(s);
      [s[..n]] + Tokens(s[n..])
  }

  /** Tokens separated by single spaces. */
  function JoinSpaced(ws: seq<string>): string
  {
    if ws == [] then "" else if |ws| == 1 then ws[0] else ws[0] + " " + JoinSpaced(ws[1..])
  }

  lemma {:induction false} WordLengthOfWord(w: string, rest: string)
    requires IsWord(w)
    requires rest == [] || !IsWordChar(rest[0])
    ensures WordLength(w + rest) == |w|
  {
    if |w| > 1 {
      assert (w + rest)[1..] == w[1..] + rest;
      WordLengthOfWord(w[1..], rest);
    } else {
      assert (w + rest)[1..] == rest;
    }
  }

  lemma TokensOfWordThen(w: string, rest: string)
    requires IsWord(w)
    requires rest == [] || !IsWordChar(rest[0])
    ensures Tokens(w + rest) == [w] + Tokens(rest)
  {
    WordLengthOfWord(w, rest);
    assert (w + rest)[..|w|] == w && (w + rest)[|w|..] == rest;
  }

  lemma TokensOfQuotedThen(w: string, rest: string)
    requires IsQuoted(w)
    ensures Tokens(w + rest) == [w] + Tokens(rest)
  {
    var s := w + rest;
    var q := w[0];
    var inner := w[1..|w| - 1];
    assert s[1..] == inner + ([q] + rest);
    assert q !in inner;
    IndexOfAppend(inner, [q] + rest, q);
    assert IndexOf(s[1..], s[0]) == |w| - 2;
    assert s[..|w|] == w && s[|w|..] == rest;
  }

  /** A space before the rest of a line is skipped. */
  lemma TokensOfSpaceThen(c: char, rest: string)
    requires IsSpace(c)
    ensures Tokens([c] + rest) == Tokens(rest)
  {
    assert ([c] + rest)[1..] == rest;
  }

  /** A quote with no partner after it starts no token: the scanner goes on
      right after it. */
  lemma TokensOfUnclosedQuote(c: char, rest: string)
    requires IsQuote(c) && c !in rest
    ensures Tokens([c] + rest) == Tokens(rest)
  {
    assert ([c] + rest)[1..] == rest;
  }

  /** Splitting a space-separated line of bare and quoted tokens gives the
      tokens back: the scanner keeps every quoted run whole, spaces
      included, and cuts bare words exactly at the spaces. */
  lemma {:induction false} TokensOfJoin(ws: seq<string>)
    requires forall i :: 0 <= i < |ws| ==> IsWord(ws[i]) || IsQuoted(ws[i])
    ensures Tokens(JoinSpaced(ws)) == ws
    decreases |ws|, 1
  {
    if ws != [] {
      var w := ws[0];
      var rest := AfterFirst(ws);
      assert JoinSpaced(ws) == w + rest;
      TokensOfRest(ws);
      if IsWord(w) {
        TokensOfWordThen(w, rest);
      } else {
        TokensOfQuotedThen(w, rest);
      }
      assert ws == [w] + ws[1..];
    }
  }

  /** What follows the first token of a joined line. */
  function AfterFirst(ws: seq<string>): string
    requires ws != []
  {
    if |ws| == 1 then "" else " " + JoinSpaced(ws[1..])
  }

  lemma {:induction false} TokensOfRest(ws: seq<string>)
    requires ws != [] && forall i :: 0 <= i < |ws| ==> IsWord(ws[i]) || IsQuoted(ws[i])
    ensures Tokens(AfterFirst(ws)) == ws[1..]
    ensures AfterFirst(ws) == [] || !IsWordChar(AfterFirst(ws)[0])
    decreases |ws|, 0
  {
    if |ws| > 1 {
      var rest := AfterFirst(ws);
      assert forall i :: 0 <= i < |ws[1..]| ==> ws[1..][i] == ws[i + 1];
      TokensOfJoin(ws[1..]);
      assert rest[1..] == JoinSpaced(ws[1..]);
    }
  }

  /** `getParts`: a command needs at least an operation and an entity. */
  function GetParts(cmd: string): (r: Result<seq<string>, string>)
    ensures r.Ok? <==> |Tokens(cmd)| >= 2
    ensures r.Ok? ==> r.value == Tokens(cmd)
    ensures r.Err? ==> r.error == InvalidCommand
  {
    var parts := Tokens(cmd);
    if |parts| < 2 then Err(InvalidCommand) else Ok(parts)
  }

  // ---------------------------------------------------------------------
  // Entity and id address
  // ---------------------------------------------------------------------

  /** `getEntity`: the text before the first `[` when there is one, else
      the text before the first `:`; it must not be empty. */
  function GetEntity(part: string): (r: Result<string, string>)
    ensures r.Ok? ==> r.value != "" && r.value <= part
    ensures r.Ok? && '[' in part ==> '[' !in r.value && part[|r.value|] == '['
    ensures r.Ok? && '[' !in part ==> ':' !in r.value && (|r.value| == |part| || part[|r.value|] == ':')
    ensures r.Err? <==> part == "" || part[0] == '[' || ('[' !in part && part[0] == ':')
    ensures r.Err? ==> r.error == InvalidEntity
  {
    var splitChar := if '[' in part then '[' else ':';
    var entity := Before(part, splitChar);
    if entity == "" then Err(InvalidEntity) else Ok(entity)
  }

  /** `parseId`: empty text is the open bound 0; otherwise a decimal
      integer of at least 1. */
  function ParseId(s: string): (r: Result<nat, string>)
    ensures s == "" ==> r == Ok(0)
    ensures r.Ok? && s != "" ==> r.value >= 1 && Atoi(s) == Some(r.value as int)
    ensures r.Err? <==> s != "" && (Atoi(s).None? || Atoi(s).value < 1)
    ensures r.Err? ==> r.error == InvalidIdFormat
  {
    if s == "" then Ok(0)
    else match Atoi(s)
      case None => Err(InvalidIdFormat)
      case Some(n) => if n < 1 then Err(InvalidIdFormat) else Ok(n)
  }

  /** The text between the brackets of a bracket address, with every `[`
      and `]` taken out. */
  function BracketText(part: string): string
    requires '[' in part
  {
    RemoveAll(RemoveAll(Second(part, '['), '['), ']')
  }

  /** `getIds` does not panic. The second field of a bracket address is
      read without checking that there is one, but only once the first bound
      has parsed; so a bracket text without `:` panics exactly when that
      text is empty or a valid id. */
  predicate IdsDefined(part: string)
  {
    '[' in part && ':' !in BracketText(part) ==> ParseId(Before(BracketText(part), ':')).Err?
  }

  /** `getIds`. No `:` and no `[` gives `0, 0`; `e:N` gives `N, N` and
      `e[L:U]` gives `L, U`, an empty bound standing for 0. It never reports
      an error: a malformed or zero bound in either form is swallowed and the
      whole address becomes `0, 0`. */
  function GetIds(part: string): (r: Result<Id, string>)
    requires IdsDefined(part)
    ensures r.Ok?
    ensures '[' !in part && ':' !in part ==> r.value == Id(0, 0)
    ensures '[' !in part && ':' in part ==> r.value.lower == r.value.upper
    ensures '[' !in part && ':' in part && r.value.lower != 0 ==>
      Atoi(Second(part, ':')) == Some(r.value.lower as int)
    ensures '[' in part && r.value != Id(0, 0) ==>
      ParseId(Before(BracketText(part), ':')) == Ok(r.value.lower) &&
      ParseId(Second(BracketText(part), ':')) == Ok(r.value.upper)
    ensures '[' !in part && ':' in part && ParseId(Second(part, ':')).Ok? ==>
      r.value == Id(ParseId(Second(part, ':')).value, ParseId(Second(part, ':')).value)
    ensures '[' in part && ParseId(Before(BracketText(part), ':')).Ok? ==>
      ':' in BracketText(part) &&
      (ParseId(Second(BracketText(part), ':')).Ok? ==>
         r.value == Id(ParseId(Before(BracketText(part), ':')).value, ParseId(Second(BracketText(part), ':')).value))
    ensures '[' in part && ParseId(Before(BracketText(part), ':')).Err? ==> r.value == Id(0, 0)
    ensures '[' in part && ParseId(Before(BracketText(part), ':')).Ok? ==>
      ParseId(Second(BracketText(part), ':')).Err? ==> r.value == Id(0, 0)
    ensures '[' !in part && ':' in part && ParseId(Second(part, ':')).Err? ==> r.value == Id(0, 0)
  {
    if '[' in part then
      var ids := BracketText(part);
      match ParseId(Before(ids, ':'))
      case Err(_) => Ok(Id(0, 0))
      case Ok(lower) =>
        match ParseId(Second(ids, ':'))
        case Err(_) => Ok(Id(0, 0))
        case Ok(upper) => Ok(Id(lower, upper))
    else if ':' in part then
      match ParseId(Second(part, ':'))
      case Err(_) => Ok(Id(0, 0))
      case Ok(id) => Ok(Id(id, id))
    else
      Ok(Id(0, 0))
  }

  /** How a client writes an address: `e`, `e:N`, or `e[L:U]` with an empty
      side for an open bound. */
  function Address(entity: string, id: Id): string
  {
    if id.lower == id.upper then
      if id.lower == 0 then entity else entity + ":" + Itoa(id.lower)
    else
      entity + ("[" + (Bound(id.lower) + (":" + (Bound(id.upper) + "]"))))
  }

  function Bound(n: nat): string
  {
    if n == 0 then "" else Itoa(n)
  }

  lemma ParseIdOfBound(n: nat)
    requires n <= MaxInt64
    ensures ParseId(Bound(n)) == Ok(n)
    ensures ':' !in Bound(n) && '[' !in Bound(n) && ']' !in Bound(n)
  {
    if n > 0 {
      AtoiItoa(n);
    }
    assert forall i :: 0 <= i < |Bound(n)| ==> IsDigit(Bound(n)[i]);
  }

  lemma SingleAddressRoundTrip(entity: string, n: nat)
    requires entity != "" && '[' !in entity && ':' !in entity
    requires 1 <= n <= MaxInt64
    ensures IdsDefined(entity + ":" + Itoa(n))
    ensures GetEntity(entity + ":" + Itoa(n)) == Ok(entity)
    ensures GetIds(entity + ":" + Itoa(n)) == Ok(Id(n, n))
  {
    var digits := Itoa(n);
    var a := entity + ":" + digits;
    ParseIdOfBound(n);
    assert digits == Bound(n);
    IndexOfAppend(entity, ":" + digits, ':');
    assert a == entity + (":" + digits);
    assert Before(a, ':') == entity;
    assert a[IndexOf(a, ':') + 1..] == digits;
    assert Before(digits, ':') == digits;
  }

  lemma RangeAddressRoundTrip(entity: string, lower: nat, upper: nat)
    requires entity != "" && '[' !in entity && ':' !in entity
    requires lower <= MaxInt64 && upper <= MaxInt64
    ensures var a := entity + ("[" + (Bound(lower) + (":" + (Bound(upper) + "]"))));
      IdsDefined(a) && GetEntity(a) == Ok(entity) && GetIds(a) == Ok(Id(lower, upper))
  {
    var lo, hi := Bound(lower), Bound(upper);
    ParseIdOfBound(lower);
    ParseIdOfBound(upper);
    BracketTextOf(lo, hi);
    AfterBracket(entity, lo + (":" + (hi + "]")));
    SplitBounds(lo, hi);
  }

  lemma AfterBracket(entity: string, tail: string)
    requires '[' !in entity && '[' !in tail
    ensures Before(entity + ("[" + tail), '[') == entity
    ensures Second(entity + ("[" + tail), '[') == tail
  {
    var a := entity + ("[" + tail);
    IndexOfAppend(entity, "[" + tail, '[');
    assert a[IndexOf(a, '[') + 1..] == tail;
  }

  lemma SplitBounds(lo: string, hi: string)
    requires ':' !in lo && ':' !in hi
    ensures ':' in lo + (":" + hi)
    ensures Before(lo + (":" + hi), ':') == lo
    ensures Second(lo + (":" + hi), ':') == hi
  {
    IndexOfAppend(lo, ":" + hi, ':');
    assert (lo + (":" + hi))[|lo| + 1..] == hi;
  }

  lemma BracketTextOf(lo: string, hi: string)
    requires '[' !in lo && ':' !in lo && ']' !in lo
    requires '[' !in hi && ':' !in hi && ']' !in hi
    ensures '[' !in lo + (":" + (hi + "]"))
    ensures RemoveAll(RemoveAll(lo + (":" + (hi + "]")), '['), ']') == lo + (":" + hi)
  {
    var t := lo + (":" + (hi + "]"));
    assert '[' !in t;
    RemoveAllAppend(lo, ":" + (hi + "]"), ']');
    RemoveAllAppend(":", hi + "]", ']');
    RemoveAllAppend(hi, "]", ']');
  }

  /** Every address a client can write for a plain entity name parses back
      to that entity and that id address. */
  lemma AddressRoundTrip(entity: string, id: Id)
    requires entity != "" && '[' !in entity && ':' !in entity
    requires id.lower <= MaxInt64 && id.upper <= MaxInt64
    ensures IdsDefined(Address(entity, id))
    ensures GetEntity(Address(entity, id)) == Ok(entity)
    ensures GetIds(Address(entity, id)) == Ok(id)
  {
    if id.lower != id.upper {
      RangeAddressRoundTrip(entity, id.lower, id.upper);
    } else if id.lower != 0 {
      SingleAddressRoundTrip(entity, id.lower);
    }
  }

  // ---------------------------------------------------------------------
  // Attributes
  // ---------------------------------------------------------------------

  /** `parseDataTypes`: the type of a value token, tried in order: a token
      starting with a single quote is kept verbatim, then booleans in any
      letter case, then integers, then floats, and anything else becomes a
      string wrapped in single quotes. */
  function Infer(part: string): (v: Value)
    ensures !v.OtherV?
    ensures v == StrV(part) <==> |part| > 0 && part[0] == '\''
    ensures v.BoolV? <==> !(|part| > 0 && part[0] == '\'') && (ToUpper(part) == "TRUE" || ToUpper(part) == "FALSE")
    ensures v.BoolV? ==> (v.b <==> ToUpper(part) == "TRUE")
    ensures v.IntV? ==> Atoi(part) == Some(v.i)
    ensures v.FloatV? ==> v.literal == part && IsFloatLiteral(part) && Atoi(part).None?
    ensures v.StrV? && v != StrV(part) ==> v.s == "'" + part + "'" && !IsFloatLiteral(part)
  {
    if |part| > 0 && part[0] == '\'' then StrV(part)
    else if ToUpper(part) == "TRUE" then BoolV(true)
    else if ToUpper(part) == "FALSE" then BoolV(false)
    else match Atoi(part)
      case Some(n) => IntV(n)
      case None =>
        if IsFloatLiteral(part) then FloatV(part)
        else StrV("'" + part + "'")
  }

  /** The attributes written by key/value tokens taken in pairs, later
      pairs overwriting earlier ones. */
  function PairUp(parts: seq<string>): Data
    requires |parts| % 2 == 0
    decreases |parts|
  {
    if parts == [] then map[]
    else PairUp(parts[..|parts| - 2])[parts[|parts| - 2] := Infer(parts[|parts| - 1])]
  }

  /** The keys are exactly the tokens at even positions. */
  lemma {:induction false} PairUpKeys(parts: seq<string>, k: string)
    requires |parts| % 2 == 0
    ensures k in PairUp(parts) <==> exists i :: 0 <= i < |parts| && i % 2 == 0 && parts[i] == k
    decreases |parts|
  {
    if parts != [] {
      var n := |parts|;
      var front := parts[..n - 2];
      var last := parts[n - 2];
      assert |front| % 2 == 0 && (n - 2) % 2 == 0;
      assert PairUp(parts).Keys == PairUp(front).Keys + {last};
      PairUpKeys(front, k);
      if k in PairUp(parts) {
        if k == last {
          assert 0 <= n - 2 < n && (n - 2) % 2 == 0 && parts[n - 2] == k;
        } else {
          var i :| 0 <= i < |front| && i % 2 == 0 && front[i] == k;
          assert 0 <= i < n && i % 2 == 0 && parts[i] == k;
        }
      }
      if exists i :: 0 <= i < n && i % 2 == 0 && parts[i] == k {
        var i :| 0 <= i < n && i % 2 == 0 && parts[i] == k;
        if i < n - 2 {
          assert front[i] == k;
          assert k in PairUp(front);
        } else {
          EvenGap(n, i);
        }
      }
    }
  }

  /** An even position below an even length leaves room for its pair. */
  lemma EvenGap(n: int, i: int)
    requires n % 2 == 0 && i % 2 == 0 && i < n
    ensures i + 2 <= n
  {
    assert n == 2 * (n / 2) && i == 2 * (i / 2);
  }

  /** A key's value comes from its last pair: a later duplicate key
      overwrites an earlier one. */
  lemma {:induction false} PairUpLastWins(parts: seq<string>, i: nat)
    requires |parts| % 2 == 0 && i < |parts| && i % 2 == 0
    requires forall j :: i < j < |parts| && j % 2 == 0 ==> parts[j] != parts[i]
    ensures parts[i] in PairUp(parts) && PairUp(parts)[parts[i]] == Infer(parts[i + 1])
    decreases |parts|
  {
    var n := |parts|;
    EvenGap(n, i);
    var front := parts[..n - 2];
    var last := parts[n - 2];
    assert PairUp(parts) == PairUp(front)[last := Infer(parts[n - 1])];
    if i < n - 2 {
      assert (n - 2) % 2 == 0 && |front| % 2 == 0;
      assert front[i] == parts[i] && front[i + 1] == parts[i + 1] && last != parts[i];
      PairUpLastWins(front, i);
    }
  }

  /** `getData`'s result as a function: no tokens give a nil map, an odd
      count is an error, and otherwise the pairs. */
  function DataOf(parts: seq<string>): (r: Result<Option<Data>, string>)
    ensures r.Ok? && r.value.None? <==> parts == []
    ensures r.Err? <==> |parts| % 2 != 0
    ensures r.Err? ==> r.error == UnpairedData
  {
    if |parts| == 0 then Ok(None)
    else if |parts| % 2 != 0 then Err(UnpairedData)
    else Ok(Some(PairUp(parts)))
  }

  /** `getData`: fills the attribute map pair by pair. */
  method GetData(parts: seq<string>) returns (r: Result<Option<Data>, string>)
    ensures r == DataOf(parts)
  {
    if |parts| == 0 {
      return Ok(None);
    }
    if |parts| % 2 != 0 {
      return Err(UnpairedData);
    }
    var data: Data := map[];
    var i := 0;
    while i < |parts|
      invariant 0 <= i <= |parts| && i % 2 == 0
      invariant data == PairUp(parts[..i])
    {
      assert parts[..i + 2][..i] == parts[..i];
      data := data[parts[i] := Infer(parts[i + 1])];
      i := i + 2;
    }
    assert parts[..i] == parts;
    return Ok(Some(data));
  }

  // ---------------------------------------------------------------------
  // The whole command
  // ---------------------------------------------------------------------

  /** `ParseCommand` does not panic on `cmd`. */
  predicate ParseDefined(cmd: string)
  {
    TokensDefined(Tokens(cmd))
  }

  predicate TokensDefined(parts: seq<string>)
  {
    |parts| >= 2 && GetEntity(parts[1]).Ok? ==> IdsDefined(parts[1])
  }

  /** `ParseCommand` as a function. Each stage's error is prefixed with the
      stage that failed; the operation word is upper-cased but not checked. */
  function Parse(cmd: string): (r: Result<ParsedCommand, string>)
    requires ParseDefined(cmd)
  {
    match GetParts(cmd)
    case Err(e) => Err("Error parsing command: " + e)
    case Ok(parts) => ParseParts(parts)
  }

  /** The stages after `getParts`, on its tokens. */
  function ParseParts(parts: seq<string>): (r: Result<ParsedCommand, string>)
    requires |parts| >= 2 && TokensDefined(parts)
  {
    match GetEntity(parts[1])
    case Err(e) => Err("Error parsing entity: " + e)
    case Ok(entity) =>
      match GetIds(parts[1])
      case Err(e) => Err("Error parsing id: " + e)
      case Ok(ids) =>
        match DataOf(parts[2..])
        case Err(e) => Err("Error parsing data: " + e)
        case Ok(data) => Ok(ParsedCommand(ToUpper(parts[0]), entity, ids, data))
  }

  /** How a parse fails: fewer than two tokens, an empty entity name, or
      attribute tokens that do not pair up, each with its own message; the
      operation word plays no part. */
  lemma ParseOutcome(cmd: string)
    requires ParseDefined(cmd)
    ensures |Tokens(cmd)| < 2 ==> Parse(cmd) == Err("Error parsing command: " + InvalidCommand)
    ensures |Tokens(cmd)| >= 2 && GetEntity(Tokens(cmd)[1]).Err? ==>
      Parse(cmd) == Err("Error parsing entity: " + InvalidEntity)
    ensures |Tokens(cmd)| >= 2 && GetEntity(Tokens(cmd)[1]).Ok? && |Tokens(cmd)| % 2 != 0 ==>
      Parse(cmd) == Err("Error parsing data: " + UnpairedData)
  {
    var parts := Tokens(cmd);
    if |parts| >= 2 {
      PartsOutcome(parts);
    }
  }

  lemma PartsOutcome(parts: seq<string>)
    requires |parts| >= 2 && TokensDefined(parts)
    ensures GetEntity(parts[1]).Err? ==> ParseParts(parts) == Err("Error parsing entity: " + InvalidEntity)
    ensures GetEntity(parts[1]).Ok? && |parts| % 2 != 0 ==>
      ParseParts(parts) == Err("Error parsing data: " + UnpairedData)
    ensures ParseParts(parts).Ok? <==> GetEntity(parts[1]).Ok? && |parts| % 2 == 0
  {
    assert |parts[2..]| % 2 == |parts| % 2;
  }

  /** A parse succeeds exactly when none of the failures above applies. */
  lemma ParseOk(cmd: string)
    requires ParseDefined(cmd)
    ensures Parse(cmd).Ok? <==> |Tokens(cmd)| >= 2 && GetEntity(Tokens(cmd)[1]).Ok? && |Tokens(cmd)| % 2 == 0
  {
    var parts := Tokens(cmd);
    if |parts| >= 2 {
      PartsOutcome(parts);
    }
  }

  lemma ParseSuccess(cmd: string)
    requires ParseDefined(cmd) && Parse(cmd).Ok?
    ensures var c := Parse(cmd).value;
      && c.operation == ToUpper(Tokens(cmd)[0])
      && c.entity != ""
      && (c.data.Some? <==> |Tokens(cmd)| > 2)
      && (c.data.Some? ==> c.data.value != map[] && forall k :: k in c.data.value ==> !c.data.value[k].OtherV?)
  {
    var parts := Tokens(cmd);
    if |parts| > 2 {
      NonEmptyPairs(parts[2..]);
      PairUpTyped(parts[2..]);
    }
  }

  /** Inferred values never have an unknown type. */
  lemma {:induction false} PairUpTyped(parts: seq<string>)
    requires |parts| % 2 == 0
    ensures forall k :: k in PairUp(parts) ==> !PairUp(parts)[k].OtherV?
    decreases |parts|
  {
    if parts != [] {
      PairUpTyped(parts[..|parts| - 2]);
    }
  }

  lemma NonEmptyPairs(parts: seq<string>)
    requires |parts| % 2 == 0 && parts != []
    ensures parts[|parts| - 2] in PairUp(parts)
  {
  }

  /** `ParseCommand`. */
  method ParseCommand(cmd: string) returns (r: Result<ParsedCommand, string>)
    requires ParseDefined(cmd)
    ensures r == Parse(cmd)
  {
    var parts := GetParts(cmd);
    if parts.Err? {
      return Err("Error parsing command: " + parts.error);
    }
    var entity := GetEntity(parts.value[1]);
    if entity.Err? {
      return Err("Error parsing entity: " + entity.error);
    }
    // the id stage never fails (see GetIds), so its error branch is left out
    var ids := GetIds(parts.value[1]);
    var data := GetData(parts.value[2..]);
    if data.Err? {
      return Err("Error parsing data: " + data.error);
    }
    return Ok(ParsedCommand(ToUpper(parts.value[0]), entity.value, ids.value, data.value));
  }
}

/** A record's attributes (internal/database/storage/data.go): a map from
    key to one typed value, with typed accessors for integers. */
module StorageData {
  import opened Wrappers
  import opened GoText

  /** The dynamic types a value can have. `FloatV` keeps the literal text
      the parser accepted as a float64; `OtherV` stands for any Go type the
      serializer does not know. */
  datatype Value = IntV(i: int) | FloatV(literal: string) | BoolV(b: bool) | StrV(s: string) | OtherV

  type Data = map<string, Value>

  /** `KeyNotFoundError` and `IncorrectKeyTypeError`. */
  datatype DataError = KeyNotFound(key: string) | IncorrectKeyType(key: string, expectedType: string)

  /** The `Error()` texts of the two error kinds. Both name the key in
      quotes, and the two kinds never print the same text. */
  function Message(e: DataError): (m: string)
    ensures "Key: '" + e.key + "'" <= m
    ensures e.KeyNotFound? <==> |m| == |e.key| + 7
  {
    match e
    case KeyNotFound(k) => "Key: '" + k + "'"
    case IncorrectKeyType(k, t) => "Key: '" + k + "'" + " doesn't have type '" + t + "'"
  }

  /** `Data.GetInt`: the integer under `key`, or zero and the reason there
      is none. */
  function GetInt(d: Data, key: string): (r: (int, Option<DataError>))
    ensures r.1.None? <==> key in d && d[key].IntV?
    ensures r.1.None? ==> d[key] == IntV(r.0)
    ensures r.1.Some? ==> r.0 == 0 && r.1.value.key == key
    ensures r.1 == Some(KeyNotFound(key)) <==> key !in d
    ensures r.1 == Some(IncorrectKeyType(key, "int")) <==> key in d && !d[key].IntV?
  {
    if key !in d then (0, Some(KeyNotFound(key)))
    else match d[key]
      case IntV(v) => (v, None)
      case _ => (0, Some(IncorrectKeyType(key, "int")))
  }

  /** `Data.SetInt`: afterwards `key` holds `value` as an int, whether or
      not it was there before, and every other key is as it was. */
  function SetInt(d: Data, key: string, value: int): (d': Data)
    ensures GetInt(d', key) == (value, None)
    ensures d'.Keys == d.Keys + {key}
    ensures forall k :: k in d && k != key ==> d'[k] == d[k]
  {
    d[key := IntV(value)]
  }

  /** Go's `int` is 64 bits wide: arithmetic wraps into the int64 range. */
  function Wrap64(x: int): (w: int)
    ensures MinInt64 <= w <= MaxInt64
    ensures MinInt64 <= x <= MaxInt64 ==> w == x
    ensures (w - x) % 0x1_0000_0000_0000_0000 == 0
  {
    MinInt64 + (x - MinInt64) % 0x1_0000_0000_0000_0000
  }

  /** Adding one to a wrapped value wraps like adding one first. */
  lemma WrapSucc(x: int)
    ensures Wrap64(Wrap64(x) + 1) == Wrap64(x + 1)
  {
    var a := x - MinInt64;
    var q := a / 0x1_0000_0000_0000_0000;
    var r := a % 0x1_0000_0000_0000_0000;
    assert a == q * 0x1_0000_0000_0000_0000 + r;
    if r + 1 < 0x1_0000_0000_0000_0000 {
      assert (a + 1) % 0x1_0000_0000_0000_0000 == r + 1;
    } else {
      assert a + 1 == (q + 1) * 0x1_0000_0000_0000_0000;
      assert (a + 1) % 0x1_0000_0000_0000_0000 == 0;
    }
  }

  /** One critical section of the concurrent-increment scenario: read the
      integer under `key` and write back `balance + 1`, in 64-bit
      arithmetic. */
  function Increment(d: Data, key: string): Data
  {
    SetInt(d, key, Wrap64(GetInt(d, key).0 + 1))
  }

  function IncrementTimes(d: Data, key: string, n: nat): Data
  {
    if n == 0 then d else Increment(IncrementTimes(d, key, n - 1), key)
  }

  /** Increments serialised by the record's lock lose nothing: `n` of them
      on an int attribute add `n` modulo 2^64, which is exactly `n` when the
      sum stays within int64, and no other key moves. */
  lemma {:induction false} IncrementsAccumulate(d: Data, key: string, n: nat)
    requires GetInt(d, key).1.None?
    ensures GetInt(IncrementTimes(d, key, n), key) ==
      (if n == 0 then GetInt(d, key).0 else Wrap64(GetInt(d, key).0 + n), None)
    ensures MinInt64 <= GetInt(d, key).0 && GetInt(d, key).0 + n <= MaxInt64 ==>
      GetInt(IncrementTimes(d, key, n), key).0 == GetInt(d, key).0 + n
    ensures IncrementTimes(d, key, n).Keys == d.Keys
    ensures forall k :: k in d && k != key ==> IncrementTimes(d, key, n)[k] == d[k]
  {
    if n > 0 {
      IncrementsAccumulate(d, key, n - 1);
      if n > 1 {
        WrapSucc(GetInt(d, key).0 + (n - 1));
      }
    }
  }
}

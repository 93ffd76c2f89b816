/** The parts of Go's `strings` and `strconv` packages that the database
    relies on, over strings whose characters stand for bytes. */
module GoText {
  import opened Wrappers

  // ---------------------------------------------------------------------
  // strings
  // ---------------------------------------------------------------------

  /** Index of the first `c` in `s`, or `|s|` when there is none. */
  function IndexOf(s: string, c: char): (i: nat)
    ensures i <= |s|
    ensures i < |s| <==> c in s
    ensures i < |s| ==> s[i] == c
    ensures forall j :: 0 <= j < i ==> s[j] != c
  {
    if s == [] then 0
    else if s[0] == c then 0
    else 1 + IndexOf(s[1..], c)
  }

  lemma {:induction false} IndexOfAppend(a: string, b: string, c: char)
    ensures c in a ==> IndexOf(a + b, c) == IndexOf(a, c)
    ensures c !in a ==> IndexOf(a + b, c) == |a| + IndexOf(b, c)
  {
    if a != [] {
      assert (a + b)[1..] == a[1..] + b;
      IndexOfAppend(a[1..], b, c);
    } else {
      assert a + b == b;
    }
  }

  /** `strings.Split(s, c)[0]`: everything before the first `c`. */
  function Before(s: string, c: char): (r: string)
    ensures c !in r
    ensures r <= s
    ensures c !in s ==> r == s
  {
    s[..IndexOf(s, c)]
  }

  /** `strings.Split(s, c)[1]`: the text between the first and the second
      `c` (or the end of `s`). Go panics when `s` holds no `c`. */
  function Second(s: string, c: char): (r: string)
    requires c in s
    ensures c !in r
  {
    var rest := s[IndexOf(s, c) + 1..];
    Before(rest, c)
  }

  /** `strings.ReplaceAll(s, string(c), "")`. */
  function RemoveAll(s: string, c: char): (r: string)
    ensures c !in r
    ensures c !in s ==> r == s
    ensures |r| <= |s|
  {
    if s == [] then []
    else if s[0] == c then RemoveAll(s[1..], c)
    else [s[0]] + RemoveAll(s[1..], c)
  }

  lemma {:induction false} RemoveAllAppend(a: string, b: string, c: char)
    ensures RemoveAll(a + b, c) == RemoveAll(a, c) + RemoveAll(b, c)
  {
    if a != [] {
      assert (a + b)[1..] == a[1..] + b;
      RemoveAllAppend(a[1..], b, c);
    } else {
      assert a + b == b;
    }
  }

  function UpperChar(c: char): char
  {
    if 'a' <= c <= 'z' then (c as int - 'a' as int + 'A' as int) as char else c
  }

  /** `strings.ToUpper`, on ASCII letters. */
  function ToUpper(s: string): (r: string)
    ensures |r| == |s|
    ensures forall i :: 0 <= i < |s| ==> r[i] == UpperChar(s[i])
  {
    seq(|s|, i requires 0 <= i < |s| => UpperChar(s[i]))
  }

  // ---------------------------------------------------------------------
  // strconv: decimal integers
  // ---------------------------------------------------------------------

  const MinInt64: int := -0x8000_0000_0000_0000
  const MaxInt64: int := 0x7FFF_FFFF_FFFF_FFFF

  predicate IsDigit(c: char)
  {
    '0' <= c <= '9'
  }

  predicate AllDigits(s: string)
  {
    forall i :: 0 <= i < |s| ==> IsDigit(s[i])
  }

  function DigitChar(d: nat): (c: char)
    requires d < 10
    ensures IsDigit(c)
  {
    ('0' as int + d) as char
  }

  function DigitValue(c: char): (d: nat)
    requires IsDigit(c)
    ensures d < 10
  {
    c as int - '0' as int
  }

  /** The value of a run of decimal digits, most significant first. */
  function DecimalValue(ds: string): nat
    requires AllDigits(ds)
  {
    if ds == [] then 0 else DecimalValue(ds[..|ds| - 1]) * 10 + DigitValue(ds[|ds| - 1])
  }

  /** The decimal digits of `n`, without leading zeros. */
  function NatToString(n: nat): (s: string)
    ensures |s| > 0 && AllDigits(s)
    ensures |s| > 1 ==> s[0] != '0'
    decreases n
  {
    if n < 10 then [DigitChar(n)] else NatToString(n / 10) + [DigitChar(n % 10)]
  }

  /** `strconv.Itoa` (and `fmt.Sprint` of an unsigned id). */
  function Itoa(n: int): (s: string)
    ensures |s| > 0
    ensures n >= 0 ==> AllDigits(s)
    ensures n < 0 ==> s[0] == '-' && AllDigits(s[1..])
  {
    if n < 0 then "-" + NatToString(-n) else NatToString(n)
  }

  /** The text after an optional leading `+` or `-`. */
  function Unsigned(s: string): string
  {
    if |s| > 0 && (s[0] == '+' || s[0] == '-') then s[1..] else s
  }

  /** The value an optionally signed run of digits denotes. */
  function SignedValue(s: string): int
    requires AllDigits(Unsigned(s))
  {
    if |s| > 0 && s[0] == '-' then 0 - DecimalValue(Unsigned(s)) as int else DecimalValue(Unsigned(s))
  }

  /** `strconv.Atoi` on a 64-bit platform: an optional sign and at least one
      decimal digit, with a value that fits in an int64. */
  function Atoi(s: string): (r: Option<int>)
    ensures r.Some? <==> Unsigned(s) != [] && AllDigits(Unsigned(s)) && MinInt64 <= SignedValue(s) <= MaxInt64
    ensures r.Some? ==> r.value == SignedValue(s)
    ensures r.Some? ==> |s| > 0 && (IsDigit(s[0]) || s[0] == '+' || s[0] == '-')
  {
    var digits := Unsigned(s);
    if digits == [] || !AllDigits(digits) then None
    else
      var v := SignedValue(s);
      if MinInt64 <= v <= MaxInt64 then Some(v) else None
  }

  lemma {:induction false} DecimalValueOfNatToString(n: nat)
    ensures DecimalValue(NatToString(n)) == n
    decreases n
  {
    if n >= 10 {
      DecimalValueOfNatToString(n / 10);
      var s := NatToString(n);
      assert s[..|s| - 1] == NatToString(n / 10);
    }
  }

  /** Reading back what `Itoa` wrote gives the same integer. */
  lemma AtoiItoa(n: int)
    requires MinInt64 <= n <= MaxInt64
    ensures Atoi(Itoa(n)) == Some(n)
  {
    var s := Itoa(n);
    if n < 0 {
      var ds := NatToString(-n);
      DecimalValueOfNatToString(-n);
      assert s == "-" + ds;
      assert s[1..] == ds;
      assert s[0] == '-';
    } else {
      var ds := NatToString(n);
      DecimalValueOfNatToString(n);
      assert s[0] != '+' && s[0] != '-' by { assert IsDigit(ds[0]); }
    }
  }

  // ---------------------------------------------------------------------
  // strconv: floating-point literals
  // ---------------------------------------------------------------------

  function LowerChar(c: char): char
  {
    if 'A' <= c <= 'Z' then (c as int - 'A' as int + 'a' as int) as char else c
  }

  predicate EqualsIgnoreCase(s: string, word: string)
  {
    |s| == |word| && forall i :: 0 <= i < |s| ==> LowerChar(s[i]) == word[i]
  }

  /** The special values `ParseFloat` accepts: a possibly signed `inf` or
      `infinity`, or an unsigned `nan`, in any letter case. */
  predicate IsSpecialFloat(s: string)
  {
    var body := if |s| > 0 && (s[0] == '+' || s[0] == '-') then s[1..] else s;
    EqualsIgnoreCase(body, "inf") || EqualsIgnoreCase(body, "infinity") || EqualsIgnoreCase(s, "nan")
  }

  /** Digits with at most one decimal point, and at least one digit. */
  predicate IsMantissa(m: string)
  {
    var dot := IndexOf(m, '.');
    AllDigits(m[..dot]) && (dot == |m| || AllDigits(m[dot + 1..])) &&
    (if dot == |m| then |m| >= 1 else |m| >= 2)
  }

  /** `e` or `E`, an optional sign and at least one digit. */
  predicate IsExponent(x: string)
  {
    |x| >= 2 && (x[0] == 'e' || x[0] == 'E') &&
    var ds := if x[1] == '+' || x[1] == '-' then x[2..] else x[1..];
    |ds| >= 1 && AllDigits(ds)
  }

  predicate IsDecimalFloat(s: string)
  {
    var body := if |s| > 0 && (s[0] == '+' || s[0] == '-') then s[1..] else s;
    var e := if 'e' in body then IndexOf(body, 'e') else IndexOf(body, 'E');
    IsMantissa(body[..e]) && (e == |body| || IsExponent(body[e..]))
  }

  /** Whether `strconv.ParseFloat(s, 64)` succeeds. */
  predicate IsFloatLiteral(s: string)
  {
    IsSpecialFloat(s) || IsDecimalFloat(s)
  }

  /** A float literal is never empty and starts with a sign, a digit, a
      decimal point or the first letter of `inf` or `nan`: never with a
      quote, so a quoted value token is never read as a float. */
  lemma FloatLiteralStart(s: string)
    requires IsFloatLiteral(s)
    ensures |s| > 0
    ensures s[0] in "+-.0123456789iInN"
  {
    var body := if |s| > 0 && (s[0] == '+' || s[0] == '-') then s[1..] else s;
    if IsSpecialFloat(s) {
      if EqualsIgnoreCase(body, "inf") || EqualsIgnoreCase(body, "infinity") {
        assert LowerChar(body[0]) == 'i';
      } else {
        assert LowerChar(s[0]) == 'n';
      }
    } else {
      var e := if 'e' in body then IndexOf(body, 'e') else IndexOf(body, 'E');
      MantissaStart(body[..e]);
      assert body[0] == body[..e][0];
    }
  }

  lemma MantissaStart(m: string)
    requires IsMantissa(m)
    ensures |m| > 0 && (IsDigit(m[0]) || m[0] == '.')
  {
    var dot := IndexOf(m, '.');
    if dot > 0 {
      assert m[..dot][0] == m[0];
    }
  }

  /** Every integer `Atoi` accepts is also a float literal. */
  lemma {:induction false} IntegerIsFloatLiteral(s: string)
    requires Atoi(s).Some?
    ensures IsFloatLiteral(s)
  {
    var body := if |s| > 0 && (s[0] == '+' || s[0] == '-') then s[1..] else s;
    assert AllDigits(body);
    assert 'e' !in body && 'E' !in body && '.' !in body by {
      forall i | 0 <= i < |body| ensures IsDigit(body[i]) { }
    }
  }
}

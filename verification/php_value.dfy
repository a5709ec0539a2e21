/**
 * The JSON-like values the comparison engine reads: PHP's null, booleans,
 * integers, strings and arrays.  An array is an ordered list of
 * (key, value) pairs; keys are strings (PHP's conversion of numeric-string
 * keys to integer keys is not part of this model, and neither are floats).
 */
module PhpValue {
  import opened OrderedMap

  datatype Value =
    | Null
    | Bool(b: bool)
    | Int(i: int)
    | Str(s: string)
    | Arr(entries: seq<(string, Value)>)

  /** `$m[$k] ?? null`: the stored value, or null when the key is absent. */
  function Lookup(m: seq<(string, Value)>, k: string): (v: Value)
    ensures k !in KeySet(m) ==> v == Null
    ensures k in KeySet(m) ==> (k, v) in m
  {
    match Get(m, k)
    case Some(x) => x
    case None => Null
  }

  /** `is_scalar($v)` (floats are not modelled). */
  predicate IsScalar(v: Value)
  {
    v.Bool? || v.Int? || v.Str?
  }

  /** Every array in `v`, at every depth, has distinct keys, as PHP arrays always do. */
  ghost predicate WellFormed(v: Value)
    decreases v
  {
    match v
    case Arr(es) => DistinctKeys(es) && forall i | 0 <= i < |es| :: WellFormed(es[i].1)
    case _ => true
  }

  function DigitChar(d: nat): (c: char)
    requires d < 10
    ensures '0' <= c <= '9'
  {
    "0123456789"[d]
  }

  function DigitValue(c: char): nat
  {
    if '0' <= c <= '9' then (c - '0') as nat else 0
  }

  /** Decimal digits of a natural number, without leading zeros. */
  function NatToString(n: nat): (s: string)
    ensures |s| >= 1
    ensures forall i :: 0 <= i < |s| ==> '0' <= s[i] <= '9'
  {
    if n < 10 then [DigitChar(n)] else NatToString(n / 10) + [DigitChar(n % 10)]
  }

  /** PHP's `(string)` of an integer: an optional minus sign, then the digits. */
  function IntToString(n: int): string
  {
    if n < 0 then "-" + NatToString(-n) else NatToString(n)
  }

  /** Reads a string of decimal digits back (the inverse of `NatToString`). */
  function ParseDigits(s: string): nat
  {
    if s == [] then 0 else ParseDigits(s[..|s| - 1]) * 10 + DigitValue(s[|s| - 1])
  }

  function ParseInt(s: string): int
  {
    if |s| > 0 && s[0] == '-' then 0 - ParseDigits(s[1..]) else ParseDigits(s)
  }

  lemma {:induction false} NatToStringRoundTrip(n: nat)
    ensures ParseDigits(NatToString(n)) == n
  {
    if n >= 10 {
      var front, last := NatToString(n / 10), DigitChar(n % 10);
      NatToStringRoundTrip(n / 10);
      assert NatToString(n) == front + [last];
      assert (front + [last])[..|front|] == front;
      assert DigitValue(last) == n % 10;
      assert ParseDigits(NatToString(n)) == ParseDigits(front) * 10 + n % 10;
    }
  }

  /** Reading the decimal form of any integer gives the integer back. */
  lemma IntToStringRoundTrip(n: int)
    ensures ParseInt(IntToString(n)) == n
  {
    NatToStringRoundTrip(if n < 0 then -n else n);
    if n < 0 {
      assert IntToString(n)[1..] == NatToString(-n);
    } else {
      assert IntToString(n)[0] != '-';
    }
  }

  /** Distinct integers have distinct decimal forms. */
  lemma IntToStringInjective(a: int, b: int)
    ensures IntToString(a) == IntToString(b) <==> a == b
  {
    IntToStringRoundTrip(a);
    IntToStringRoundTrip(b);
  }

  /**
   * PHP's `(string)` cast: null and false become "", true becomes "1",
   * integers their decimal form.  An array becomes "Array" (PHP also warns);
   * the engine never casts an array.
   */
  function CastToString(v: Value): string
  {
    match v
    case Null => ""
    case Bool(b) => if b then "1" else ""
    case Int(n) => IntToString(n)
    case Str(s) => s
    case Arr(_) => "Array"
  }
}

/**
 PHP values as they appear in an API result array, together with the two
 PHP rules the formatter depends on: `isset` on an array key, and the
 conversion of a value to a string by interpolation (`"$v"`), including
 the decimal rendering of integers and its inverse.
 */
module PhpValues {
  import opened Optional

  /** A value stored under a key of the result data. Floats are not modelled. */
  datatype Value = Null | Bool(b: bool) | Int(i: int) | Str(s: string) | Arr(elems: seq<Value>)

  /** The array returned by `ApiResult::getResultData()`, keyed by string. */
  type ResultData = map<string, Value>

  /** `$data[$key]`: a missing key reads as null (PHP only warns). */
  function Index(data: ResultData, key: string): Value
  {
    if key in data then data[key] else Null
  }

  /** `isset( $data[$key] )`: the key is present and its value is not null. */
  predicate Isset(data: ResultData, key: string)
    ensures Isset(data, key) <==> Index(data, key) != Null
  {
    key in data && data[key] != Null
  }

  predicate IsDigit(c: char)
  {
    '0' <= c <= '9'
  }

  predicate AllDigits(s: string)
  {
    forall i :: 0 <= i < |s| ==> IsDigit(s[i])
  }

  /** A non-empty digit string without a superfluous leading zero. */
  predicate IsCanonicalDecimal(s: string)
  {
    1 <= |s| && AllDigits(s) && (s[0] == '0' ==> |s| == 1)
  }

  function DigitChar(d: nat): (c: char)
    requires d < 10
    ensures IsDigit(c)
  {
    (('0' as int) + d) as char
  }

  function DigitValue(c: char): (d: nat)
    requires IsDigit(c)
    ensures d < 10
    ensures DigitChar(d) == c
  {
    c as int - '0' as int
  }

  /** The decimal digits of `n`, most significant first. */
  function NatToDecimal(n: nat): (s: string)
    ensures IsCanonicalDecimal(s)
    ensures s == "0" <==> n == 0
    decreases n
  {
    if n < 10 then [DigitChar(n)] else NatToDecimal(n / 10) + [DigitChar(n % 10)]
  }

  /** The number a non-empty digit string denotes. */
  function DecimalToNat(s: string): nat
    requires 1 <= |s| && AllDigits(s)
    decreases |s|
  {
    if |s| == 1 then DigitValue(s[0])
    else 10 * DecimalToNat(s[..|s| - 1]) + DigitValue(s[|s| - 1])
  }

  /** How PHP renders an integer inside a string: a minus sign, then the digits. */
  function IntToDecimal(i: int): (s: string)
    ensures ParseInt(s) == Some(i)
  {
    if i < 0 then
      var t := NatToDecimal(-i);
      DecimalRoundTrip(-i);
      assert ("-" + t)[1..] == t;
      "-" + t
    else
      DecimalRoundTrip(i);
      NatToDecimal(i)
  }

  /** Reads back a canonical decimal integer, optionally negative; anything else is rejected. */
  function ParseInt(s: string): Option<int>
  {
    if IsCanonicalDecimal(s) then Some(DecimalToNat(s) as int)
    else if 2 <= |s| && s[0] == '-' && IsCanonicalDecimal(s[1..]) && s[1] != '0' then Some(0 - DecimalToNat(s[1..]))
    else None
  }

  /** `"$v"`: the string a value turns into when interpolated. */
  function Interpolate(v: Value): (r: string)
    ensures v.Str? ==> r == v.s
    ensures v.Int? ==> ParseInt(r) == Some(v.i)
    ensures v == Null || v == Bool(false) || v == Str("") <==> r == ""
  {
    match v
    case Null => ""
    case Bool(b) => if b then "1" else ""
    case Int(i) => IntToDecimal(i)
    case Str(s) => s
    case Arr(_) => "Array"
  }

  lemma {:induction false} DecimalRoundTrip(n: nat)
    ensures DecimalToNat(NatToDecimal(n)) == n
    decreases n
  {
    if n >= 10 {
      var t := NatToDecimal(n / 10);
      var s := t + [DigitChar(n % 10)];
      DecimalRoundTrip(n / 10);
      assert s[..|s| - 1] == t;
    }
  }

  lemma {:induction false} LeadingNonZeroIsPositive(s: string)
    requires 1 <= |s| && AllDigits(s) && s[0] != '0'
    ensures DecimalToNat(s) > 0
    decreases |s|
  {
    if |s| > 1 {
      LeadingNonZeroIsPositive(s[..|s| - 1]);
    }
  }

  lemma {:induction false} CanonicalDecimalRoundTrip(s: string)
    requires IsCanonicalDecimal(s)
    ensures NatToDecimal(DecimalToNat(s)) == s
    decreases |s|
  {
    if |s| > 1 {
      var t := s[..|s| - 1];
      var d := DigitValue(s[|s| - 1]);
      assert IsCanonicalDecimal(t);
      LeadingNonZeroIsPositive(t);
      CanonicalDecimalRoundTrip(t);
      var n := DecimalToNat(s);
      assert n == 10 * DecimalToNat(t) + d;
      assert n / 10 == DecimalToNat(t) && n % 10 == d;
      assert s == t + [s[|s| - 1]];
    }
  }

  /** The rendering of integers and `ParseInt` are inverse: a string reads back as `i` exactly when it is how `i` is rendered. */
  lemma IntDecimalIff(i: int, s: string)
    ensures ParseInt(s) == Some(i) <==> IntToDecimal(i) == s
  {
    if IntToDecimal(i) == s {
      if i < 0 {
        var t := NatToDecimal(-i);
        DecimalRoundTrip(-i);
        assert s[1..] == t;
        assert s[0] == '-';
        assert !IsCanonicalDecimal(s);
      } else {
        DecimalRoundTrip(i);
      }
    }
    if ParseInt(s) == Some(i) {
      if IsCanonicalDecimal(s) {
        CanonicalDecimalRoundTrip(s);
      } else {
        CanonicalDecimalRoundTrip(s[1..]);
        LeadingNonZeroIsPositive(s[1..]);
        assert s == "-" + s[1..];
      }
    }
  }

  /** Distinct integers interpolate to distinct strings. */
  lemma IntToDecimalInjective(i: int, j: int)
    requires IntToDecimal(i) == IntToDecimal(j)
    ensures i == j
  {
    IntDecimalIff(i, IntToDecimal(i));
    IntDecimalIff(j, IntToDecimal(j));
  }
}

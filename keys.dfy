/**
 * The key under which process_data stores an item: the fixed prefix
 * "some_key_" followed by the item's index written as Python's f-string
 * renders an int (decimal, no leading zeros, a '-' sign for negatives).
 * The parser below is the inverse of the rendering; it is what makes
 * distinct indices give distinct keys.
 */
module Keys {
  import opened Wrappers

  const KEY_PREFIX: string := "some_key_"

  predicate IsDigit(c: char) { '0' <= c <= '9' }

  predicate IsDigits(s: string) { forall i :: 0 <= i < |s| ==> IsDigit(s[i]) }

  function DigitChar(d: nat): (c: char)
    requires d < 10
    ensures IsDigit(c)
  {
    ('0' as int + d) as char
  }

  function DigitValue(c: char): (d: nat)
    requires IsDigit(c)
    ensures d < 10 && DigitChar(d) == c
  {
    c as int - '0' as int
  }

  /** Decimal rendering of a natural number, most significant digit first. */
  function NatToDecimal(n: nat): (s: string)
    ensures |s| >= 1 && IsDigits(s)
    ensures s[0] == '0' <==> n == 0
    ensures s[0] == '0' ==> |s| == 1
    decreases n
  {
    if n < 10 then [DigitChar(n)] else NatToDecimal(n / 10) + [DigitChar(n % 10)]
  }

  /** Value of a string of decimal digits (the empty string reads as 0). */
  function ParseDecimal(s: string): nat
    requires IsDigits(s)
  {
    if s == [] then 0 else 10 * ParseDecimal(s[..|s| - 1]) + DigitValue(s[|s| - 1])
  }

  lemma {:induction false} ParseNatToDecimal(n: nat)
    ensures ParseDecimal(NatToDecimal(n)) == n
  {
    if n >= 10 {
      var s := NatToDecimal(n);
      assert s[..|s| - 1] == NatToDecimal(n / 10);
      ParseNatToDecimal(n / 10);
    }
  }

  /** Python's str(i) for an int i. */
  function IntToDecimal(i: int): (s: string)
    ensures |s| >= 1
    ensures s[0] == '-' <==> i < 0
  {
    if i < 0 then "-" + NatToDecimal(-i) else NatToDecimal(i)
  }

  /** Reads back what IntToDecimal writes; None for anything that is not an optional '-' and digits. */
  function ParseInt(s: string): Option<int>
  {
    if s == [] then None
    else if s[0] == '-' then
      if |s| > 1 && IsDigits(s[1..]) then Some(-(ParseDecimal(s[1..]) as int)) else None
    else if IsDigits(s) then Some(ParseDecimal(s))
    else None
  }

  lemma ParseIntToDecimal(i: int)
    ensures ParseInt(IntToDecimal(i)) == Some(i)
  {
    var s := IntToDecimal(i);
    if i < 0 {
      var d := NatToDecimal(-i);
      assert s == "-" + d;
      assert s[1..] == d;
      ParseNatToDecimal(-i);
    } else {
      assert s == NatToDecimal(i);
      ParseNatToDecimal(i);
    }
  }

  /** Python's default bound on the digits of an int converted to a string. */
  const INT_MAX_STR_DIGITS: nat := 4300

  /** The ValueError message Python gives for an int over that bound. */
  const DIGIT_LIMIT_MESSAGE: string :=
    "Exceeds the limit (4300 digits) for integer string conversion; use sys.set_int_max_str_digits() to increase the limit"

  /** The number of decimal digits of i, the sign not counted. */
  function DigitCount(i: int): nat
  {
    |NatToDecimal(if i < 0 then -i else i)|
  }

  /** Whether f"{i}" succeeds under the default bound. */
  predicate WithinDigitLimit(i: int)
  {
    DigitCount(i) <= INT_MAX_STR_DIGITS
  }

  function Pow10(k: nat): (p: nat)
    ensures p >= 1
  {
    if k == 0 then 1 else 10 * Pow10(k - 1)
  }

  /** A natural number has at most k >= 1 digits exactly when it is below 10^k. */
  lemma {:induction false} DigitsBelowPower(n: nat, k: nat)
    requires k >= 1
    ensures |NatToDecimal(n)| <= k <==> n < Pow10(k)
    decreases k
  {
    if n >= 10 {
      assert |NatToDecimal(n)| == |NatToDecimal(n / 10)| + 1;
      if k == 1 {
        assert Pow10(1) == 10;
      } else {
        DigitsBelowPower(n / 10, k - 1);
        assert n / 10 < Pow10(k - 1) <==> n < 10 * Pow10(k - 1);
      }
    } else {
      assert Pow10(k) == 10 * Pow10(k - 1);
    }
  }

  /** So f"{i}" succeeds exactly when |i| < 10^4300. */
  lemma DigitLimitBound(i: int)
    ensures WithinDigitLimit(i) <==> -(Pow10(INT_MAX_STR_DIGITS) as int) < i < Pow10(INT_MAX_STR_DIGITS)
  {
    DigitsBelowPower(if i < 0 then -i else i, INT_MAX_STR_DIGITS);
  }

  /** A smaller natural number never has more digits. */
  lemma {:induction false} DigitCountMonotone(a: nat, b: nat)
    requires a <= b
    ensures DigitCount(a) <= DigitCount(b)
    decreases a
  {
    if a >= 10 {
      DigitCountMonotone(a / 10, b / 10);
    }
  }

  /** The key f"some_key_{idx}". */
  function KeyFor(idx: int): (k: string)
    ensures |k| > |KEY_PREFIX| && k[..|KEY_PREFIX|] == KEY_PREFIX
  {
    KEY_PREFIX + IntToDecimal(idx)
  }

  /** The index a key was derived from, or None when the key is not of that form. */
  function IndexOfKey(k: string): Option<int>
  {
    if |k| >= |KEY_PREFIX| && k[..|KEY_PREFIX|] == KEY_PREFIX then ParseInt(k[|KEY_PREFIX|..]) else None
  }

  lemma KeyRoundTrip(idx: int)
    ensures IndexOfKey(KeyFor(idx)) == Some(idx)
  {
    assert KeyFor(idx)[|KEY_PREFIX|..] == IntToDecimal(idx);
    ParseIntToDecimal(idx);
  }

  /** Distinct indices give distinct keys, so no two items of one reader share a key. */
  lemma KeyInjective(a: int, b: int)
    ensures KeyFor(a) == KeyFor(b) <==> a == b
  {
    KeyRoundTrip(a);
    KeyRoundTrip(b);
  }
}

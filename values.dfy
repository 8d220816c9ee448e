/**
 * Python values as the node-registration module sees them once Ansible has
 * parsed and typed its parameters: strings, integers and booleans, together
 * with the three pieces of Python behaviour the option assembly relies on,
 * namely `str(value)`, `str.lower()` and truthiness.
 */
module Values {

  /** Python's `None` is modelled by absence, through this Option. */
  datatype Option<T> = None | Some(value: T)

  /** A typed parameter value: `str`, `int` or `bool`. */
  datatype Value = Str(text: string) | Int(number: int) | Bool(flag: bool)

  /** Python truthiness of a value: the empty string, 0 and False are false. */
  predicate Truthy(v: Value)
  {
    match v
    case Str(s) => s != ""
    case Int(i) => i != 0
    case Bool(b) => b
  }

  predicate IsDigit(c: char)
  {
    '0' <= c <= '9'
  }

  predicate AllDigits(s: string)
  {
    forall k :: 0 <= k < |s| ==> IsDigit(s[k])
  }

  function DigitChar(d: nat): (c: char)
    requires d < 10
    ensures IsDigit(c) && c as int - '0' as int == d
  {
    ('0' as int + d) as char
  }

  /** Decimal rendering of a natural number, as Python's `str` gives it: no leading zeros. */
  function NatToDecimal(n: nat): (r: string)
    ensures |r| >= 1 && AllDigits(r)
    ensures |r| > 1 ==> r[0] != '0'
    ensures n < 10 <==> |r| == 1
  {
    if n < 10 then [DigitChar(n)] else NatToDecimal(n / 10) + [DigitChar(n % 10)]
  }

  /** The number a string of decimal digits denotes; the inverse of NatToDecimal. */
  function ParseDecimal(s: string): nat
    requires AllDigits(s)
  {
    if s == [] then 0
    else ParseDecimal(s[..|s| - 1]) * 10 + (s[|s| - 1] as int - '0' as int)
  }

  lemma {:induction false} DecimalRoundTrip(n: nat)
    ensures ParseDecimal(NatToDecimal(n)) == n
  {
    if n >= 10 {
      var s := NatToDecimal(n);
      assert s[..|s| - 1] == NatToDecimal(n / 10);
      DecimalRoundTrip(n / 10);
    }
  }

  /** Python's `str(i)` for an integer: a minus sign before the digits of a negative number. */
  function IntToDecimal(i: int): string
  {
    if i < 0 then "-" + NatToDecimal(-i) else NatToDecimal(i)
  }

  /** Python's `str(v)`; booleans print as `True` and `False`. */
  function ToText(v: Value): string
  {
    match v
    case Str(s) => s
    case Int(i) => IntToDecimal(i)
    case Bool(b) => if b then "True" else "False"
  }

  function LowerChar(c: char): char
  {
    if 'A' <= c <= 'Z' then (c as int + 32) as char else c
  }

  /** `str.lower()` restricted to ASCII letters: each character is lowered on its own. */
  function Lower(s: string): (r: string)
    ensures |r| == |s|
    ensures forall k :: 0 <= k < |s| ==> r[k] == LowerChar(s[k])
  {
    if s == [] then [] else [LowerChar(s[0])] + Lower(s[1..])
  }

  predicate IsLowerWord(w: string)
  {
    forall k :: 0 <= k < |w| ==> 'a' <= w[k] <= 'z'
  }

  /** `s` spells the lower-case word `w` in any mixture of upper and lower case. */
  predicate CaseVariantOf(s: string, w: string)
  {
    |s| == |w| && forall k :: 0 <= k < |s| ==> s[k] == w[k] || s[k] as int == w[k] as int - 32
  }

  /** Lower-casing yields a lower-case word exactly when the input is one of its case variants. */
  lemma LowerIsWord(s: string, w: string)
    requires IsLowerWord(w)
    ensures Lower(s) == w <==> CaseVariantOf(s, w)
  {
    if Lower(s) == w {
      forall k | 0 <= k < |s|
        ensures s[k] == w[k] || s[k] as int == w[k] as int - 32
      {
        assert LowerChar(s[k]) == w[k];
      }
    }
    if CaseVariantOf(s, w) {
      assert forall k :: 0 <= k < |s| ==> Lower(s)[k] == w[k];
    }
  }

  /** The text of an integer has no letters, so lower-casing leaves it unchanged. */
  lemma {:induction false} IntTextHasNoLetters(i: int)
    ensures Lower(IntToDecimal(i)) == IntToDecimal(i)
    ensures forall w :: IsLowerWord(w) && w != [] ==> !CaseVariantOf(IntToDecimal(i), w)
  {
    var s := IntToDecimal(i);
    assert forall k :: 0 <= k < |s| ==> IsDigit(s[k]) || s[k] == '-';
    assert forall k :: 0 <= k < |s| ==> Lower(s)[k] == s[k];
    forall w | IsLowerWord(w) && w != [] ensures !CaseVariantOf(s, w) {
      if CaseVariantOf(s, w) {
        assert false;
      }
    }
  }
}

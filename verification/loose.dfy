/** PHP 8's loose `==` between two strings, which `in_array` uses: two numeric
    strings are compared as numbers, any other pair character by character.
    Numeric strings are recognised in the forms a string of identifier characters
    and `=` can take (no white space, sign, `+` or `.` can occur there): digits,
    optionally followed by `e` or `E`, an optional `-`, and more digits. */
module Loose {
  import opened Chars

  /** The number of leading decimal digits. */
  function DigitRun(s: string): (r: nat)
    ensures r <= |s|
    ensures forall i :: 0 <= i < r ==> IsDigit(s[i])
    ensures r < |s| ==> !IsDigit(s[r])
  {
    if |s| == 0 || !IsDigit(s[0]) then 0 else 1 + DigitRun(s[1..])
  }

  /** A non-empty run of decimal digits. */
  predicate AllDigits(s: string) {
    |s| > 0 && DigitRun(s) == |s|
  }

  function DigitValue(c: char): nat {
    if IsDigit(c) then c as int - '0' as int else 0
  }

  /** The value of a run of decimal digits, leading zeros allowed. */
  function DigitsValue(s: string): nat
    decreases |s|
  {
    if |s| == 0 then 0 else DigitsValue(s[..|s| - 1]) * 10 + DigitValue(s[|s| - 1])
  }

  function Pow10(n: nat): (r: nat)
    ensures r >= 1
  {
    if n == 0 then 1 else 10 * Pow10(n - 1)
  }

  /** The number `mantissa * 10^exponent`. */
  datatype Numeral = Numeral(mantissa: nat, exponent: int)

  /** The part after `e`/`E`: digits, or `-` and digits. */
  predicate IsExponent(s: string) {
    AllDigits(s) || (|s| > 1 && s[0] == '-' && AllDigits(s[1..]))
  }

  /** PHP 8's `is_numeric` on the strings described above. */
  predicate IsNumeric(s: string) {
    var k := DigitRun(s);
    0 < k && (k == |s| || ((s[k] == 'e' || s[k] == 'E') && IsExponent(s[k + 1..])))
  }

  /** The number a numeric string denotes. */
  function NumericValue(s: string): (r: Numeral)
    requires IsNumeric(s)
    ensures AllDigits(s) ==> r == Numeral(DigitsValue(s), 0)
  {
    var k := DigitRun(s);
    if k == |s| then Numeral(DigitsValue(s), 0)
    else
      var e := s[k + 1..];
      if e[0] == '-' then Numeral(DigitsValue(s[..k]), -(DigitsValue(e[1..]) as int))
      else Numeral(DigitsValue(s[..k]), DigitsValue(e))
  }

  /** Two numerals denote the same number: scaled to the smaller exponent, their
      mantissas agree. */
  predicate SameNumber(a: Numeral, b: Numeral) {
    var m := if a.exponent <= b.exponent then a.exponent else b.exponent;
    a.mantissa * Pow10(a.exponent - m) == b.mantissa * Pow10(b.exponent - m)
  }

  /** `$a == $b` on two strings. */
  predicate LooseEquals(a: string, b: string) {
    if IsNumeric(a) && IsNumeric(b) then SameNumber(NumericValue(a), NumericValue(b))
    else a == b
  }

  /** A numeric string holds only digits, `e`, `E` and `-`. */
  lemma NumericChars(s: string, i: nat)
    requires IsNumeric(s) && i < |s|
    ensures IsDigit(s[i]) || s[i] == 'e' || s[i] == 'E' || s[i] == '-'
  {
    var k := DigitRun(s);
    if i > k {
      var e := s[k + 1..];
      assert s[i] == e[i - k - 1];
      if e[0] == '-' && i > k + 1 {
        assert s[i] == e[1..][i - k - 2];
      }
    }
  }

  /** Loose equality is exact equality as soon as one side is not numeric, for
      instance when it holds an `=`. */
  lemma LooseWithEquals(a: string, b: string, i: nat)
    requires i < |a| && a[i] == '='
    ensures LooseEquals(a, b) <==> a == b
  {
    if IsNumeric(a) {
      NumericChars(a, i);
    }
  }

  /** Equal strings are loosely equal. */
  lemma {:induction false} LooseReflexive(s: string)
    ensures LooseEquals(s, s)
  {
  }

  /** Leading zeros do not change the number: `"1" == "01"` although the texts
      differ. */
  lemma {:induction false} LooseLeadingZero()
    ensures LooseEquals("1", "01") && "1" != "01"
  {
    assert ("01")[1..] == "1" && ("01")[..1] == "0";
    assert DigitRun("1") == 1 && DigitRun("01") == 2;
    assert AllDigits("01");
    assert DigitsValue("0") == 0;
    assert DigitsValue("01") == 1;
    assert NumericValue("1") == Numeral(1, 0);
  }

  /** An exponent scales the mantissa: `"1e3" == "1000"`. */
  lemma {:induction false} LooseExponent()
    ensures LooseEquals("1e3", "1000")
  {
    assert ("1e3")[1..] == "e3" && ("1e3")[2..] == "3" && ("1e3")[..1] == "1";
    assert DigitRun("1e3") == 1;
    assert NumericValue("1e3") == Numeral(1, 3);
    assert ("1000")[..3] == "100" && ("100")[..2] == "10" && ("10")[..1] == "1";
    assert DigitsValue("1000") == 1000;
    assert AllDigits("1000");
    assert Pow10(3) == 1000;
  }
}

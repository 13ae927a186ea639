/** ASCII character classes and case mapping, standing in for PHP's `ctype_*`,
    `strtolower`, `strtoupper` and `stripos` on single-byte strings. */
module Chars {

  /** `ctype_space`: space, tab, line feed, carriage return, vertical tab, form feed. */
  predicate IsSpace(c: char) {
    c == ' ' || c == '\t' || c == '\n' || c == '\r' || c == '\U{B}' || c == '\U{C}'
  }

  /** The two characters the cursor treats as line breaks. */
  predicate IsBreak(c: char) {
    c == '\r' || c == '\n'
  }

  predicate IsUpper(c: char) { 'A' <= c <= 'Z' }

  predicate IsLower(c: char) { 'a' <= c <= 'z' }

  predicate IsDigit(c: char) { '0' <= c <= '9' }

  /** `ctype_alpha` */
  predicate IsAlpha(c: char) { IsUpper(c) || IsLower(c) }

  /** `ctype_alnum` */
  predicate IsAlnum(c: char) { IsAlpha(c) || IsDigit(c) }

  /** `strtolower` on one byte. */
  function Lower(c: char): (r: char)
    ensures IsUpper(c) ==> IsLower(r) && r as int == c as int + 32
    ensures !IsUpper(c) ==> r == c
  {
    if IsUpper(c) then (c as int + 32) as char else c
  }

  /** `strtoupper` on one byte. */
  function Upper(c: char): (r: char)
    ensures IsLower(c) ==> IsUpper(r) && r as int == c as int - 32
    ensures !IsLower(c) ==> r == c
  {
    if IsLower(c) then (c as int - 32) as char else c
  }

  /** `strtolower` on a string. */
  function LowerStr(s: string): (r: string)
    ensures |r| == |s|
    ensures forall i :: 0 <= i < |s| ==> r[i] == Lower(s[i])
  {
    if |s| == 0 then [] else [Lower(s[0])] + LowerStr(s[1..])
  }

  /** `strtoupper` on a string. */
  function UpperStr(s: string): (r: string)
    ensures |r| == |s|
    ensures forall i :: 0 <= i < |s| ==> r[i] == Upper(s[i])
  {
    if |s| == 0 then [] else [Upper(s[0])] + UpperStr(s[1..])
  }

  /** Two characters are equal up to ASCII case. */
  predicate SameIgnoringCase(a: char, b: char) {
    Lower(a) == Lower(b)
  }

  /** `stripos($t, $s) === 0`: `s` is an ASCII case-insensitive prefix of `t`. */
  predicate IPrefix(s: string, t: string) {
    |s| <= |t| && forall i :: 0 <= i < |s| ==> SameIgnoringCase(s[i], t[i])
  }

  lemma LowerIdempotent(c: char)
    ensures Lower(Lower(c)) == Lower(c)
  {
  }

  lemma LowerStrIdempotent(s: string)
    ensures LowerStr(LowerStr(s)) == LowerStr(s)
  {
  }

  /** An exact prefix is in particular a case-insensitive one. */
  lemma PrefixIsIPrefix(s: string, t: string)
    requires s <= t
    ensures IPrefix(s, t)
  {
  }
}

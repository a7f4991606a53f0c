/**
 * Character classification of the C locale, which is what `std::isspace`
 * and `std::tolower` do for the ASCII characters the tutorials feed them.
 */
module Ascii {

  /** `std::isspace`: space, \t, \n, \v, \f and \r. */
  predicate IsSpace(c: char) {
    c == ' ' || c == '\t' || c == '\n' || c == '\U{B}' || c == '\U{C}' || c == '\r'
  }

  predicate IsUpper(c: char) {
    'A' <= c <= 'Z'
  }

  predicate IsDigit(c: char) {
    '0' <= c <= '9'
  }

  /** `std::tolower`: maps A-Z to a-z and leaves every other character alone. */
  function ToLower(c: char): (r: char)
    ensures !IsUpper(r)
    ensures r == c || (IsUpper(c) && r as int == c as int + 32)
  {
    if IsUpper(c) then (c as int + 32) as char else c
  }

  /** Lower-casing is idempotent and fixes exactly the non-upper-case characters. */
  lemma ToLowerFacts(c: char)
    ensures ToLower(ToLower(c)) == ToLower(c)
    ensures ToLower(c) == c <==> !IsUpper(c)
  {
  }

  /** A string lower-cased character by character. */
  function LowerString(s: string): (r: string)
    ensures |r| == |s|
    ensures forall i :: 0 <= i < |s| ==> r[i] == ToLower(s[i])
  {
    if |s| == 0 then [] else [ToLower(s[0])] + LowerString(s[1..])
  }
}

/** Text helpers: ASCII case folding (Python's `str.lower()` on ASCII text,
    and SQLite's `COLLATE NOCASE`) and the character set allowed in a
    recipe title. */
module Text {

  function LowerChar(c: char): char
  {
    if 'A' <= c <= 'Z' then (c as int + 32) as char else c
  }

  /** ASCII lower-casing of a whole string. */
  function Lower(s: string): string
  {
    seq(|s|, i requires 0 <= i < |s| => LowerChar(s[i]))
  }

  /** Equality ignoring ASCII case. */
  predicate SameIgnoringCase(a: string, b: string)
  {
    Lower(a) == Lower(b)
  }

  /** Lower-casing twice changes nothing more. */
  lemma LowerIdempotent(s: string)
    ensures Lower(Lower(s)) == Lower(s)
  {
    assert forall i :: 0 <= i < |s| ==> LowerChar(LowerChar(s[i])) == LowerChar(s[i]);
  }

  /** Comparing with a lower-cased operand gives the same answer. */
  lemma SameIgnoringCaseOfLower(a: string, b: string)
    ensures SameIgnoringCase(a, Lower(b)) <==> SameIgnoringCase(a, b)
  {
    LowerIdempotent(b);
  }

  /** ASCII letters, digits, space, '-' and ','. */
  predicate TitleChar(c: char)
  {
    || 'a' <= c <= 'z'
    || 'A' <= c <= 'Z'
    || '0' <= c <= '9'
    || c == ' ' || c == '-' || c == ','
  }

  predicate ValidTitleChars(title: string)
  {
    forall i :: 0 <= i < |title| ==> TitleChar(title[i])
  }
}

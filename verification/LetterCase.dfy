/** Lower-casing of text, character by character. */
module LetterCase {
  import opened HtmlText

  /** The lower-case mapping of characters: applied twice it changes nothing more, and it neither makes nor removes
      white space. */
  ghost predicate IsLowerCase(lower: char -> char) {
    forall c: char :: lower(lower(c)) == lower(c) && (IsSpace(lower(c)) <==> IsSpace(c))
  }

  function ToLower(s: string, lower: char -> char): (t: string)
    ensures |t| == |s| && forall i :: 0 <= i < |s| ==> t[i] == lower(s[i])
  {
    seq(|s|, i requires 0 <= i < |s| => lower(s[i]))
  }
}

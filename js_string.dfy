/**
 `String.prototype.trimStart`, over strings as sequences of characters.
 */
module JsString {

  /**
   The characters taken for white space: the ASCII space and control
   white space, the no-break space and the byte-order mark.
   */
  predicate IsWhitespace(c: char)
  {
    c == ' ' || c == '\t' || c == '\n' || c == '\r' || c == '\U{000B}' || c == '\U{000C}'
    || c == '\U{00A0}' || c == '\U{FEFF}'
  }

  /**
   `s.trimStart()`: `s` without its leading white space. The result is a
   suffix of `s`, everything cut off is white space, and the result does not
   start with white space.
   */
  function TrimStart(s: string): (r: string)
    ensures |r| <= |s| && r == s[|s| - |r|..]
    ensures forall i :: 0 <= i < |s| - |r| ==> IsWhitespace(s[i])
    ensures r == [] || !IsWhitespace(r[0])
  {
    if s != [] && IsWhitespace(s[0]) then TrimStart(s[1..]) else s
  }

  /** Trimming an already trimmed string changes nothing. */
  lemma TrimStartIdempotent(s: string)
    ensures TrimStart(TrimStart(s)) == TrimStart(s)
  {
  }

  /** The result is empty exactly when `s` is made only of white space. */
  lemma TrimStartEmptyIff(s: string)
    ensures TrimStart(s) == [] <==> forall i :: 0 <= i < |s| ==> IsWhitespace(s[i])
  {
  }
}

/** Character classes and positional predicates on one line of text, as the
    regular-expression engine sees them. */
module Text {

  /** A regular-expression word character: an ASCII letter, a digit or `_`. */
  predicate IsWordChar(c: char) {
    ('a' <= c <= 'z') || ('A' <= c <= 'Z') || ('0' <= c <= '9') || c == '_'
  }

  /** True when position `i` holds a word character; positions outside the
      text (before its start, at or after its end) never do. */
  predicate WordAt(text: string, i: int) {
    0 <= i < |text| && IsWordChar(text[i])
  }

  /** The `\b` assertion: position `i` lies between a word character and a
      non-word character (the ends of the text count as non-word). */
  predicate Boundary(text: string, i: int) {
    WordAt(text, i - 1) != WordAt(text, i)
  }

  /** `marker` occurs in `text` starting at position `p`. */
  predicate OccursAt(text: string, p: int, marker: string) {
    0 <= p && p + |marker| <= |text| && text[p..p + |marker|] == marker
  }

}

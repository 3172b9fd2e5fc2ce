/** C strings, and the character classes of include/string.h. */
module Text {
  /** No NUL among the characters: the terminating one is not part of the value. */
  predicate IsCString(s: string) { forall i :: 0 <= i < |s| ==> s[i] != '\0' }

  type cstring = s: string | IsCString(s)

  // Reading *p at offset `i`: the NUL after the last character is in reach, nothing
  // beyond it is.
  function Peek(s: string, i: nat): char
    requires i <= |s|
  {
    if i < |s| then s[i] else '\0'
  }

  predicate IsSpace(c: char) { c == ' ' || 9 <= c as int <= 13 }

  predicate IsDigit(c: char) { '0' <= c <= '9' }
}

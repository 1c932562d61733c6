/**
  Lower-casing of strings, as used by every case-insensitive comparison in
  the library (environment values and the text form of a terminal type).
 */
module Text {

  /**
    Lower case of one character. Go's lower-casing follows Unicode; the only
    characters whose lower case is an ASCII letter are 'A'..'Z', U+0130
    (dotted capital I, lower case 'i') and U+212A (Kelvin sign, lower case
    'k'). Every other character is left as it is, which cannot change whether
    a lower-cased string equals one of the ASCII tokens the library compares
    against.
   */
  function LowerChar(c: char): char
  {
    if 'A' <= c <= 'Z' then (c as int + 32) as char
    else if c == '\U{0130}' then 'i'
    else if c == '\U{212A}' then 'k'
    else c
  }

  /** Lower case of a string, character by character. */
  function Lower(s: string): (r: string)
    ensures |r| == |s|
    ensures forall i :: 0 <= i < |s| ==> r[i] == LowerChar(s[i])
  {
    if s == [] then [] else [LowerChar(s[0])] + Lower(s[1..])
  }
}

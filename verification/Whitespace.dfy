/** Python's notion of white space, and stripping it. */
module Whitespace {

  /** str.isspace for one character. */
  predicate IsSpace(c: char) {
    || '\t' <= c <= '\r' || 28 as char <= c <= ' ' || 0x2000 as char <= c <= 0x200a as char
    || c in {0x85 as char, 0xa0 as char, 0x1680 as char, 0x2028 as char, 0x2029 as char}
    || c in {0x202f as char, 0x205f as char, 0x3000 as char}
  }

  function LStrip(s: string): string {
    if s != [] && IsSpace(s[0]) then LStrip(s[1..]) else s
  }

  function RStrip(s: string): string {
    if s != [] && IsSpace(s[|s| - 1]) then RStrip(s[..|s| - 1]) else s
  }

  function Strip(s: string): string {
    RStrip(LStrip(s))
  }

  lemma StripNothing(t: string)
    requires t != [] && !IsSpace(t[0]) && !IsSpace(t[|t| - 1])
    ensures Strip(t) == t
  {
  }
}

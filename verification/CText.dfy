/** Spaces in C text, as `isspace` sees them in the C locale. */
module CText {
  predicate IsSpace(c: char) {
    c == ' ' || '\t' <= c <= '\r'
  }

  /** Space, tab, line feed, vertical tab, form feed and carriage return. */
  lemma SpacesAre(c: char)
    ensures IsSpace(c) <==> c in [' ', '\t', '\n', '\U{000B}', '\U{000C}', '\r']
  {
  }

  function SkipSpaces(s: string): (t: string)
    ensures |t| <= |s|
  {
    if s != [] && IsSpace(s[0]) then SkipSpaces(s[1..]) else s
  }

  /** `while (isspace(*psz)) psz++;` */
  method Spaces(s: string) returns (r: string)
    ensures r == SkipSpaces(s)
  {
    r := s;
    while r != [] && IsSpace(r[0])
      invariant SkipSpaces(s) == SkipSpaces(r)
      decreases |r|
    {
      r := r[1..];
    }
  }
}

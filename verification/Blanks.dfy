/** White space at the ends of texts. */
module Blanks {
  import opened Basics

  /** What counts as blank: spaces only, or all white space. */
  datatype Kind = Spaces | White

  predicate Blank(kind: Kind, c: char) {
    if kind == White then IsSpace(c) else c == ' '
  }

  /** A text from its first character that is not blank. */
  function Skipped(kind: Kind, s: string): (t: string)
    ensures |t| <= |s| && (t != "" ==> !Blank(kind, t[0]))
  {
    if s == "" || !Blank(kind, s[0]) then s else Skipped(kind, s[1..])
  }

  /** A text up to its last character that is not blank. */
  function Trimmed(kind: Kind, s: string): (t: string)
    ensures t <= s && (t != "" ==> !Blank(kind, t[|t| - 1]))
  {
    if s == "" || !Blank(kind, s[|s| - 1]) then s else Trimmed(kind, s[..|s| - 1])
  }

  method SkipBlanks(kind: Kind, s: string) returns (t: string)
    ensures t == Skipped(kind, s)
  {
    t := s;
    while t != "" && Blank(kind, t[0])
      invariant Skipped(kind, t) == Skipped(kind, s)
      decreases |t|
    {
      t := t[1..];
    }
  }

  method TrimBlanks(kind: Kind, s: string) returns (t: string)
    ensures t == Trimmed(kind, s)
  {
    t := s;
    while t != "" && Blank(kind, t[|t| - 1])
      invariant Trimmed(kind, t) == Trimmed(kind, s)
      decreases |t|
    {
      t := t[..|t| - 1];
    }
  }
}

/** What the lines of an INI text mean, the parsing loop, and that written entries are read back. */
module IniParse {
  import opened Basics
  import opened Blanks
  import opened IniStream

  /** One call of the handler. */
  datatype Call = Call(section: string, name: string, value: string)

  /** The handler's answer may depend on every call so far, the latest last. */
  type Handler = seq<Call> -> bool

  datatype Context = Context(section: string, prev: string, log: seq<Call>)

  /** Section and previous name are kept in buffers of this size. */
  const BUFFER: nat := 50

  // ---- scanning ----

  /** Up to one of the characters, an inline comment, or the end. */
  function Find(s: string, chars: set<char>, afterSpace: bool): (n: nat)
    ensures n <= |s|
  {
    if s == "" || s[0] in chars || (afterSpace && s[0] == ';') then 0
    else 1 + Find(s[1..], chars, IsSpace(s[0]))
  }

  /** ini_find_chars_or_comment. */
  method FindCharsOrComment(s: string, chars: set<char>) returns (n: nat)
    ensures n == Find(s, chars, false)
  {
    n := 0;
    var wasSpace := false;
    assert s[0..] == s;
    while n < |s| && s[n] !in chars && !(wasSpace && s[n] == ';')
      invariant n <= |s| && Find(s, chars, false) == n + Find(s[n..], chars, wasSpace)
    {
      assert s[n..][1..] == s[n + 1..];
      wasSpace := IsSpace(s[n]);
      n := n + 1;
    }
  }

  // ---- one line ----

  datatype Meaning =
    | Nothing
    | Continued(value: string)
    | Section(name: string)
    | Pair(name: string, value: string)
    | Malformed

  predicate MarkFirst(line: string) {
    |line| >= 3 && line[0] as int == 0xEF && line[1] as int == 0xBB && line[2] as int == 0xBF
  }

  /** The first line may start with a byte order mark. */
  function Body(line: string, no: nat): string {
    if no == 1 && MarkFirst(line) then line[3..] else line
  }

  function Uncommented(s: string): string {
    s[..Find(s, {}, false)]
  }

  /** The meaning of a line from its first non-blank character on; indented means that blanks stand before it. */
  function MeaningOf(start: string, indented: bool, prev: string): Meaning {
    if start == "" || start[0] == ';' || start[0] == '#' then Nothing
    else if prev != "" && indented then Continued(Trimmed(White, Uncommented(start)))
    else if start[0] == '[' then
      var n := Find(start[1..], {']'}, false);
      if n < |start| - 1 && start[1..][n] == ']' then Section(Cut(start[1..][..n], BUFFER - 1)) else Malformed
    else
      var n := Find(start, {'=', ':'}, false);
      if n < |start| && (start[n] == '=' || start[n] == ':')
      then Pair(Trimmed(White, start[..n]), Trimmed(White, Skipped(White, Uncommented(start[n + 1..]))))
      else Malformed
  }

  function LineMeaning(line: string, no: nat, prev: string): Meaning {
    var t := Skipped(White, Body(line, no));
    MeaningOf(Trimmed(White, t), |t| < |line|, prev)
  }

  /** What a line does, and whether it counts as an error. */
  function Effect(h: Handler, cx: Context, m: Meaning): (Context, bool) {
    match m
    case Nothing => (cx, false)
    case Continued(value) =>
      var log := cx.log + [Call(cx.section, cx.prev, value)];
      (cx.(log := log), !h(log))
    case Section(name) => (cx.(section := name, prev := ""), false)
    case Pair(name, value) =>
      var log := cx.log + [Call(cx.section, name, value)];
      (cx.(prev := Cut(name, BUFFER - 1), log := log), !h(log))
    case Malformed => (cx, true)
  }

  // ---- all lines ----

  function LineEffect(h: Handler, cx: Context, line: string, max: nat, no: nat): (Context, bool)
    requires max >= 2
  {
    var (next, bad) := Effect(h, cx, LineMeaning(Cut(line, max - 1), no, cx.prev));
    (next, bad || |line| >= max)
  }

  /** The context and the error after lines number no, no + 1 and so on. */
  function Parsed(h: Handler, cx: Context, lines: seq<string>, max: nat, no: nat, error: nat): (Context, nat)
    requires max >= 2
    decreases |lines|
  {
    if lines == [] then (cx, error)
    else
      var (next, wrong) := LineEffect(h, cx, lines[0], max, no);
      Parsed(h, next, lines[1..], max, no + 1, if error == 0 && wrong then no else error)
  }

  const NoContext: Context := Context("", "", [])

  /** One line: what it does to the context, and whether it is an error. */
  method ParseLine(h: Handler, cx: Context, line: string, no: nat) returns (next: Context, bad: bool)
    ensures (next, bad) == Effect(h, cx, LineMeaning(line, no, cx.prev))
  {
    hide Skipped, Trimmed, Find, Cut;
    next, bad := cx, false;
    var t := SkipBlanks(White, Body(line, no));
    var indented := |t| < |line|;
    var start := TrimBlanks(White, t);
    if start == "" || start[0] == ';' || start[0] == '#' {
    } else if cx.prev != "" && indented {
      var end := FindCharsOrComment(start, {});
      var value := TrimBlanks(White, start[..end]);
      next := cx.(log := cx.log + [Call(cx.section, cx.prev, value)]);
      bad := !h(next.log);
    } else if start[0] == '[' {
      var end := FindCharsOrComment(start[1..], {']'});
      if end < |start| - 1 && start[1..][end] == ']' {
        next := cx.(section := Cut(start[1..][..end], BUFFER - 1), prev := "");
      } else {
        bad := true;
      }
    } else {
      var end := FindCharsOrComment(start, {'=', ':'});
      if end < |start| && (start[end] == '=' || start[end] == ':') {
        var name := TrimBlanks(White, start[..end]);
        var value := start[end + 1..];
        end := FindCharsOrComment(value, {});
        value := SkipBlanks(White, value[..end]);
        value := TrimBlanks(White, value);
        next := cx.(prev := Cut(name, BUFFER - 1), log := cx.log + [Call(cx.section, name, value)]);
        bad := !h(next.log);
      } else {
        bad := true;
      }
    }
  }

  /** ini_parse_stream over a string reader: every physical line once, in order, whatever its length. */
  method ParseStream(h: Handler, text: string, max: nat) returns (error: nat, log: seq<Call>)
    requires max >= 2
    ensures var (cx, e) := Parsed(h, NoContext, Lines(text), max, 1, 0); error == e && log == cx.log
  {
    hide Effect, LineMeaning, Cut, FirstLine, OtherLines, Lines;
    var reader := new Reader(text);
    var cx, lineno := NoContext, 0;
    error := 0;
    assert reader.Rest() == text;
    var more := true;
    while more
      invariant reader.pos <= |reader.text| && fresh(reader)
      invariant Parsed(h, cx, Lines(reader.Rest()), max, lineno + 1, error)
                == Parsed(h, NoContext, Lines(text), max, 1, 0)
      invariant !more ==> reader.Rest() == ""
      decreases more, |reader.text| - reader.pos
    {
      ghost var rest := reader.Rest();
      var line, over;
      more, line, over := reader.NextLine(max);
      LinesStep(rest);
      if more {
        lineno := lineno + 1;
        if over && error == 0 {
          error := lineno;
        }
        var bad;
        cx, bad := ParseLine(h, cx, line, lineno);
        if bad && error == 0 {
          error := lineno;
        }
      }
    }
    LinesStep("");
    log := cx.log;
  }

  lemma LinesStep(t: string)
    ensures Lines("") == []
    ensures t != "" ==> Lines(t) != [] && Lines(t)[0] == FirstLine(t) && Lines(t)[1..] == Lines(OtherLines(t))
    ensures t != "" ==> |OtherLines(t)| < |t|
  {
  }

  // ---- the error is the first one ----

  /** Line k of these lines counts as an error. */
  ghost predicate WrongAt(h: Handler, cx: Context, lines: seq<string>, max: nat, no: nat, k: nat)
    requires max >= 2 && k < |lines|
    decreases k
  {
    var (next, wrong) := LineEffect(h, cx, lines[0], max, no);
    if k == 0 then wrong else WrongAt(h, next, lines[1..], max, no + 1, k - 1)
  }

  lemma {:induction false} ErrorKept(h: Handler, cx: Context, lines: seq<string>, max: nat, no: nat, error: nat)
    requires max >= 2 && error > 0
    ensures Parsed(h, cx, lines, max, no, error).1 == error
    decreases |lines|
  {
    if lines != [] {
      ErrorKept(h, LineEffect(h, cx, lines[0], max, no).0, lines[1..], max, no + 1, error);
    }
  }

  /** The result is 0 exactly when no line is wrong, and otherwise the number of the first wrong line. */
  lemma {:induction false} ErrorIsFirst(h: Handler, cx: Context, lines: seq<string>, max: nat, no: nat)
    requires max >= 2 && no >= 1
    ensures var e := Parsed(h, cx, lines, max, no, 0).1;
            && (e == 0 <==> forall k :: 0 <= k < |lines| ==> !WrongAt(h, cx, lines, max, no, k))
            && (e != 0 ==>
                  && no <= e < no + |lines| && WrongAt(h, cx, lines, max, no, e - no)
                  && forall k :: 0 <= k < e - no ==> !WrongAt(h, cx, lines, max, no, k))
    decreases |lines|
  {
    hide LineEffect, WrongAt;
    if lines != [] {
      var (next, wrong) := LineEffect(h, cx, lines[0], max, no);
      WrongHere(h, cx, lines, max, no);
      if wrong {
        ErrorKept(h, next, lines[1..], max, no + 1, no);
      } else {
        ErrorIsFirst(h, next, lines[1..], max, no + 1);
        var e := Parsed(h, next, lines[1..], max, no + 1, 0).1;
        if e != 0 {
          WrongShift(h, cx, lines, max, no, e - no - 1);
        }
        forall k | 0 <= k < (if e == 0 then |lines| else e - no) ensures !WrongAt(h, cx, lines, max, no, k) {
          if k > 0 {
            WrongShift(h, cx, lines, max, no, k - 1);
          }
        }
      }
    }
  }

  lemma WrongHere(h: Handler, cx: Context, lines: seq<string>, max: nat, no: nat)
    requires max >= 2 && lines != []
    ensures WrongAt(h, cx, lines, max, no, 0) <==> LineEffect(h, cx, lines[0], max, no).1
  {
  }

  lemma WrongShift(h: Handler, cx: Context, lines: seq<string>, max: nat, no: nat, j: nat)
    requires max >= 2 && j + 1 < |lines|
    ensures WrongAt(h, cx, lines, max, no, j + 1)
            <==> WrongAt(h, LineEffect(h, cx, lines[0], max, no).0, lines[1..], max, no + 1, j)
  {
  }

  /** The handler is shown nothing behind the first max - 1 characters of a line. */
  lemma {:induction false} OnlyFrontsSeen(h: Handler, cx: Context, a: seq<string>, b: seq<string>, max: nat, no: nat,
                                          e: nat, f: nat)
    requires max >= 2 && |a| == |b|
    requires forall i :: 0 <= i < |a| ==> Cut(a[i], max - 1) == Cut(b[i], max - 1)
    ensures Parsed(h, cx, a, max, no, e).0 == Parsed(h, cx, b, max, no, f).0
    decreases |a|
  {
    hide Effect, LineMeaning, Cut;
    if a != [] {
      var (next, wa) := LineEffect(h, cx, a[0], max, no);
      var (_, wb) := LineEffect(h, cx, b[0], max, no);
      assert Cut(a[0], max - 1) == Cut(b[0], max - 1);
      var e', f' := if e == 0 && wa then no else e, if f == 0 && wb then no else f;
      OnlyFrontsSeen(h, next, a[1..], b[1..], max, no + 1, e', f');
    }
  }
}

/** What INI files mean: written entries are read back, comments are skipped, and which lines are wrong. */
module IniLaws {
  import opened Basics
  import opened Blanks
  import opened IniStream
  import opened IniParse

  // ---- what a file may hold ----

  /** An equals sign or a colon, with blanks on either side. */
  datatype Separator = Separator(left: string, mark: char, right: string)

  /** Sections, settings with or without a note, further values, and remarks. */
  datatype Entry =
    | Header(name: string)
    | Setting(name: string, sep: Separator, value: string)
    | Noted(name: string, sep: Separator, value: string, note: string)
    | More(value: string)
    | Remark(mark: char, text: string)

  function Between(sep: Separator): string {
    sep.left + [sep.mark] + sep.right
  }

  function Shown(e: Entry): string {
    match e
    case Header(name) => "[" + name + "]"
    case Setting(name, sep, value) => name + Between(sep) + value
    case Noted(name, sep, value, note) => name + Between(sep) + (value + " ;" + note)
    case More(value) => " " + value
    case Remark(mark, text) => [mark] + text
  }

  function Written(es: seq<Entry>): string {
    if es == [] then "" else Shown(es[0]) + "\n" + Written(es[1..])
  }

  /** No line end and nothing that reads as an inline comment. */
  predicate OneLine(s: string) {
    '\n' !in s && forall i :: 0 <= i < |s| - 1 && IsSpace(s[i]) ==> s[i + 1] != ';'
  }

  predicate Bare(s: string) {
    OneLine(s) && (s != "" ==> !IsSpace(s[0]) && !IsSpace(s[|s| - 1]))
  }

  /** A name that is not taken for anything else. */
  predicate GoodName(name: string) {
    Bare(name) && name != "" && name[0] !in {';', '#', '[', 0xEF as char} && '=' !in name && ':' !in name
  }

  predicate AllBlank(s: string) {
    '\n' !in s && forall i :: 0 <= i < |s| ==> IsSpace(s[i])
  }

  /** A separator that can stand before a value. */
  predicate Separates(sep: Separator, value: string) {
    && AllBlank(sep.left) && AllBlank(sep.right) && (sep.mark == '=' || sep.mark == ':')
    && (sep.right != "" ==> value != "" && value[0] != ';')
  }

  /** An entry the text form can carry in a buffer of this size. */
  predicate Writable(e: Entry, max: nat) {
    && |Shown(e)| + 1 < max
    && match e
       case Header(name) => OneLine(name) && ']' !in name
       case Setting(name, sep, value) => GoodName(name) && Bare(value) && Separates(sep, value)
       case Noted(name, sep, value, note) => GoodName(name) && Bare(value) && Separates(sep, value) && '\n' !in note
       case More(value) => Bare(value) && value != "" && value[0] != ';' && value[0] != '#'
       case Remark(mark, text) => (mark == ';' || mark == '#') && '\n' !in text
  }

  /** Further values come only after a setting of the same section. */
  predicate InOrder(prev: string, es: seq<Entry>)
    decreases |es|
  {
    es == [] || ((es[0].More? ==> prev != "") && InOrder(PrevAfter(prev, es[0]), es[1..]))
  }

  /** The first 49 characters, which is what the section and name buffers hold. */
  function Held(s: string): string {
    if |s| <= 49 then s else s[..49]
  }

  /** The name further values belong to: the last setting's, as far as its buffer holds it. */
  function PrevAfter(prev: string, e: Entry): string {
    match e
    case Header(_) => ""
    case Setting(name, _, _) => Held(name)
    case Noted(name, _, _, _) => Held(name)
    case _ => prev
  }

  /** The calls a file stands for. */
  function Calls(section: string, prev: string, es: seq<Entry>): seq<Call>
    decreases |es|
  {
    if es == [] then []
    else
      CallOf(section, prev, es[0])
      + Calls(if es[0].Header? then Held(es[0].name) else section, PrevAfter(prev, es[0]), es[1..])
  }

  function CallOf(section: string, prev: string, e: Entry): seq<Call> {
    match e
    case Setting(name, _, value) => [Call(section, name, value)]
    case Noted(name, _, value, _) => [Call(section, name, value)]
    case More(value) => [Call(section, prev, value)]
    case _ => []
  }

  // ---- scanning ----

  lemma {:induction false} FindNone(s: string, chars: set<char>, afterSpace: bool)
    requires forall c :: c in chars ==> c !in s
    requires forall i :: 0 <= i < |s| - 1 && IsSpace(s[i]) ==> s[i + 1] != ';'
    requires afterSpace && s != "" ==> s[0] != ';'
    ensures Find(s, chars, afterSpace) == |s|
  {
    if s != "" {
      forall i | 0 <= i < |s[1..]| - 1 && IsSpace(s[1..][i]) ensures s[1..][i + 1] != ';' {
        assert s[i + 1] == s[1..][i] && s[(i + 1) + 1] == s[1..][i + 1];
      }
      FindNone(s[1..], chars, IsSpace(s[0]));
    }
  }

  lemma {:induction false} FindFirst(s: string, c: char, rest: string, chars: set<char>, afterSpace: bool)
    requires c in chars && c != ';' && forall d :: d in chars ==> d !in s
    requires forall i :: 0 <= i < |s| - 1 && IsSpace(s[i]) ==> s[i + 1] != ';'
    requires afterSpace && s != "" ==> s[0] != ';'
    ensures Find(s + [c] + rest, chars, afterSpace) == |s|
  {
    if s != "" {
      forall i | 0 <= i < |s[1..]| - 1 && IsSpace(s[1..][i]) ensures s[1..][i + 1] != ';' {
        assert s[i + 1] == s[1..][i] && s[(i + 1) + 1] == s[1..][i + 1];
      }
      FindFirst(s[1..], c, rest, chars, IsSpace(s[0]));
      assert (s + [c] + rest)[1..] == s[1..] + [c] + rest;
    }
  }

  lemma BareKept(s: string)
    requires Bare(s)
    ensures Skipped(White, s) == s && Trimmed(White, s) == s && Uncommented(s) == s
  {
    FindNone(s, {}, false);
  }

  lemma LineEndStripped(s: string)
    requires s != "" && !IsSpace(s[0]) && !IsSpace(s[|s| - 1])
    ensures Skipped(White, s + "\n") == s + "\n" && Trimmed(White, s + "\n") == s
  {
    assert (s + "\n")[..|s|] == s;
  }

  lemma LineStripped(s: string)
    requires s != "" && !IsSpace(s[0])
    ensures Skipped(White, s + "\n") == s + "\n"
  {
  }

  lemma {:induction false} TrimStops(front: string, tail: string)
    requires front != "" && !IsSpace(front[|front| - 1])
    ensures front <= Trimmed(White, front + tail)
  {
    if tail != "" {
      var s := front + tail;
      if IsSpace(s[|s| - 1]) {
        assert s[..|s| - 1] == front + tail[..|tail| - 1];
        TrimStops(front, tail[..|tail| - 1]);
      }
    } else {
      assert front + tail == front;
    }
  }

  lemma {:induction false} BlanksSkipped(blanks: string, s: string)
    requires AllBlank(blanks)
    ensures Skipped(White, blanks + s) == Skipped(White, s)
  {
    if blanks == "" {
      assert blanks + s == s;
    } else {
      assert (blanks + s)[1..] == blanks[1..] + s;
      BlanksSkipped(blanks[1..], s);
    }
  }

  lemma {:induction false} BlanksTrimmed(s: string, blanks: string)
    requires AllBlank(blanks)
    ensures Trimmed(White, s + blanks) == Trimmed(White, s)
  {
    if blanks == "" {
      assert s + blanks == s;
    } else {
      var k := |blanks| - 1;
      assert (s + blanks)[..|s + blanks| - 1] == s + blanks[..k];
      BlanksTrimmed(s, blanks[..k]);
    }
  }

  lemma {:induction false} FindNote(value: string, note: string)
    requires forall i :: 0 <= i < |value| - 1 && IsSpace(value[i]) ==> value[i + 1] != ';'
    ensures Find(value + " ;" + note, {}, false) == |value| + 1
    ensures value != "" && value[0] != ';' ==> Find(value + " ;" + note, {}, true) == |value| + 1
  {
    var s := value + " ;" + note;
    if value == "" {
      assert s[0] == ' ' && s[1] == ';' && s[1..][0] == ';';
    } else {
      forall i | 0 <= i < |value[1..]| - 1 && IsSpace(value[1..][i]) ensures value[1..][i + 1] != ';' {
        assert value[i + 1] == value[1..][i] && value[(i + 1) + 1] == value[1..][i + 1];
      }
      FindNote(value[1..], note);
      assert s[1..] == value[1..] + " ;" + note;
      if |value| == 1 && IsSpace(value[0]) {
        assert s[1..][0] == ' ' && s[1..][1..][0] == ';';
      }
    }
  }

  /** Blanks before a text that does not start with a semicolon add no comment. */
  lemma NoCommentAdded(blanks: string, value: string)
    requires AllBlank(blanks) && OneLine(value) && (blanks != "" ==> value != "" && value[0] != ';')
    ensures OneLine(blanks + value)
  {
    var s := blanks + value;
    forall i | 0 <= i < |s| - 1 && IsSpace(s[i]) ensures s[i + 1] != ';' {
      if i + 1 < |blanks| {
        assert s[i + 1] == blanks[i + 1];
      } else if i + 1 == |blanks| {
        assert s[i + 1] == value[0];
      } else {
        assert s[i] == value[i - |blanks|] && s[i + 1] == value[i - |blanks| + 1];
      }
    }
  }

  // ---- what single lines mean ----

  /** A line that starts with a name is not indented and has no mark. */
  lemma NameFirst(name: string, tail: string, no: nat)
    requires GoodName(name)
    ensures Body(name + tail, no) == name + tail && Skipped(White, name + tail) == name + tail
  {
    assert (name + tail)[0] == name[0];
  }

  lemma HeaderMeans(name: string, no: nat, prev: string)
    requires OneLine(name) && ']' !in name
    ensures LineMeaning("[" + name + "]" + "\n", no, prev) == Section(Held(name))
  {
    hide Find, Skipped, Trimmed;
    var s := "[" + name + "]";
    LineEndStripped(s);
    FindFirst(name, ']', "", {']'}, false);
    assert s[1..] == name + [']'] + "";
    assert s[1..][..|name|] == name;
  }

  /** A name, a separator, and the rest of the line. */
  lemma PairMeans(name: string, sep: Separator, value: string, tail: string, prev: string)
    requires GoodName(name) && Separates(sep, value)
    ensures MeaningOf(name + sep.left + [sep.mark] + tail, false, prev)
            == Pair(name, Trimmed(White, Skipped(White, Uncommented(tail))))
  {
    hide Find, Skipped, Trimmed, Uncommented;
    var front := name + sep.left;
    var start := front + [sep.mark] + tail;
    assert start[0] == name[0];
    NoSemicolon(name, sep.left);
    FindFirst(front, sep.mark, tail, {'=', ':'}, false);
    assert start[..|front|] == front && start[|front| + 1..] == tail;
    BareKept(name);
    BlanksTrimmed(name, sep.left);
  }

  /** Blanks behind a name hold no separator and start no comment. */
  lemma NoSemicolon(name: string, blanks: string)
    requires GoodName(name) && AllBlank(blanks)
    ensures '=' !in name + blanks && ':' !in name + blanks
    ensures var s := name + blanks; forall i :: 0 <= i < |s| - 1 && IsSpace(s[i]) ==> s[i + 1] != ';'
  {
    var s := name + blanks;
    forall i | 0 <= i < |s| - 1 && IsSpace(s[i]) ensures s[i + 1] != ';' {
      if i + 1 < |name| {
        assert s[i] == name[i] && s[i + 1] == name[i + 1];
      } else {
        assert s[i + 1] == blanks[i + 1 - |name|];
      }
    }
  }

  /** What is made of the text behind a separator. */
  lemma ValueRead(right: string, value: string)
    requires AllBlank(right) && Bare(value) && (right != "" ==> value != "" && value[0] != ';')
    ensures Trimmed(White, Skipped(White, Uncommented(right + value))) == value
  {
    hide Find, Skipped, Trimmed;
    NoCommentAdded(right, value);
    FindNone(right + value, {}, false);
    assert (right + value)[..|right + value|] == right + value;
    BlanksSkipped(right, value);
    BareKept(value);
  }

  lemma SettingMeans(name: string, sep: Separator, value: string, no: nat, prev: string)
    requires GoodName(name) && Bare(value) && Separates(sep, value)
    ensures LineMeaning(name + Between(sep) + value + "\n", no, prev) == Pair(name, value)
  {
    hide Find, Skipped, Trimmed, Uncommented, MeaningOf, AllBlank;
    var front, tail := name + sep.left + [sep.mark], sep.right + value;
    var s := front + tail;
    assert name + Between(sep) + value == s;
    NameFirst(name, sep.left + [sep.mark] + tail + "\n", no);
    assert s + "\n" == name + (sep.left + [sep.mark] + tail + "\n");
    assert s[0] == name[0];
    LastCharacter(front, sep, value);
    LineEndStripped(s);
    PairMeans(name, sep, value, tail, prev);
    ValueRead(sep.right, value);
  }

  lemma LastCharacter(front: string, sep: Separator, value: string)
    requires front != "" && front[|front| - 1] == sep.mark && Separates(sep, value) && Bare(value)
    ensures var s := front + (sep.right + value); !IsSpace(s[|s| - 1])
  {
    var s := front + (sep.right + value);
    if value != "" {
      assert s[|s| - 1] == value[|value| - 1];
    } else {
      assert s == front;
    }
  }

  /** Stripping the right end of a line does not reach back to a character that is not blank. */
  lemma StrippedNote(front: string, note: string) returns (rest: string)
    requires front != "" && !IsSpace(front[|front| - 1])
    ensures Trimmed(White, front + (note + "\n")) == front + rest
  {
    hide Trimmed;
    TrimStops(front, note + "\n");
    rest := Trimmed(White, front + (note + "\n"))[|front|..];
  }

  lemma NotedMeans(name: string, sep: Separator, value: string, note: string, no: nat, prev: string)
    requires GoodName(name) && Bare(value) && Separates(sep, value) && '\n' !in note
    ensures LineMeaning(name + Between(sep) + (value + " ;" + note) + "\n", no, prev) == Pair(name, value)
  {
    hide Find, Skipped, Trimmed, Uncommented, MeaningOf, Bare, AllBlank;
    var line := name + Between(sep) + (value + " ;" + note) + "\n";
    var front := name + sep.left + [sep.mark] + (sep.right + value + " ;");
    assert line == name + (Between(sep) + (value + " ;" + note) + "\n");
    NameFirst(name, Between(sep) + (value + " ;" + note) + "\n", no);
    var rest := StrippedNote(front, note);
    assert line == front + (note + "\n");
    var tail := sep.right + value + " ;" + rest;
    assert front + rest == name + sep.left + [sep.mark] + tail;
    PairMeans(name, sep, value, tail, prev);
    NoteCut(sep.right, value, rest);
  }

  /** A semicolon after a blank ends the value. */
  lemma NoteCut(right: string, value: string, note: string)
    requires AllBlank(right) && Bare(value) && (right != "" ==> value != "" && value[0] != ';')
    ensures Trimmed(White, Skipped(White, Uncommented(right + value + " ;" + note))) == value
  {
    hide Find, Skipped, Trimmed;
    NoCommentAdded(right, value);
    FindNote(right + value, note);
    assert (right + value + " ;" + note)[..|right + value| + 1] == right + (value + " ");
    BlanksSkipped(right, value + " ");
    BlankBehind(value);
  }

  lemma BlankBehind(value: string)
    requires Bare(value)
    ensures Trimmed(White, Skipped(White, value + " ")) == value
  {
    if value == "" {
      assert Skipped(White, " ") == Skipped(White, "");
    } else {
      assert (value + " ")[..|value|] == value;
    }
  }

  lemma MoreMeans(value: string, no: nat, prev: string)
    requires Bare(value) && value != "" && value[0] != ';' && value[0] != '#' && prev != ""
    ensures LineMeaning(" " + value + "\n", no, prev) == Continued(value)
  {
    hide Find, Trimmed;
    var line := " " + value + "\n";
    assert line[1..] == value + "\n";
    LineEndStripped(value);
    BareKept(value);
  }

  /** A comment: blanks, then a semicolon or a number sign, then anything, on any line and after any name. */
  lemma CommentMeans(blanks: string, mark: char, text: string, no: nat, prev: string)
    requires AllBlank(blanks) && (mark == ';' || mark == '#')
    ensures LineMeaning(blanks + [mark] + text + "\n", no, prev) == Nothing
  {
    hide Find, Trimmed, Skipped;
    var line := blanks + [mark] + text + "\n";
    var s := [mark] + text + "\n";
    assert line == blanks + s;
    FirstIsBlankOrMark(blanks, s, mark, no);
    BlanksSkipped(blanks, s);
    SkippedNothing(s);
    TrimStops([mark], text + "\n");
    assert s == [mark] + (text + "\n");
  }

  lemma FirstIsBlankOrMark(blanks: string, s: string, mark: char, no: nat)
    requires AllBlank(blanks) && (mark == ';' || mark == '#') && s != "" && s[0] == mark
    ensures Body(blanks + s, no) == blanks + s
  {
    if blanks != "" {
      assert (blanks + s)[0] == blanks[0];
    } else {
      assert blanks + s == s;
    }
  }

  lemma SkippedNothing(s: string)
    requires s != "" && !IsSpace(s[0])
    ensures Skipped(White, s) == s
  {
  }

  /** A line of blanks means nothing either. */
  lemma BlankMeans(blanks: string, no: nat, prev: string)
    requires AllBlank(blanks)
    ensures LineMeaning(blanks + "\n", no, prev) == Nothing
  {
    hide Find, Trimmed, Skipped;
    BlanksSkipped(blanks, "\n");
    LineEndBlank();
    assert Body(blanks + "\n", no) == blanks + "\n" by {
      if blanks != "" {
        assert (blanks + "\n")[0] == blanks[0];
      }
    }
  }

  lemma LineEndBlank()
    ensures Skipped(White, "\n") == "" && Trimmed(White, "") == ""
  {
    assert "\n"[1..] == "";
    assert Skipped(White, "") == "";
  }

  // ---- lines that are wrong ----

  /** Text without a separator before any comment is wrong. */
  lemma NoSeparatorIsWrong(text: string, no: nat, prev: string)
    requires GoodName(text)
    ensures LineMeaning(text + "\n", no, prev) == Malformed
  {
    hide Find, Trimmed, Skipped;
    NameFirst(text, "\n", no);
    LineEndStripped(text);
    FindNone(text, {'=', ':'}, false);
  }

  /** So is a section that is not closed. */
  lemma UnclosedIsWrong(name: string, no: nat, prev: string)
    requires OneLine(name) && ']' !in name && (name != "" ==> !IsSpace(name[|name| - 1]))
    ensures LineMeaning("[" + name + "\n", no, prev) == Malformed
  {
    hide Find, Trimmed, Skipped;
    var s := "[" + name;
    LineEndStripped(s);
    FindNone(name, {']'}, false);
    assert s[1..] == name;
  }

  /** A wrong line changes nothing and is an error; a comment changes nothing and is none. */
  lemma LineOutcome(h: Handler, cx: Context, line: string, max: nat, no: nat)
    requires max >= 2 && |line| < max
    ensures LineMeaning(line, no, cx.prev) == Malformed ==> LineEffect(h, cx, line, max, no) == (cx, true)
    ensures LineMeaning(line, no, cx.prev) == Nothing ==> LineEffect(h, cx, line, max, no) == (cx, false)
  {
    hide LineMeaning;
  }

  /** A line that does not fit the buffer is always an error. */
  lemma OverlongIsWrong(h: Handler, cx: Context, line: string, max: nat, no: nat)
    requires max >= 2 && |line| >= max
    ensures LineEffect(h, cx, line, max, no).1
  {
    hide LineMeaning, Effect;
  }

  // ---- whole files ----

  /** Every file of writable entries is read back as the calls it stands for; only the handler can make a line wrong. */
  lemma {:induction false} WrittenReadBack(h: Handler, es: seq<Entry>, max: nat, cx: Context, no: nat)
    requires max >= 2 && forall i :: 0 <= i < |es| ==> Writable(es[i], max)
    requires InOrder(cx.prev, es)
    ensures var (end, e) := Parsed(h, cx, Lines(Written(es)), max, no, 0);
            && end.log == cx.log + Calls(cx.section, cx.prev, es)
            && ((forall log :: cx.log < log <= end.log ==> h(log)) ==> e == 0)
    decreases |es|
  {
    hide LineEffect, Lines, Writable, Shown, PrevAfter, CallOf, Held;
    if es == [] {
      LinesStep("");
      assert cx.log + [] == cx.log;
    } else {
      EntryEffect(h, es[0], Written(es[1..]), max, cx, no);
      var (next, wrong) := LineEffect(h, cx, Shown(es[0]) + "\n", max, no);
      LinesStep(Written(es));
      WrittenReadBack(h, es[1..], max, next, no + 1);
      var rest := Lines(Written(es[1..]));
      OnlyFrontsSeen(h, next, rest, rest, max, no + 1, if wrong then no else 0, 0);
      var calls, more := CallOf(cx.section, cx.prev, es[0]), Calls(next.section, next.prev, es[1..]);
      assert cx.log + calls + more == cx.log + (calls + more);
    }
  }

  /** One entry is one line, and does what it says. */
  lemma EntryEffect(h: Handler, e: Entry, rest: string, max: nat, cx: Context, no: nat)
    requires max >= 2 && Writable(e, max) && (e.More? ==> cx.prev != "")
    ensures FirstLine(Shown(e) + "\n" + rest) == Shown(e) + "\n" && OtherLines(Shown(e) + "\n" + rest) == rest
    ensures var (next, wrong) := LineEffect(h, cx, Shown(e) + "\n", max, no);
            && next.section == (if e.Header? then Held(e.name) else cx.section)
            && next.prev == PrevAfter(cx.prev, e)
            && next.log == cx.log + CallOf(cx.section, cx.prev, e)
            && (wrong ==> next.log != cx.log && !h(next.log))
  {
    hide LineMeaning, LineLen, FirstLine, OtherLines, OneLine, Bare, GoodName, Separates, Between;
    NoLineEnd(e, max);
    LineIs(Shown(e), rest);
    match e
    case Header(name) => HeaderMeans(name, no, cx.prev);
    case Setting(name, sep, value) => SettingMeans(name, sep, value, no, cx.prev);
    case Noted(name, sep, value, note) => NotedMeans(name, sep, value, note, no, cx.prev);
    case More(value) => MoreMeans(value, no, cx.prev);
    case Remark(mark, text) =>
      CommentMeans("", mark, text, no, cx.prev);
      assert "" + [mark] + text + "\n" == Shown(e) + "\n";
  }

  lemma NoLineEnd(e: Entry, max: nat)
    requires Writable(e, max)
    ensures '\n' !in Shown(e)
  {
  }

  // ---- the byte order mark ----

  function Mark(): (m: string)
    ensures |m| == 3
  {
    [0xEF as char, 0xBB as char, 0xBF as char]
  }

  /** On the first line, with no name before it, the mark makes no difference. */
  lemma MarkedLine(line: string)
    requires !MarkFirst(line)
    ensures LineMeaning(Mark() + line, 1, "") == LineMeaning(line, 1, "")
  {
    hide Find, Trimmed, Skipped, Uncommented;
    assert (Mark() + line)[3..] == line;
  }

  /** A file that starts with the mark is read like the file without it. */
  lemma MarkIgnored(h: Handler, text: string, max: nat)
    requires max >= 2 && text != "" && !MarkFirst(FirstLine(text)) && |FirstLine(text)| + 3 < max
    ensures Parsed(h, NoContext, Lines(Mark() + text), max, 1, 0) == Parsed(h, NoContext, Lines(text), max, 1, 0)
  {
    hide LineMeaning, Lines, LineLen, Effect;
    var first, rest := FirstLine(text), OtherLines(text);
    LinesStep(text);
    LinesStep(Mark() + text);
    assert '\n' !in Mark();
    LineLenSplit(Mark(), text);
    assert FirstLine(Mark() + text) == Mark() + first && OtherLines(Mark() + text) == rest;
    MarkedLine(first);
    var a, b := LineEffect(h, NoContext, Mark() + first, max, 1), LineEffect(h, NoContext, first, max, 1);
    assert a == b;
  }
}

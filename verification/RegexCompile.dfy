/** re_compile: from pattern text to objects, and back. */
module RegexCompile {
  import opened Regex

  const RE_MAX_OBJECTS := 64
  const RE_MAX_CLASS_LEN := 64

  function EscapeObj(c: char): Obj {
    match c
    case 'd' => Digit
    case 'D' => NotDigit
    case 'w' => Alpha
    case 'W' => NotAlpha
    case 's' => Space
    case 'S' => NotSpace
    case _ => Char(c)
  }

  function PlainObj(c: char): Obj {
    match c
    case '^' => Begin
    case '$' => End
    case '.' => Dot
    case '*' => Star
    case '+' => Plus
    case '?' => Question
    case _ => Char(c)
  }

  /** Where the bracket text starting at i ends: at a bare ']' or the end of the pattern. */
  function ClassEnd(s: string, i: nat): (e: nat)
    requires i <= |s|
    ensures i <= e <= |s| && (e < |s| ==> s[e] == ']')
    decreases |s| - i
  {
    if i == |s| || s[i] == ']' then i
    else if s[i] == '\\' && i + 1 < |s| then ClassEnd(s, i + 2)
    else ClassEnd(s, i + 1)
  }

  predicate Inverted(s: string, i: nat) {
    i + 1 < |s| && s[i + 1] == '^'
  }

  /** The bracket at i: where its text starts, and where the pattern goes on. */
  function TextStart(s: string, i: nat): (k: nat)
    requires i < |s|
    ensures i < k <= |s|
  {
    if Inverted(s, i) then i + 2 else i + 1
  }

  function TextEnd(s: string, i: nat): (e: nat)
    requires i < |s|
    ensures TextStart(s, i) <= e <= |s|
  {
    ClassEnd(s, TextStart(s, i))
  }

  function AfterClass(s: string, i: nat): (k: nat)
    requires i < |s|
    ensures i < k <= |s|
  {
    if TextEnd(s, i) < |s| then TextEnd(s, i) + 1 else |s|
  }

  function ClassObj(s: string, i: nat): Obj
    requires i < |s|
  {
    var text := s[TextStart(s, i)..TextEnd(s, i)];
    if Inverted(s, i) then InvClass(text) else Class(text)
  }

  /** The object at i, if the pattern does not end in a lone backslash there. */
  function ObjAt(s: string, i: nat): Obj
    requires i < |s| && !LoneBackslash(s, i)
  {
    if s[i] == '\\' then EscapeObj(s[i + 1])
    else if s[i] == '[' then ClassObj(s, i)
    else PlainObj(s[i])
  }

  function AfterObj(s: string, i: nat): (k: nat)
    requires i < |s| && !LoneBackslash(s, i)
    ensures i < k <= |s|
  {
    if s[i] == '\\' then i + 2
    else if s[i] == '[' then AfterClass(s, i)
    else i + 1
  }

  predicate LoneBackslash(s: string, i: nat) {
    i + 1 == |s| && s[i] == '\\'
  }

  /** The objects that the pattern stands for from position i on. */
  function Compile(s: string, i: nat): (objs: seq<Obj>)
    requires i <= |s|
    decreases |s| - i
  {
    if i == |s| || LoneBackslash(s, i) then []
    else [ObjAt(s, i)] + Compile(s, AfterObj(s, i))
  }

  /** Bytes of the shared class buffer that the objects take, terminators included. */
  function ClassRoom(objs: seq<Obj>): nat {
    if objs == [] then 0
    else ObjRoom(objs[0]) + ClassRoom(objs[1..])
  }

  function ObjRoom(o: Obj): nat {
    if o.Class? || o.InvClass? then |o.ccl| + 1 else 0
  }

  lemma {:induction false} RoomAppend(a: seq<Obj>, b: seq<Obj>)
    ensures ClassRoom(a + b) == ClassRoom(a) + ClassRoom(b)
  {
    if a == [] {
      assert a + b == b;
    } else {
      assert (a + b)[1..] == a[1..] + b;
      RoomAppend(a[1..], b);
    }
  }

  /** Neither the object array nor the class buffer cuts the pattern short. */
  predicate Fits(s: string) {
    |Compile(s, 0)| < RE_MAX_OBJECTS && ClassRoom(Compile(s, 0)) <= RE_MAX_CLASS_LEN - 2
  }

  // ---- what the program makes of any pattern ----

  /** The objects, and the bytes written to the class buffer one after the other. */
  datatype Compiled = Compiled(objs: seq<Obj>, ccl: string)

  /** Where copying bracket text from i stops when j bytes of the class buffer are in use. */
  function CopyEnd(s: string, i: nat, j: nat): (e: nat)
    requires i <= |s|
    ensures i <= e <= |s|
    decreases |s| - i
  {
    if i == |s| || s[i] == ']' || j >= RE_MAX_CLASS_LEN - 2 then i
    else if s[i] == '\\' && i + 1 < |s| then CopyEnd(s, i + 2, j + 2)
    else CopyEnd(s, i + 1, j + 1)
  }

  /** The pattern goes on behind the bracket, or in the middle of text that did not fit. */
  function AfterCopy(s: string, e: nat): (k: nat)
    requires e <= |s|
    ensures e <= k <= |s|
  {
    if e < |s| && s[e] == ']' then e + 1 else e
  }

  function Bracket(s: string, i: nat, j: nat): (Obj, nat, string)
    requires i < |s|
  {
    var start := TextStart(s, i);
    var e := CopyEnd(s, start, j);
    (if Inverted(s, i) then InvClass(s[start..e]) else Class(s[start..e]), AfterCopy(s, e), s[start..e] + [0 as char])
  }

  predicate Stops(s: string, i: nat, k: nat) {
    i >= |s| || k >= RE_MAX_OBJECTS - 1 || LoneBackslash(s, i)
  }

  /** Compiling from i on, after these objects and these class bytes. */
  function CutCompile(s: string, i: nat, objs: seq<Obj>, ccl: string): (r: Compiled)
    requires i <= |s| && |objs| < RE_MAX_OBJECTS
    ensures |r.objs| < RE_MAX_OBJECTS && ccl <= r.ccl
    decreases |s| - i
  {
    if Stops(s, i, |objs|) then Compiled(objs, ccl)
    else if s[i] == '[' then
      var (o, next, bytes) := Bracket(s, i, |ccl|);
      CutCompile(s, next, objs + [o], ccl + bytes)
    else CutCompile(s, AfterObj(s, i), objs + [ObjAt(s, i)], ccl)
  }

  /** re_compile, with the bytes it writes to the class buffer. */
  method ReCompile(pattern: string) returns (objs: seq<Obj>, ccl: string)
    ensures Compiled(objs, ccl) == CutCompile(pattern, 0, [], "")
    ensures Fits(pattern) ==> objs == Compile(pattern, 0)
    ensures |objs| < RE_MAX_OBJECTS
    ensures |ccl| <= RE_MAX_CLASS_LEN <==> !MetFull(pattern, 0, 0, 0)
  {
    hide ClassRoom, ClassEnd, CopyEnd, Compile, MetFull;
    objs, ccl := [], "";
    if Fits(pattern) {
      RoomOfNone();
      assert [] + Compile(pattern, 0) == Compile(pattern, 0);
      FittingIsUncut(pattern, 0, [], "");
    }
    InsideUntilFull(pattern, 0, [], "");
    var i := 0;
    while i < |pattern| && |objs| < RE_MAX_OBJECTS - 1
      invariant 0 <= i <= |pattern| && |objs| < RE_MAX_OBJECTS
      invariant CutCompile(pattern, i, objs, ccl) == CutCompile(pattern, 0, [], "")
      decreases |pattern| - i
    {
      if pattern[i] == '\\' && i + 1 == |pattern| {
        return;
      }
      if pattern[i] == '\\' {
        objs := objs + [EscapeObj(pattern[i + 1])];
        i := i + 2;
      } else if pattern[i] == '[' {
        var o, bytes;
        o, i, bytes := CompileClass(pattern, i, |ccl|);
        objs, ccl := objs + [o], ccl + bytes;
      } else {
        objs := objs + [PlainObj(pattern[i])];
        i := i + 1;
      }
    }
  }

  /** The bracket loop and its terminator, at byte j0 of the class buffer. */
  method CompileClass(pattern: string, i0: nat, j0: nat) returns (o: Obj, i: nat, bytes: string)
    requires i0 < |pattern| && pattern[i0] == '['
    ensures i0 < i <= |pattern|
    ensures (o, i, bytes) == Bracket(pattern, i0, j0)
  {
    i := i0 + 1;
    var inverted := i < |pattern| && pattern[i] == '^';
    if inverted {
      i := i + 1;
    }
    var text;
    text, i := CopyClassText(pattern, i, j0);
    bytes := text + [0 as char];
    o := if inverted then InvClass(text) else Class(text);
    if i < |pattern| && pattern[i] == ']' {
      i := i + 1;
    }
  }

  /** Copies bracket text, escapes included, until it ends or the class buffer is full. */
  method CopyClassText(pattern: string, start: nat, j0: nat) returns (text: string, i: nat)
    requires start <= |pattern|
    ensures i == CopyEnd(pattern, start, j0) && text == pattern[start..i]
  {
    var j := j0;
    text, i := "", start;
    while i < |pattern| && pattern[i] != ']' && j < RE_MAX_CLASS_LEN - 2
      invariant start <= i <= |pattern| && text == pattern[start..i] && j == j0 + |text|
      invariant CopyEnd(pattern, i, j) == CopyEnd(pattern, start, j0)
      decreases |pattern| - i
    {
      if pattern[i] == '\\' && i + 1 < |pattern| {
        OneMore(pattern, start, i);
        OneMore(pattern, start, i + 1);
        text := text + ['\\'] + [pattern[i + 1]];
        i, j := i + 1, j + 2;
      } else {
        OneMore(pattern, start, i);
        text := text + [pattern[i]];
        j := j + 1;
      }
      i := i + 1;
    }
  }

  lemma OneMore(s: string, start: nat, i: nat)
    requires start <= i < |s|
    ensures s[start..i + 1] == s[start..i] + [s[i]]
  {
  }

  // ---- patterns that fit are compiled whole ----

  lemma {:induction false} CopiesAll(s: string, i: nat, j: nat)
    requires i <= |s| && j + (ClassEnd(s, i) - i) < RE_MAX_CLASS_LEN - 2
    ensures CopyEnd(s, i, j) == ClassEnd(s, i)
    decreases |s| - i
  {
    if i == |s| || s[i] == ']' {
    } else if s[i] == '\\' && i + 1 < |s| {
      CopiesAll(s, i + 2, j + 2);
    } else {
      CopiesAll(s, i + 1, j + 1);
    }
  }

  /** Where nothing is cut, the program compiles what the pattern stands for. */
  lemma {:induction false} FittingIsUncut(s: string, i: nat, objs: seq<Obj>, ccl: string)
    requires i <= |s| && |objs| + |Compile(s, i)| < RE_MAX_OBJECTS && |ccl| == ClassRoom(objs)
    requires ClassRoom(objs + Compile(s, i)) <= RE_MAX_CLASS_LEN - 2
    ensures CutCompile(s, i, objs, ccl).objs == objs + Compile(s, i)
    ensures |CutCompile(s, i, objs, ccl).ccl| == ClassRoom(objs + Compile(s, i))
    decreases |s| - i
  {
    hide ClassRoom, ClassEnd, CopyEnd;
    if i == |s| || LoneBackslash(s, i) {
      assert objs + [] == objs;
    } else {
      CompileStep(s, i, objs);
      var o, next := ObjAt(s, i), AfterObj(s, i);
      if s[i] == '[' {
        CopiesAll(s, TextStart(s, i), |ccl|);
        var bytes := Bracket(s, i, |ccl|).2;
        FittingIsUncut(s, next, objs + [o], ccl + bytes);
      } else {
        FittingIsUncut(s, next, objs + [o], ccl);
      }
    }
  }

  // ---- when the class buffer is overrun ----

  /** Some bracket from i on, after k objects, is met when j bytes have grown to the whole class buffer. */
  predicate MetFull(s: string, i: nat, k: nat, j: nat)
    requires i <= |s|
    decreases |s| - i
  {
    if Stops(s, i, k) then false
    else if s[i] == '[' then
      var (_, next, bytes) := Bracket(s, i, j);
      j >= RE_MAX_CLASS_LEN || MetFull(s, next, k + 1, j + |bytes|)
    else MetFull(s, AfterObj(s, i), k + 1, j)
  }

  /** Copying stops short of the last byte, which is for the terminator, unless the buffer was fuller before. */
  lemma {:induction false} CopyBound(s: string, i: nat, j: nat)
    requires i <= |s|
    ensures j + (CopyEnd(s, i, j) - i) <= if j < RE_MAX_CLASS_LEN then RE_MAX_CLASS_LEN - 1 else j
    decreases |s| - i
  {
    if i == |s| || s[i] == ']' || j >= RE_MAX_CLASS_LEN - 2 {
    } else if s[i] == '\\' && i + 1 < |s| {
      CopyBound(s, i + 2, j + 2);
    } else {
      CopyBound(s, i + 1, j + 1);
    }
  }

  /** The program writes past the class buffer exactly when it meets a bracket with the buffer full. */
  lemma {:induction false} InsideUntilFull(s: string, i: nat, objs: seq<Obj>, ccl: string)
    requires i <= |s| && |objs| < RE_MAX_OBJECTS && |ccl| <= RE_MAX_CLASS_LEN
    ensures |CutCompile(s, i, objs, ccl).ccl| <= RE_MAX_CLASS_LEN <==> !MetFull(s, i, |objs|, |ccl|)
    decreases |s| - i
  {
    hide CopyEnd, ClassEnd;
    if Stops(s, i, |objs|) {
    } else if s[i] == '[' {
      CopyBound(s, TextStart(s, i), |ccl|);
      var (o, next, bytes) := Bracket(s, i, |ccl|);
      if |ccl| < RE_MAX_CLASS_LEN {
        InsideUntilFull(s, next, objs + [o], ccl + bytes);
      }
    } else {
      InsideUntilFull(s, AfterObj(s, i), objs + [ObjAt(s, i)], ccl);
    }
  }

  function Letters(n: nat): (s: string)
    ensures |s| == n && forall k :: 0 <= k < n ==> s[k] == 'a'
  {
    seq(n, _ => 'a')
  }

  lemma {:induction false} LettersCopied(s: string, i: nat, n: nat, j: nat)
    requires i + n < |s| && s[i + n] == ']' && j + n <= RE_MAX_CLASS_LEN - 2
    requires forall k :: i <= k < i + n ==> s[k] == 'a'
    ensures CopyEnd(s, i, j) == i + n
    decreases n
  {
    if n > 0 {
      LettersCopied(s, i + 1, n - 1, j + 1);
    }
  }

  lemma FullBracket(s: string) returns (objs: seq<Obj>, ccl: string)
    requires |s| > 63 && s[0] == '[' && s[63] == ']' && forall k :: 1 <= k < 63 ==> s[k] == 'a'
    ensures |objs| == 1 && |ccl| == 63 && CutCompile(s, 0, [], "") == CutCompile(s, 64, objs, ccl)
  {
    hide CopyEnd;
    assert s[1] == 'a';
    LettersCopied(s, 1, 62, 0);
    var (o, next, bytes) := Bracket(s, 0, 0);
    objs, ccl := [] + [o], "" + bytes;
  }

  lemma EmptyBracket(s: string, i: nat, objs: seq<Obj>, ccl: string) returns (objs': seq<Obj>, ccl': string)
    requires i + 1 < |s| && s[i] == '[' && s[i + 1] == ']' && |objs| < RE_MAX_OBJECTS - 1
    ensures |objs'| == |objs| + 1 && |ccl'| == |ccl| + 1
    ensures CutCompile(s, i, objs, ccl) == CutCompile(s, i + 2, objs', ccl')
  {
    var (o, next, bytes) := Bracket(s, i, |ccl|);
    objs', ccl' := objs + [o], ccl + bytes;
  }

  lemma PatternDone(s: string, objs: seq<Obj>, ccl: string)
    requires |objs| < RE_MAX_OBJECTS
    ensures CutCompile(s, |s|, objs, ccl) == Compiled(objs, ccl)
  {
  }

  /** Three brackets, the first with 62 letters, write 65 bytes to the buffer of 64; two stay inside. */
  lemma ThreeBracketsOverrun()
    ensures |CutCompile("[" + Letters(62) + "][][]", 0, [], "").ccl| == 65
    ensures |CutCompile("[" + Letters(62) + "][]", 0, [], "").ccl| == 64
  {
    hide CutCompile, Letters;
    var three, two := "[" + Letters(62) + "][][]", "[" + Letters(62) + "][]";
    var objs, ccl := FullBracket(three);
    objs, ccl := EmptyBracket(three, 64, objs, ccl);
    objs, ccl := EmptyBracket(three, 66, objs, ccl);
    PatternDone(three, objs, ccl);
    objs, ccl := FullBracket(two);
    objs, ccl := EmptyBracket(two, 64, objs, ccl);
    PatternDone(two, objs, ccl);
  }

  lemma RoomOfNone()
    ensures ClassRoom([]) == 0
  {
  }

  lemma PlainRoom(c: char)
    ensures ObjRoom(EscapeObj(c)) == 0 && ObjRoom(PlainObj(c)) == 0
  {
  }

  /** One object more, and the rest of the pattern after it. */
  lemma CompileStep(pattern: string, i: nat, objs: seq<Obj>)
    requires i < |pattern| && !LoneBackslash(pattern, i)
    ensures objs + Compile(pattern, i) == objs + [ObjAt(pattern, i)] + Compile(pattern, AfterObj(pattern, i))
    ensures ClassRoom(objs + [ObjAt(pattern, i)]) == ClassRoom(objs) + ObjRoom(ObjAt(pattern, i))
    ensures ClassRoom(objs + Compile(pattern, i)) >= ClassRoom(objs) + ObjRoom(ObjAt(pattern, i))
    ensures pattern[i] != '[' ==> ObjRoom(ObjAt(pattern, i)) == 0
  {
    var o, rest := ObjAt(pattern, i), Compile(pattern, AfterObj(pattern, i));
    assert objs + ([o] + rest) == objs + [o] + rest;
    RoomAppend(objs, [o]);
    RoomAppend(objs + [o], rest);
    assert [o][1..] == [];
    if pattern[i] == '\\' {
      PlainRoom(pattern[i + 1]);
    }
    PlainRoom(pattern[i]);
  }

  // ---- writing a pattern for given objects ----

  predicate Special(c: char) {
    c == '^' || c == '$' || c == '.' || c == '*' || c == '+' || c == '?' || c == '\\' || c == '['
  }

  /** Bracket text without a bare ']' or a backslash that escapes nothing. */
  predicate TextOk(t: string)
    decreases |t|
  {
    if t == "" then true
    else if t[0] == '\\' then |t| > 1 && TextOk(t[2..])
    else t[0] != ']' && TextOk(t[1..])
  }

  predicate Printable(o: Obj) {
    match o
    case Unused => false
    case Class(t) => TextOk(t) && (t == "" || t[0] != '^')
    case InvClass(t) => TextOk(t)
    case _ => true
  }

  function PrintObj(o: Obj): (s: string)
    requires Printable(o)
    ensures s != ""
  {
    match o
    case Begin => "^"
    case End => "$"
    case Dot => "."
    case Star => "*"
    case Plus => "+"
    case Question => "?"
    case Char(c) => if Special(c) then ['\\', c] else [c]
    case Class(t) => "[" + t + "]"
    case InvClass(t) => "[^" + t + "]"
    case Digit => "\\d"
    case NotDigit => "\\D"
    case Alpha => "\\w"
    case NotAlpha => "\\W"
    case Space => "\\s"
    case NotSpace => "\\S"
  }

  function Print(objs: seq<Obj>): string
    requires forall k :: 0 <= k < |objs| ==> Printable(objs[k])
  {
    if objs == [] then "" else PrintObj(objs[0]) + Print(objs[1..])
  }

  lemma {:induction false} TextEndsAtBracket(s: string, i: nat, t: string)
    requires i + |t| < |s| && s[i..i + |t|] == t && s[i + |t|] == ']' && TextOk(t)
    ensures ClassEnd(s, i) == i + |t|
    decreases |t|
  {
    if t != "" {
      assert s[i] == t[0];
      var n := if t[0] == '\\' then 2 else 1;
      assert s[i + n..i + n + |t[n..]|] == t[n..];
      TextEndsAtBracket(s, i + n, t[n..]);
    }
  }

  /** A printed object reads back as itself, wherever it stands. */
  lemma ObjReadBack(before: string, o: Obj, after: string)
    requires Printable(o)
    ensures var s, i := before + PrintObj(o) + after, |before|;
            && i < |s| && !LoneBackslash(s, i)
            && ObjAt(s, i) == o && AfterObj(s, i) == i + |PrintObj(o)|
  {
    var s, i, text := before + PrintObj(o) + after, |before|, PrintObj(o);
    assert s[i..i + |text|] == text;
    if o.Class? || o.InvClass? {
      BracketReadBack(s, i, o);
    } else {
      PlainReadBack(s, i, o);
    }
  }

  lemma SliceOfSlice(s: string, i: nat, n: nat, a: nat, b: nat)
    requires i + n <= |s| && a <= b <= n
    ensures s[i..i + n][a..b] == s[i + a..i + b]
  {
    var whole, part := s[i..i + n][a..b], s[i + a..i + b];
    assert |whole| == |part|;
    assert forall x :: 0 <= x < |whole| ==> whole[x] == part[x];
  }

  lemma PlainReadBack(s: string, i: nat, o: Obj)
    requires Printable(o) && !o.Class? && !o.InvClass?
    requires i + |PrintObj(o)| <= |s| && s[i..i + |PrintObj(o)|] == PrintObj(o)
    ensures i < |s| && !LoneBackslash(s, i)
    ensures ObjAt(s, i) == o && AfterObj(s, i) == i + |PrintObj(o)|
  {
    var text := PrintObj(o);
    assert s[i] == text[0] && (|text| > 1 ==> s[i + 1] == text[1]);
  }

  lemma BracketReadBack(s: string, i: nat, o: Obj)
    requires Printable(o) && (o.Class? || o.InvClass?)
    requires i + |PrintObj(o)| <= |s| && s[i..i + |PrintObj(o)|] == PrintObj(o)
    ensures i < |s| && !LoneBackslash(s, i)
    ensures ObjAt(s, i) == o && AfterObj(s, i) == i + |PrintObj(o)|
  {
    hide ClassEnd, TextOk;
    var text, k := PrintObj(o), if o.InvClass? then 2 else 1;
    assert s[i] == text[0] && s[i + 1] == text[1];
    assert text[k..|text| - 1] == o.ccl && |text| - 1 == k + |o.ccl|;
    SliceOfSlice(s, i, |text|, k, |text| - 1);
    assert s[i + k + |o.ccl|] == text[|text| - 1] == ']';
    TextEndsAtBracket(s, i + k, o.ccl);
  }

  /** Compiling a printed pattern gives the objects back. */
  lemma {:induction false} PrintReadBack(before: string, objs: seq<Obj>)
    requires forall k :: 0 <= k < |objs| ==> Printable(objs[k])
    ensures Compile(before + Print(objs), |before|) == objs
    decreases |objs|
  {
    hide ObjAt, AfterObj, Printable, PrintObj, LoneBackslash;
    var s := before + Print(objs);
    if objs == [] {
      assert s == before;
    } else {
      var text := PrintObj(objs[0]);
      ObjReadBack(before, objs[0], Print(objs[1..]));
      assert before + text + Print(objs[1..]) == s;
      PrintReadBack(before + text, objs[1..]);
    }
  }

  lemma RoundTrip(objs: seq<Obj>)
    requires forall k :: 0 <= k < |objs| ==> Printable(objs[k])
    ensures Compile(Print(objs), 0) == objs
  {
    PrintReadBack("", objs);
    assert "" + Print(objs) == Print(objs);
  }
}

/** The line-by-line INI parser: framing by a bounded buffer, and what each line means. */
module IniStream {
  // ---- physical lines ----

  /** The length of the first physical line, its newline included. */
  function LineLen(t: string): (n: nat)
    ensures n <= |t| && (t != "" ==> n > 0)
  {
    if t == "" then 0 else if t[0] == '\n' then 1 else 1 + LineLen(t[1..])
  }

  function FirstLine(t: string): string {
    t[..LineLen(t)]
  }

  function OtherLines(t: string): (r: string)
    ensures |r| <= |t| && (t != "" ==> |r| < |t|)
  {
    t[LineLen(t)..]
  }

  function Lines(t: string): seq<string>
    decreases |t|
  {
    if t == "" then [] else [FirstLine(t)] + Lines(OtherLines(t))
  }

  /** What fits of a text. */
  function Cut(s: string, n: nat): (c: string)
    ensures c <= s && |c| <= n
  {
    if |s| <= n then s else s[..n]
  }

  lemma {:induction false} LineLenSplit(a: string, b: string)
    requires '\n' !in a
    ensures LineLen(a + b) == |a| + LineLen(b)
  {
    if a == "" {
      assert a + b == b;
    } else {
      assert (a + b)[1..] == a[1..] + b;
      LineLenSplit(a[1..], b);
    }
  }

  /** A text without newline, then a newline, is a line. */
  lemma LineIs(a: string, b: string)
    requires '\n' !in a
    ensures FirstLine(a + "\n" + b) == a + "\n" && OtherLines(a + "\n" + b) == b
  {
    hide LineLen;
    LineLenSplit(a, "\n" + b);
    NewlineFirst(b);
    assert a + ("\n" + b) == a + "\n" + b;
  }

  lemma NewlineFirst(b: string)
    ensures LineLen("\n" + b) == 1 && LineLen("") == 0
  {
  }

  // ---- reading ----

  /** The text being parsed and how far it has been read. */
  class Reader {
    const text: string
    var pos: nat

    constructor (text: string)
      ensures this.text == text && pos == 0
    {
      this.text, pos := text, 0;
    }

    ghost function Rest(): string
      requires pos <= |text|
      reads this
    {
      text[pos..]
    }

    /** ini_reader_string: at most num - 1 characters, and not past a newline. */
    method Read(num: nat) returns (some: bool, str: string)
      requires pos <= |text|
      modifies this
      ensures pos <= |text|
      ensures some <==> old(Rest()) != "" && num >= 2
      ensures some ==> str != ""
      ensures num >= 2 ==> str == Cut(FirstLine(old(Rest())), num - 1)
      ensures num < 2 ==> str == ""
      ensures old(Rest()) == str + Rest()
      ensures str != "" ==> '\n' !in str[..|str| - 1]
    {
      hide LineLen, FirstLine, Cut, Begun;
      ghost var was := Rest();
      str := "";
      NothingRead(was);
      if pos == |text| || num < 2 {
        NothingToRead(was, if num >= 2 then num - 1 else 0);
        return false, str;
      }
      some := true;
      var left := num;
      while left > 1 && pos < |text|
        invariant pos <= |text| && left == num - |str| && left >= 1
        invariant Begun(was, str, Rest()) && (str == "" ==> pos < |text|)
        modifies this
      {
        var c := text[pos];
        pos := pos + 1;
        OneRead(text, pos - 1, str, was);
        if c == '\n' {
          LineRead(was, str, Rest(), num - 1);
          str := str + [c];
          return;
        }
        str := str + [c];
        left := left - 1;
      }
      PartRead(was, str, Rest(), num - 1);
    }

    /** The discarding loop: the rest of the physical line goes. */
    method Discard() returns (over: bool)
      requires pos <= |text|
      modifies this
      ensures pos <= |text|
      ensures over <==> old(Rest()) != ""
      ensures Rest() == OtherLines(old(Rest()))
    {
      hide LineLen, FirstLine, OtherLines, Cut;
      ghost var was, gone := Rest(), "";
      over := false;
      assert was == gone + Rest();
      while true
        invariant pos <= |text| && was == gone + Rest() && '\n' !in gone
        invariant over <==> gone != ""
        decreases |text| - pos
        modifies this
      {
        var some, abyss := Read(16);
        if !some {
          AllGone(gone, Rest());
          return;
        }
        SomeRead(gone + abyss + Rest(), gone, abyss, Rest());
        over := true;
        if |abyss| > 0 && abyss[|abyss| - 1] == '\n' {
          return;
        }
        gone := gone + abyss;
      }
    }

    /** One turn of the outer loop: the whole physical line is consumed, however long it is. */
    method NextLine(max: nat) returns (some: bool, line: string, over: bool)
      requires pos <= |text| && max >= 2
      modifies this
      ensures pos <= |text|
      ensures some <==> old(Rest()) != ""
      ensures !some ==> Rest() == ""
      ensures some ==>
                && line == Cut(FirstLine(old(Rest())), max - 1)
                && (over <==> |FirstLine(old(Rest()))| >= max)
                && Rest() == OtherLines(old(Rest()))
    {
      hide LineLen, FirstLine, OtherLines, Cut;
      ghost var was := Rest();
      some, line := Read(max);
      over := false;
      if !some {
        return;
      }
      AfterRead(line, Rest(), max);
      if |line| == max - 1 && line[|line| - 1] != '\n' {
        over := Discard();
      }
    }
  }

  lemma NothingToRead(was: string, n: nat)
    ensures was == "" ==> Cut(FirstLine(was), n) == "" && OtherLines(was) == ""
  {
  }

  /** Of the text `was`, `str` has been read, and no newline yet. */
  ghost predicate Begun(was: string, str: string, rest: string) {
    was == str + rest && '\n' !in str
  }

  lemma NothingRead(was: string)
    ensures Begun(was, "", was) && "" + was == was
  {
  }

  lemma OneRead(text: string, pos: nat, str: string, was: string)
    requires pos < |text| && Begun(was, str, text[pos..])
    ensures text[pos] != '\n' ==> Begun(was, str + [text[pos]], text[pos + 1..])
    ensures text[pos] == '\n' ==> '\n' !in str && was == str + ['\n'] + text[pos + 1..]
  {
    assert text[pos..] == [text[pos]] + text[pos + 1..];
    assert was == str + [text[pos]] + text[pos + 1..];
  }

  lemma LineRead(was: string, str: string, rest: string, n: nat)
    requires '\n' !in str && |str| < n && was == str + ['\n'] + rest
    ensures Cut(FirstLine(was), n) == str + ['\n'] && '\n' !in (str + ['\n'])[..|str|]
  {
    hide LineLen, FirstLine, OtherLines;
    LineIs(str, rest);
    assert (str + ['\n'])[..|str|] == str;
  }

  lemma PartRead(was: string, str: string, rest: string, n: nat)
    requires Begun(was, str, rest) && (|str| == n || (|str| < n && rest == ""))
    ensures was == str + rest && Cut(FirstLine(was), n) == str
    ensures str != "" ==> '\n' !in str[..|str| - 1]
  {
    hide LineLen, Cut;
    LineLenSplit(str, rest);
    NewlineFirst("");
    var m := LineLen(was);
    assert was[..m][..|str|] == str;
    CutIs(was[..m], str, n);
  }

  lemma CutIs(s: string, front: string, n: nat)
    requires front <= s && (|front| == n || (|front| < n && front == s))
    ensures Cut(s, n) == front
  {
  }

  lemma AllGone(gone: string, rest: string)
    requires '\n' !in gone && rest == ""
    ensures OtherLines(gone + rest) == rest
  {
    hide LineLen;
    LineLenSplit(gone, rest);
    NewlineFirst("");
  }

  lemma SomeRead(was: string, gone: string, abyss: string, rest: string)
    requires was == gone + abyss + rest && '\n' !in gone && (abyss != "" ==> '\n' !in abyss[..|abyss| - 1])
    ensures abyss != "" && abyss[|abyss| - 1] == '\n' ==> OtherLines(was) == rest
    ensures gone + abyss + rest == gone + (abyss + rest)
  {
    hide LineLen, FirstLine, OtherLines;
    if abyss != "" && abyss[|abyss| - 1] == '\n' {
      var a := abyss[..|abyss| - 1];
      assert abyss == a + "\n";
      LineIs(gone + a, rest);
      assert was == (gone + a) + "\n" + rest;
    }
  }

  /** A full buffer without newline means that the line goes on, unless the text ends. */
  lemma AfterRead(line: string, rest: string, max: nat)
    requires max >= 2 && line + rest != "" && line == Cut(FirstLine(line + rest), max - 1)
    requires line != "" ==> '\n' !in line[..|line| - 1]
    ensures line != ""
    ensures if |line| == max - 1 && line[|line| - 1] != '\n'
            then (|FirstLine(line + rest)| >= max <==> rest != "") && OtherLines(line + rest) == OtherLines(rest)
            else |FirstLine(line + rest)| < max && OtherLines(line + rest) == rest
  {
    hide LineLen;
    var t := line + rest;
    var n := LineLen(t);
    assert line != "";
    var last := line[|line| - 1];
    assert line == line[..|line| - 1] + [last];
    if |line| == max - 1 && last != '\n' {
      LineLenSplit(line, rest);
      assert t[n..] == rest[LineLen(rest)..];
    } else if |line| == max - 1 {
      LineIs(line[..|line| - 1], rest);
    } else {
      assert line == t[..n];
    }
  }
}

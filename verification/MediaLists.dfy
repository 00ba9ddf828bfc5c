/** Comma-separated lists of image paths and of write flags, as the INI file keeps them. */
module MediaLists {
  import opened Basics
  import opened Blanks

  /** The two machines' readers: only the Apple one knows quotes and all white space. */
  datatype Style = Apple | C64

  function BlanksOf(st: Style): Kind {
    if st == Apple then White else Spaces
  }

  predicate Quote(c: char) {
    c == '"' || c == '\''
  }

  // ---- scanning ----

  function Upto(s: string, c: char): (n: nat)
    ensures n <= |s| && c !in s[..n] && (n < |s| ==> s[n] == c)
  {
    if s == "" || s[0] == c then 0 else 1 + Upto(s[1..], c)
  }

  function Past(s: string, n: nat): (r: string)
    requires n <= |s|
    ensures |r| <= |s| - n
  {
    if n < |s| then s[n + 1..] else ""
  }

  datatype Token = End | TooLong | Word(text: string, rest: string)

  /** The next entry of a list. */
  function Next(st: Style, s: string, size: nat): (k: Token)
    ensures k.Word? ==> |k.rest| < |s|
  {
    var t := Skipped(BlanksOf(st), s);
    if t == "" then End
    else if st == Apple && Quote(t[0]) then Quoted(t, size)
    else Unquoted(st, t, size)
  }

  function Quoted(t: string, size: nat): (k: Token)
    requires t != ""
    ensures k.Word? ==> |k.rest| < |t|
  {
    var n := Upto(t[1..], t[0]);
    var after := Skipped(White, Past(t[1..], n));
    if n >= size then TooLong
    else Word(t[1..][..n], if after != "" && after[0] == ',' then after[1..] else after)
  }

  function Unquoted(st: Style, t: string, size: nat): (k: Token)
    requires t != ""
    ensures k.Word? ==> |k.rest| < |t|
  {
    var n := Upto(t, ',');
    var word := Trimmed(BlanksOf(st), t[..n]);
    if (if st == Apple then n else |word|) >= size then TooLong else Word(word, Past(t, n))
  }

  /** All entries: empty ones are dropped; an overlong one ends the Apple list and fails the C64 one. */
  function Parse(st: Style, s: string, size: nat): Option<seq<string>>
    decreases |s|
  {
    match Next(st, s, size)
    case End => Some([])
    case TooLong => if st == Apple then Some([]) else None
    case Word(text, rest) =>
      var more := Parse(st, rest, size);
      if text == "" || more.None? then more else Some([text] + more.value)
  }

  // ---- the readers ----

  /** disk_slot_next_path, on the text from the cursor on. */
  method NextPath(s: string, size: nat) returns (ok: bool, out: string, rest: string)
    requires size > 0
    ensures ok <==> Next(Apple, s, size).Word?
    ensures ok ==> Next(Apple, s, size) == Word(out, rest)
    ensures !ok ==> out == ""
  {
    hide Upto, Trimmed, Skipped;
    out := "";
    rest := SkipBlanks(White, s);
    if rest == "" {
      return false, "", rest;
    }
    ghost var t := rest;
    if Quote(rest[0]) {
      var quote := rest[0];
      var fits;
      fits, out, rest := CopyUpto(rest[1..], quote, size);
      if !fits {
        return false, "", s;
      }
      if rest != "" {
        rest := rest[1..];
      }
      rest := SkipBlanks(White, rest);
      if rest != "" && rest[0] == ',' {
        rest := rest[1..];
      }
    } else {
      var fits;
      fits, out, rest := CopyUpto(rest, ',', size);
      if !fits {
        return false, "", s;
      }
      out := TrimBlanks(White, out);
      if rest != "" {
        rest := rest[1..];
      }
    }
    ok := true;
  }

  /** Copies up to a character or the end, as long as the buffer has room. */
  method CopyUpto(s: string, c: char, size: nat) returns (fits: bool, out: string, rest: string)
    requires size > 0
    ensures fits <==> Upto(s, c) < size
    ensures fits ==> out == s[..Upto(s, c)] && rest == s[Upto(s, c)..]
  {
    var n := 0;
    while n < |s| && s[n] != c
      invariant n <= |s| && n <= Upto(s, c) && Upto(s, c) == n + Upto(s[n..], c) && n < size
      decreases |s| - n
    {
      UptoStep(s, c, n);
      if n + 1 >= size {
        return false, "", s;
      }
      n := n + 1;
    }
    fits, out, rest := true, s[..n], s[n..];
  }

  lemma UptoStep(s: string, c: char, n: nat)
    requires n < |s| && s[n] != c
    ensures Upto(s[n..], c) == 1 + Upto(s[n + 1..], c)
  {
    assert s[n..][1..] == s[n + 1..];
  }

  /** disk_slot_parse_list of the Apple options, paths kept as they are. */
  method ParseList(spec: string, size: nat) returns (paths: seq<string>)
    requires size > 0
    ensures Parse(Apple, spec, size) == Some(paths)
  {
    hide Next;
    var cursor := spec;
    paths := [];
    ParseNone(Apple, size);
    AfterStep(paths, "", Parse(Apple, spec, size));
    while cursor != ""
      invariant After(paths, Parse(Apple, cursor, size)) == Parse(Apple, spec, size)
      decreases |cursor|
    {
      var ok, path, rest := NextPath(cursor, size);
      AfterStep(paths, path, Parse(Apple, rest, size));
      if !ok {
        return;
      }
      cursor := rest;
      if path != "" {
        paths := paths + [path];
      }
    }
    AfterStep(paths, "", Some([]));
  }

  function After(done: seq<string>, more: Option<seq<string>>): Option<seq<string>> {
    if more.None? then None else Some(done + more.value)
  }

  lemma ParseNone(st: Style, size: nat)
    ensures Parse(st, "", size) == Some([])
  {
  }

  lemma AfterStep(done: seq<string>, path: string, more: Option<seq<string>>)
    ensures more.Some? ==> done + ([path] + more.value) == done + [path] + more.value
    ensures After([], more) == more && After(done, Some([])) == Some(done)
  {
    assert more.Some? ==> [] + more.value == more.value;
    assert done + [] == done;
  }

  /** disk_slot_parse_list of the C64 options. */
  method ParseListC64(spec: string, size: nat) returns (ok: bool, paths: seq<string>)
    requires size > 0
    ensures ok <==> Parse(C64, spec, size).Some?
    ensures ok ==> Parse(C64, spec, size) == Some(paths)
  {
    hide Upto, Trimmed, Skipped;
    var cursor := spec;
    paths := [];
    ParseNone(C64, size);
    AfterStep(paths, "", Parse(C64, spec, size));
    while cursor != ""
      invariant After(paths, Parse(C64, cursor, size)) == Parse(C64, spec, size)
      decreases |cursor|
    {
      var start := SkipBlanks(Spaces, cursor);
      if start == "" {
        AfterStep(paths, "", Some([]));
        return true, paths;
      }
      var n := FindComma(start);
      var word := TrimBlanks(Spaces, start[..n]);
      var rest := if n < |start| then start[n + 1..] else "";
      AfterStep(paths, word, Parse(C64, rest, size));
      if |word| >= size {
        return false, paths;
      }
      cursor := rest;
      if word != "" {
        paths := paths + [word];
      }
    }
    AfterStep(paths, "", Some([]));
    ok := true;
  }

  method FindComma(s: string) returns (n: nat)
    ensures n == Upto(s, ',')
  {
    n := 0;
    while n < |s| && s[n] != ','
      invariant n <= |s| && Upto(s, ',') == n + Upto(s[n..], ',')
      decreases |s| - n
    {
      UptoStep(s, ',', n);
      n := n + 1;
    }
  }

  // ---- the writer ----

  /** One more entry behind what is already there. */
  function Added(out: string, path: string): string {
    out + (if out != "" then "," else "") + path
  }

  function Formatted(paths: seq<string>): string {
    if paths == [] then "" else Added(Formatted(paths[..|paths| - 1]), paths[|paths| - 1])
  }

  /** disk_slot_format_list, format_diskii_mount_list: the whole list, or failure. */
  method FormatList(paths: seq<string>, size: nat) returns (ok: bool, out: string)
    ensures ok <==> size > 0 && |Formatted(paths)| < size
    ensures ok ==> out == Formatted(paths)
  {
    hide Formatted;
    out := "";
    if size == 0 {
      return false, out;
    }
    FormattedStep(paths, 0);
    var j := 0;
    while j < |paths|
      invariant 0 <= j <= |paths| && out == Formatted(paths[..j]) && |out| < size
    {
      FormattedStep(paths, j);
      out := Added(out, paths[j]);
      j := j + 1;
      if |out| >= size {
        FormattedGrows(paths, j);
        return false, out;
      }
    }
    assert paths[..j] == paths;
    ok := true;
  }

  lemma FormattedStep(paths: seq<string>, j: nat)
    requires j <= |paths|
    ensures Formatted(paths[..0]) == ""
    ensures j < |paths| ==> Formatted(paths[..j + 1]) == Added(Formatted(paths[..j]), paths[j])
  {
    if j < |paths| {
      assert paths[..j + 1][..j] == paths[..j];
    }
  }

  lemma {:induction false} FormattedGrows(paths: seq<string>, j: nat)
    requires j <= |paths|
    ensures |Formatted(paths[..j])| <= |Formatted(paths)|
    decreases |paths| - j
  {
    hide Formatted;
    if j < |paths| {
      FormattedStep(paths, j);
      FormattedGrows(paths, j + 1);
    } else {
      assert paths[..j] == paths;
    }
  }

  // ---- lists that come back ----

  /** A path the list form can carry. */
  predicate Safe(st: Style, p: string, size: nat) {
    && p != "" && ',' !in p && |p| < size
    && !Blank(BlanksOf(st), p[0]) && !Blank(BlanksOf(st), p[|p| - 1])
    && (st == Apple ==> !Quote(p[0]))
  }

  ghost predicate AllSafe(st: Style, paths: seq<string>, size: nat) {
    forall i :: 0 <= i < |paths| ==> Safe(st, paths[i], size)
  }

  function Joined(paths: seq<string>): string {
    if paths == [] then "" else if |paths| == 1 then paths[0] else paths[0] + "," + Joined(paths[1..])
  }

  ghost predicate NoneEmpty(paths: seq<string>) {
    forall i :: 0 <= i < |paths| ==> paths[i] != ""
  }

  lemma {:induction false} FormattedIsJoined(paths: seq<string>)
    requires NoneEmpty(paths)
    ensures Formatted(paths) == Joined(paths) && (paths != [] ==> Joined(paths) != "")
  {
    if |paths| > 1 {
      var k := |paths| - 1;
      FormattedIsJoined(paths[..k]);
      JoinedSnoc(paths[..k], paths[k]);
      assert paths[..k] + [paths[k]] == paths;
    }
  }

  lemma {:induction false} JoinedSnoc(paths: seq<string>, p: string)
    requires paths != []
    ensures Joined(paths + [p]) == Joined(paths) + "," + p
  {
    if |paths| > 1 {
      assert (paths + [p])[1..] == paths[1..] + [p];
      JoinedSnoc(paths[1..], p);
    }
  }

  lemma {:induction false} UptoIs(p: string, rest: string, c: char)
    requires c !in p
    ensures Upto(p, c) == |p| && Upto(p + [c] + rest, c) == |p|
  {
    if p != "" {
      assert (p + [c] + rest)[1..] == p[1..] + [c] + rest;
      UptoIs(p[1..], rest, c);
    }
  }

  /** A safe path at the front of a list is the next entry. */
  lemma NextIs(st: Style, p: string, rest: string, size: nat)
    requires Safe(st, p, size)
    ensures Next(st, p, size) == Word(p, "") && Next(st, p + "," + rest, size) == Word(p, rest)
  {
    hide Upto;
    UptoIs(p, rest, ',');
    FrontIs(st, p, size);
    FrontIs(st, p + "," + rest, size);
    assert p[..|p|] == p && (p + "," + rest)[..|p|] == p;
    TrimmedIs(BlanksOf(st), p);
  }

  lemma FrontIs(st: Style, t: string, size: nat)
    requires t != "" && !Blank(BlanksOf(st), t[0]) && (st == Apple ==> !Quote(t[0]))
    ensures Next(st, t, size) == Unquoted(st, t, size)
  {
    hide Unquoted;
    assert Skipped(BlanksOf(st), t) == t;
  }

  lemma TrimmedIs(kind: Kind, p: string)
    requires p != "" && !Blank(kind, p[|p| - 1])
    ensures Trimmed(kind, p) == p
  {
  }

  lemma {:induction false} ParseJoined(st: Style, paths: seq<string>, size: nat)
    requires AllSafe(st, paths, size)
    ensures Parse(st, Joined(paths), size) == Some(paths)
  {
    hide Next, Safe, Blank;
    if paths == [] {
      ParseNone(st, size);
    } else {
      ParseJoined(st, paths[1..], size);
      SafeNotEmpty(st, paths[0], size);
      NextIs(st, paths[0], Joined(paths[1..]), size);
      ParseNone(st, size);
      assert [paths[0]] + paths[1..] == paths;
    }
  }

  lemma SafeNotEmpty(st: Style, p: string, size: nat)
    requires Safe(st, p, size)
    ensures p != ""
  {
  }

  // ---- only those come back ----

  /** The length of the text these entries take up, each with a separator. */
  function Cost(paths: seq<string>): nat {
    if paths == [] then 0 else |paths[0]| + 1 + Cost(paths[1..])
  }

  /** An entry costs its text and a separator; only a safe one costs no more. */
  lemma NextCost(st: Style, s: string, size: nat)
    requires Next(st, s, size).Word?
    ensures var k := Next(st, s, size);
            && |k.text| + |k.rest| <= |s|
            && (k.rest != "" ==> |k.text| + 1 + |k.rest| <= |s|)
            && (k.text != "" && !Safe(st, k.text, size) ==>
                  |k.text| + |k.rest| + 1 <= |s| && (k.rest != "" ==> |k.text| + 2 + |k.rest| <= |s|))
  {
    hide Skipped, Upto, Trimmed;
    var t := Skipped(BlanksOf(st), s);
    if st == Apple && Quote(t[0]) {
      QuotedCost(t, size);
    } else {
      UnquotedSafe(st, t, size);
    }
  }

  lemma QuotedCost(t: string, size: nat)
    requires t != "" && Quoted(t, size).Word?
    ensures var k := Quoted(t, size);
            |k.text| + 1 + |k.rest| <= |t| && (k.rest != "" ==> |k.text| + 2 + |k.rest| <= |t|)
  {
    hide Skipped, Upto;
  }

  lemma UnquotedSafe(st: Style, t: string, size: nat)
    requires t != "" && !Blank(BlanksOf(st), t[0]) && (st == Apple ==> !Quote(t[0])) && Unquoted(st, t, size).Word?
    ensures var k := Unquoted(st, t, size);
            && (k.text != "" ==> Safe(st, k.text, size))
            && |k.text| + |k.rest| <= |t| && (k.rest != "" ==> |k.text| + 1 + |k.rest| <= |t|)
  {
    hide Upto, Trimmed, Blank;
    var n := Upto(t, ',');
    var word := Trimmed(BlanksOf(st), t[..n]);
    assert word <= t[..n];
    if word != "" {
      assert word[0] == t[0];
    }
  }

  /** Entries take up no more than the text; when they take up all of it, they are safe. */
  lemma {:induction false} ParseCost(st: Style, s: string, size: nat)
    requires Parse(st, s, size).Some?
    ensures var ps := Parse(st, s, size).value;
            NoneEmpty(ps) && Cost(ps) <= |s| + 1 && (s != "" && Cost(ps) == |s| + 1 ==> AllSafe(st, ps, size))
    decreases |s|
  {
    hide Next, Safe;
    var k := Next(st, s, size);
    if k.Word? {
      NextCost(st, s, size);
      ParseCost(st, k.rest, size);
      ParseNone(st, size);
      var more := Parse(st, k.rest, size).value;
      assert ([k.text] + more)[1..] == more;
    }
  }

  lemma {:induction false} CostOfJoined(paths: seq<string>)
    requires paths != []
    ensures Cost(paths) == |Joined(paths)| + 1
  {
    if |paths| > 1 {
      CostOfJoined(paths[1..]);
    }
  }

  /** Reading a written list gives the list back exactly when every path in it is safe. */
  lemma ListRoundTrip(st: Style, paths: seq<string>, size: nat)
    ensures Parse(st, Formatted(paths), size) == Some(paths) <==> AllSafe(st, paths, size)
  {
    hide Parse, Formatted, Joined, Cost, Blank;
    if AllSafe(st, paths, size) {
      FormattedIsJoined(paths);
      ParseJoined(st, paths, size);
    } else if Parse(st, Formatted(paths), size) == Some(paths) {
      ParseCost(st, Formatted(paths), size);
      FormattedIsJoined(paths);
      CostOfJoined(paths);
      assert false;
    }
  }

  /** A path with a comma comes back as two. */
  lemma CommaSplits()
    ensures Parse(Apple, Formatted(["a,b"]), 100) != Some(["a,b"])
    ensures Parse(C64, Formatted(["a,b"]), 100) != Some(["a,b"])
  {
    hide Parse, Formatted;
    var paths := ["a,b"];
    assert ',' in paths[0];
    ListRoundTrip(Apple, paths, 100);
    ListRoundTrip(C64, paths, 100);
  }

  // ---- write flags ----

  function Flag(b: bool): string {
    if b then "1" else "0"
  }

  function FlagWords(fs: seq<bool>): (ws: seq<string>)
    ensures |ws| == |fs| && forall i :: 0 <= i < |ws| ==> ws[i] == Flag(fs[i])
  {
    seq(|fs|, i requires 0 <= i < |fs| => Flag(fs[i]))
  }

  /** disk_slot_format_writable_list. */
  method FormatFlags(fs: seq<bool>, size: nat) returns (ok: bool, out: string)
    ensures ok <==> size > 0 && |Formatted(FlagWords(fs))| < size
    ensures ok ==> forall before :: |before| == |fs| ==> Flagged(out, before) == fs
  {
    hide Formatted, FlagWords, Flagged;
    ok, out := FormatList(FlagWords(fs), size);
    forall before: seq<bool> | |before| == |fs| ensures Flagged(Formatted(FlagWords(fs)), before) == fs {
      FlagsRoundTrip(fs, before);
    }
  }

  predicate Means(word: string) {
    word == "1" || word == "true" || word == "rw"
  }

  /** The flags after reading a text, given those before: entries the text does not reach stay. */
  function Flagged(s: string, fs: seq<bool>): (r: seq<bool>)
    ensures |r| == |fs|
    decreases |fs|
  {
    if s == "" || fs == [] then fs
    else
      var t := Skipped(Spaces, s);
      var n := Upto(t, ',');
      [Means(Trimmed(Spaces, t[..n]))] + Flagged(Past(t, n), fs[1..])
  }

  /** disk_slot_parse_writable_list, in place. */
  method ParseFlags(spec: string, writable: array<bool>)
    modifies writable
    ensures writable[..] == Flagged(spec, old(writable[..]))
  {
    hide Flagged;
    var cursor, index := spec, 0;
    ghost var was := writable[..];
    assert was[..0] + Flagged(spec, was[0..]) == Flagged(spec, was);
    while cursor != "" && index < writable.Length
      invariant 0 <= index <= writable.Length == |was|
      invariant writable[index..] == was[index..]
      invariant writable[..index] + Flagged(cursor, was[index..]) == Flagged(spec, was)
      modifies writable
    {
      FlaggedStep(cursor, was, index, writable[..index]);
      var start := SkipBlanks(Spaces, cursor);
      var n := FindComma(start);
      var word := TrimBlanks(Spaces, start[..n]);
      SetFlag(writable, index, Means(word), was);
      index := index + 1;
      cursor := if n < |start| then start[n + 1..] else "";
    }
    FlaggedEnd(cursor, was, index);
    assert writable[..] == writable[..index] + writable[index..];
  }

  method SetFlag(writable: array<bool>, index: nat, b: bool, ghost was: seq<bool>)
    requires index < writable.Length == |was| && writable[index..] == was[index..]
    modifies writable
    ensures writable[..index + 1] == old(writable[..index]) + [b] && writable[index + 1..] == was[index + 1..]
  {
    assert was[index..][1..] == was[index + 1..];
    writable[index] := b;
  }

  lemma FlaggedStep(s: string, was: seq<bool>, index: nat, front: seq<bool>)
    requires s != "" && index < |was|
    ensures var t := Skipped(Spaces, s);
            var n := Upto(t, ',');
            front + Flagged(s, was[index..])
            == front + [Means(Trimmed(Spaces, t[..n]))] + Flagged(Past(t, n), was[index + 1..])
  {
    hide Upto, Trimmed, Skipped;
    assert was[index..][1..] == was[index + 1..];
  }

  lemma FlaggedEnd(s: string, was: seq<bool>, index: nat)
    requires index <= |was|
    ensures s == "" || index == |was| ==> Flagged(s, was[index..]) == was[index..]
  {
  }

  /** Written flags are read back, whatever the flags were before. */
  lemma FlagsRoundTrip(fs: seq<bool>, before: seq<bool>)
    requires |before| == |fs|
    ensures Flagged(Formatted(FlagWords(fs)), before) == fs
  {
    hide Formatted, Joined, Flagged, FlagWords;
    FormattedIsJoined(FlagWords(fs));
    FlagsBack(fs, before);
  }

  lemma {:induction false} FlagsBack(fs: seq<bool>, before: seq<bool>)
    requires |before| == |fs|
    ensures Flagged(Joined(FlagWords(fs)), before) == fs
  {
    hide FlagWords, Flagged, Flag;
    if fs == [] {
      FlaggedNone(before);
    } else {
      FlagsBack(fs[1..], before[1..]);
      assert FlagWords(fs)[1..] == FlagWords(fs[1..]);
      FlagHead(fs[0], Joined(FlagWords(fs[1..])), before);
      FlaggedNone(before[1..]);
      assert [fs[0]] + fs[1..] == fs;
    }
  }

  lemma FlaggedNone(before: seq<bool>)
    ensures Flagged("", before) == before && Flag(true) == "1" && Flag(false) == "0"
  {
  }

  lemma FlagHead(b: bool, rest: string, before: seq<bool>)
    requires before != []
    ensures Flagged(Flag(b), before) == [b] + Flagged("", before[1..])
    ensures Flagged(Flag(b) + "," + rest, before) == [b] + Flagged(rest, before[1..])
  {
    hide Flagged, Flag, Trimmed, Upto, Skipped, Past, Means;
    var f := Flag(b);
    FlaggedNone(before);
    UptoIs(f, rest, ',');
    FlagFront(f, rest);
    FlagTrim(f);
    FlagMeans(b);
    FlagStep(f, before);
    FlagStep(f + "," + rest, before);
  }

  lemma FlagStep(s: string, before: seq<bool>)
    requires s != "" && before != []
    ensures var t := Skipped(Spaces, s);
            var n := Upto(t, ',');
            Flagged(s, before) == [Means(Trimmed(Spaces, t[..n]))] + Flagged(Past(t, n), before[1..])
  {
    hide Trimmed, Upto, Skipped, Past, Means;
  }

  lemma FlagMeans(b: bool)
    ensures Means(Flag(b)) == b
  {
  }

  lemma FlagTrim(f: string)
    requires f == "0" || f == "1"
    ensures Trimmed(Spaces, f) == f
  {
  }

  lemma FlagFront(f: string, rest: string)
    requires f == "0" || f == "1"
    ensures Skipped(Spaces, f) == f && Skipped(Spaces, f + "," + rest) == f + "," + rest
    ensures f[..1] == f && (f + "," + rest)[..1] == f
    ensures Past(f, 1) == "" && Past(f + "," + rest, 1) == rest
  {
  }
}

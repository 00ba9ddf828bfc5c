/** A drive's queue through the INI file and back: stored paths in a list, resolved when it is read. */
module SavedMedia {
  import opened Basics
  import opened DiskSpec
  import opened Paths
  import opened MediaLists

  // ---- writing the list of a drive ----

  function NonEmpty(ps: seq<string>): (r: seq<string>) {
    if ps == [] then [] else (if ps[0] == "" then [] else [ps[0]]) + NonEmpty(ps[1..])
  }

  /** The form a path is stored in on each machine. */
  function StoredForm(st: Style, known: set<string>, dir: string, path: string, size: nat): Option<string> {
    if st == Apple then StoredRelative(known, dir, path, size) else Storage(known, dir, path, size)
  }

  /** What is written for one path: its stored form, or the path itself when that does not fit. */
  function Word(st: Style, known: set<string>, dir: string, path: string, size: nat): Option<string> {
    var form := StoredForm(st, known, dir, path, size);
    if form.Some? then form else Fitting(Slashed(path), size)
  }

  function Words(st: Style, known: set<string>, dir: string, ps: seq<string>, size: nat): (r: Option<seq<string>>)
    ensures r.Some? ==> |r.value| == |ps|
  {
    if ps == [] then Some([])
    else
      var k := |ps| - 1;
      var front, last := Words(st, known, dir, ps[..k], size), Word(st, known, dir, ps[k], size);
      if front.Some? && last.Some? then Some(front.value + [last.value]) else None
  }

  /** format_diskii_mount_list: the drive's part of the mount list, each path in its stored form, or failure. */
  method FormatMounts(known: set<string>, dir: string, mounts: seq<Mount>, slot: int, drive: int,
                      size: nat, outSize: nat)
    returns (ok: bool, out: string)
    ensures var words := Words(Apple, known, dir, NonEmpty(Project(mounts, slot, drive)), size);
            && (ok <==> outSize > 0 && words.Some? && |Formatted(words.value)| < outSize)
            && (ok ==> out == Formatted(words.value))
  {
    hide Formatted, Word, Words, Project, NonEmpty, On;
    out := "";
    if outSize == 0 {
      return false, out;
    }
    ghost var all := NonEmpty(Project(mounts, slot, drive));
    ghost var done: seq<string>, words: seq<string> := [], [];
    NothingProjected(mounts, slot, drive);
    NothingWritten(Apple, known, dir, size);
    var i := 0;
    while i < |mounts|
      invariant 0 <= i <= |mounts| && done == NonEmpty(Project(mounts[..i], slot, drive))
      invariant Words(Apple, known, dir, done, size) == Some(words) && out == Formatted(words) && |out| < outSize
    {
      NextMount(mounts, i, slot, drive);
      DoneIsPrefix(mounts, i + 1, slot, drive);
      var m := mounts[i];
      i := i + 1;
      if m.slot == slot && m.drive == drive && m.path != "" {
        var word := ToIni(known, dir, m.path, size);
        if word.None? {
          word := Fitting(Slashed(m.path), size);
        }
        OneMoreWord(Apple, known, dir, done, m.path, size);
        WordIs(Apple, known, dir, m.path, size);
        done := done + [m.path];
        if word.None? {
          PrefixFails(Apple, known, dir, done, all, size);
          return false, out;
        }
        AddedIs(words, word.value);
        words := words + [word.value];
        out := Added(out, word.value);
        if |out| >= outSize {
          PrefixFails(Apple, known, dir, done, all, size);
          return false, out;
        }
      }
    }
    assert mounts[..i] == mounts;
    ok := true;
  }

  /** disk_slot_format_list of the C64 options: the paths of a slot in their stored form, or failure. */
  method FormatSlot(known: set<string>, dir: string, paths: seq<string>, size: nat, outSize: nat)
    returns (ok: bool, out: string)
    ensures var words := Words(C64, known, dir, paths, size);
            && (ok <==> outSize > 0 && words.Some? && |Formatted(words.value)| < outSize)
            && (ok ==> out == Formatted(words.value))
  {
    hide Formatted, Word, Words, Storage, Slashed, Added;
    out := "";
    if outSize == 0 {
      return false, out;
    }
    ghost var words: seq<string> := [];
    NothingWritten(C64, known, dir, size);
    assert paths[..0] == [];
    var j := 0;
    while j < |paths|
      invariant 0 <= j <= |paths|
      invariant Words(C64, known, dir, paths[..j], size) == Some(words) && out == Formatted(words) && |out| < outSize
    {
      var word := PathForIniStorage(known, dir, paths[j], size);
      if word.None? {
        word := Fitting(Slashed(paths[j]), size);
      }
      OneMoreWord(C64, known, dir, paths[..j], paths[j], size);
      WordIs(C64, known, dir, paths[j], size);
      OneMorePath(paths, j);
      j := j + 1;
      if word.None? {
        PrefixFails(C64, known, dir, paths[..j], paths, size);
        return false, out;
      }
      AddedIs(words, word.value);
      words := words + [word.value];
      out := Added(out, word.value);
      if |out| >= outSize {
        PrefixFails(C64, known, dir, paths[..j], paths, size);
        return false, out;
      }
    }
    assert paths[..j] == paths;
    ok := true;
  }

  lemma OneMorePath(paths: seq<string>, j: nat)
    requires j < |paths|
    ensures paths[..j + 1] == paths[..j] + [paths[j]]
  {
  }

  lemma NothingProjected(mounts: seq<Mount>, slot: int, drive: int)
    ensures NonEmpty(Project(mounts[..0], slot, drive)) == []
  {
  }

  lemma NothingWritten(st: Style, known: set<string>, dir: string, size: nat)
    ensures Words(st, known, dir, [], size) == Some([]) && Formatted([]) == ""
  {
  }

  lemma {:induction false} NonEmptySnoc(ps: seq<string>, p: string)
    ensures NonEmpty(ps + [p]) == NonEmpty(ps) + if p == "" then [] else [p]
  {
    if ps == [] {
      assert [p][1..] == [];
    } else {
      assert (ps + [p])[1..] == ps[1..] + [p];
      NonEmptySnoc(ps[1..], p);
    }
  }

  lemma NextMount(mounts: seq<Mount>, i: nat, slot: int, drive: int)
    requires i < |mounts|
    ensures NonEmpty(Project(mounts[..i + 1], slot, drive))
            == NonEmpty(Project(mounts[..i], slot, drive))
               + if On(mounts[i], slot, drive) && mounts[i].path != "" then [mounts[i].path] else []
    ensures On(mounts[i], slot, drive) <==> mounts[i].slot == slot && mounts[i].drive == drive
  {
    hide Project, NonEmpty;
    var before := Project(mounts[..i], slot, drive);
    assert mounts[..i + 1] == mounts[..i] + [mounts[i]];
    ProjectSnoc(mounts[..i], mounts[i], slot, drive);
    NonEmptySnoc(before, mounts[i].path);
    assert before + [] == before;
  }

  lemma {:induction false} DoneIsPrefix(mounts: seq<Mount>, i: nat, slot: int, drive: int)
    requires i <= |mounts|
    ensures NonEmpty(Project(mounts[..i], slot, drive)) <= NonEmpty(Project(mounts, slot, drive))
    decreases |mounts| - i
  {
    hide Project, NonEmpty, On;
    if i < |mounts| {
      NextMount(mounts, i, slot, drive);
      DoneIsPrefix(mounts, i + 1, slot, drive);
    } else {
      assert mounts[..i] == mounts;
    }
  }

  lemma OneMoreWord(st: Style, known: set<string>, dir: string, done: seq<string>, path: string, size: nat)
    ensures var front, last := Words(st, known, dir, done, size), Word(st, known, dir, path, size);
            Words(st, known, dir, done + [path], size)
            == if front.Some? && last.Some? then Some(front.value + [last.value]) else None
  {
    hide Word;
    assert (done + [path])[..|done|] == done;
  }

  lemma WordIs(st: Style, known: set<string>, dir: string, path: string, size: nat)
    ensures var form := StoredForm(st, known, dir, path, size);
            Word(st, known, dir, path, size) == if form.Some? then form else Fitting(Slashed(path), size)
  {
  }

  lemma AddedIs(words: seq<string>, word: string)
    ensures Formatted(words + [word]) == Added(Formatted(words), word)
  {
    assert (words + [word])[..|words|] == words;
  }

  /** A front part that cannot be written is the end of it. */
  lemma {:induction false} PrefixFails(st: Style, known: set<string>, dir: string, front: seq<string>,
                                       all: seq<string>, size: nat)
    requires front <= all
    ensures var a, b := Words(st, known, dir, front, size), Words(st, known, dir, all, size);
            && (a.None? ==> b.None?)
            && (b.Some? ==> a.value <= b.value && |Formatted(a.value)| <= |Formatted(b.value)|)
    decreases |all|
  {
    hide Word, Formatted, Added;
    if front != all {
      var k := |all| - 1;
      assert all == all[..k] + [all[k]] && front <= all[..k];
      PrefixFails(st, known, dir, front, all[..k], size);
      var b := Words(st, known, dir, all, size);
      if b.Some? {
        var c := Words(st, known, dir, all[..k], size).value;
        AddedIs(c, b.value[|b.value| - 1]);
        AddedGrows(Formatted(c), b.value[|b.value| - 1]);
      }
    }
  }

  lemma AddedGrows(out: string, word: string)
    ensures |out| <= |Added(out, word)|
  {
  }

  // ---- reading it again ----

  /** disk_slot_parse_list with resolving: an entry that does not resolve is kept as it is. */
  method ParseResolved(known: set<string>, dir: string, spec: string, size: nat) returns (paths: seq<string>)
    requires size > 0
    ensures Parse(Apple, spec, size).Some? && paths == Loaded(known, dir, Parse(Apple, spec, size).value, size)
  {
    hide Parse, Loaded;
    var words := ParseList(spec, size);
    paths := ResolveAll(known, dir, words, size);
  }

  /** The same for the C64 options, which fail on an overlong entry. */
  method ParseResolvedC64(known: set<string>, dir: string, spec: string, size: nat)
    returns (ok: bool, paths: seq<string>)
    requires size > 0
    ensures ok <==> Parse(C64, spec, size).Some?
    ensures ok ==> paths == Loaded(known, dir, Parse(C64, spec, size).value, size)
  {
    hide Parse, Loaded;
    var words;
    ok, words := ParseListC64(spec, size);
    if !ok {
      return false, [];
    }
    paths := ResolveAll(known, dir, words, size);
  }

  method ResolveAll(known: set<string>, dir: string, words: seq<string>, size: nat) returns (paths: seq<string>)
    ensures paths == Loaded(known, dir, words, size)
  {
    hide FromIni;
    paths := [];
    var i := 0;
    while i < |words|
      invariant 0 <= i <= |words| && |paths| == i
      invariant forall k :: 0 <= k < i ==> paths[k] == Loaded(known, dir, words, size)[k]
    {
      var full := FromIni(known, dir, words[i], size);
      paths := paths + [if full.Some? then full.value else words[i]];
      i := i + 1;
    }
    assert paths == Loaded(known, dir, words, size);
  }

  function Loaded(known: set<string>, dir: string, words: seq<string>, size: nat): (r: seq<string>)
    ensures |r| == |words|
  {
    seq(|words|, i requires 0 <= i < |words| =>
      var full := FromIni(known, dir, words[i], size); if full.Some? then full.value else words[i])
  }

  // ---- what comes back ----

  /** What each machine writes for a normalised path. */
  function StoredAs(st: Style, base: seq<string>, path: seq<string>, size: nat): string {
    if st == Apple then Relative(Absolute(base), Absolute(path)) else Stored(base, path, size)
  }

  function AllStored(st: Style, base: seq<string>, paths: seq<seq<string>>, size: nat): (r: seq<string>)
    ensures |r| == |paths|
  {
    seq(|paths|, i requires 0 <= i < |paths| => StoredAs(st, base, paths[i], size))
  }

  /** An image whose stored form a list can carry and whose name comes back. */
  ghost predicate Storable(st: Style, known: set<string>, base: seq<string>, path: seq<string>, size: nat) {
    && AllPlain(path) && Clean(Absolute(path)) && |Absolute(path)| < size
    && |JoinPath(Absolute(base), Relative(Absolute(base), Absolute(path)))| < size
    && Safe(st, StoredAs(st, base, path, size), size)
    && ((Absolute(base) in known && Absolute(path) in known) || base < path
        || (st == C64 && !Near(base, path, size)))
  }

  lemma OneComesBack(st: Style, known: set<string>, base: seq<string>, path: seq<string>, size: nat)
    requires FileTree(known) && AllPlain(base) && Clean(Absolute(base)) && Storable(st, known, base, path, size)
    ensures FromIni(known, Absolute(base), StoredAs(st, base, path, size), size) == Some(Absolute(path))
  {
    hide FromIni, FileTree, AllPlain, Clean, Safe, Relative, Absolute, JoinPath, Normal, Back, Near, RealPath;
    ResolvesBack(known, base, path, size);
    StorageResolvesBack(known, base, path, size);
  }

  /** On both machines storable images come back in order and under their own names. */
  lemma QueueComesBack(st: Style, known: set<string>, base: seq<string>, paths: seq<seq<string>>, size: nat)
    requires FileTree(known) && AllPlain(base) && Clean(Absolute(base))
    requires forall i :: 0 <= i < |paths| ==> Storable(st, known, base, paths[i], size)
    ensures var words := Parse(st, Formatted(AllStored(st, base, paths, size)), size);
            && words.Some? && |words.value| == |paths|
            && var loaded := Loaded(known, Absolute(base), words.value, size);
               forall i :: 0 <= i < |paths| ==> loaded[i] == Absolute(paths[i])
  {
    hide Parse, Formatted, Absolute, FromIni, FileTree, AllPlain, Clean, StoredAs;
    var words := AllStored(st, base, paths, size);
    forall i | 0 <= i < |words| ensures Safe(st, words[i], size) {
      StorableIsSafe(st, known, base, paths[i], size);
    }
    ListRoundTrip(st, words, size);
    forall i | 0 <= i < |paths| ensures Loaded(known, Absolute(base), words, size)[i] == Absolute(paths[i]) {
      OneComesBack(st, known, base, paths[i], size);
    }
  }

  lemma StorableIsSafe(st: Style, known: set<string>, base: seq<string>, path: seq<string>, size: nat)
    requires Storable(st, known, base, path, size)
    ensures Safe(st, StoredAs(st, base, path, size), size)
  {
    hide Safe, StoredAs, AllPlain, Clean, Absolute, JoinPath, Relative;
  }

  // ---- through the file and back ----

  function Names(paths: seq<seq<string>>): (r: seq<string>)
    ensures |r| == |paths|
  {
    seq(|paths|, i requires 0 <= i < |paths| => Absolute(paths[i]))
  }

  /** What the writers write for storable images. */
  lemma {:induction false} WordsAreStored(st: Style, known: set<string>, base: seq<string>, paths: seq<seq<string>>,
                                          size: nat)
    requires FileTree(known) && AllPlain(base) && Clean(Absolute(base))
    requires forall i :: 0 <= i < |paths| ==> Storable(st, known, base, paths[i], size)
    ensures Words(st, known, Absolute(base), Names(paths), size) == Some(AllStored(st, base, paths, size))
    decreases |paths|
  {
    hide Absolute, StoredAs, FileTree, AllPlain, Clean, Storable, Word;
    if paths != [] {
      var k := |paths| - 1;
      WordsAreStored(st, known, base, paths[..k], size);
      WordIsStored(st, known, base, paths[k], size);
      assert Names(paths)[..k] == Names(paths[..k]);
      assert AllStored(st, base, paths, size)
             == AllStored(st, base, paths[..k], size) + [StoredAs(st, base, paths[k], size)];
    }
  }

  lemma WordIsStored(st: Style, known: set<string>, base: seq<string>, path: seq<string>, size: nat)
    requires FileTree(known) && AllPlain(base) && Clean(Absolute(base)) && Storable(st, known, base, path, size)
    ensures Word(st, known, Absolute(base), Absolute(path), size) == Some(StoredAs(st, base, path, size))
  {
    hide Absolute, FileTree, AllPlain, Clean, Relative, Stored, Storage, StoredRelative, JoinPath, Near, FromIni;
    ResolvesBack(known, base, path, size);
    StorageResolvesBack(known, base, path, size);
  }

  lemma {:induction false} NoneIsEmpty(ps: seq<string>)
    requires forall i :: 0 <= i < |ps| ==> ps[i] != ""
    ensures NonEmpty(ps) == ps
  {
    if ps != [] {
      NoneIsEmpty(ps[1..]);
    }
  }

  /** Saving a drive of the Apple options and loading it gives its images back, exactly when the text fits. */
  method SaveAndLoad(known: set<string>, ghost base: seq<string>, dir: string,
                     mounts: seq<Mount>, slot: int, drive: int,
                     size: nat, outSize: nat, ghost paths: seq<seq<string>>)
    returns (ok: bool, back: seq<string>)
    requires size > 0 && dir == Absolute(base) && FileTree(known) && AllPlain(base) && Clean(Absolute(base))
    requires Project(mounts, slot, drive) == Names(paths)
    requires forall i :: 0 <= i < |paths| ==> Storable(Apple, known, base, paths[i], size)
    ensures ok <==> outSize > 0 && |Formatted(AllStored(Apple, base, paths, size))| < outSize
    ensures ok ==> back == Project(mounts, slot, drive)
  {
    hide Absolute, StoredAs, FileTree, AllPlain, Clean, Storable, Words, Formatted, Project, NonEmpty, Parse, Loaded,
         AllStored;
    back := [];
    NamesNotEmpty(paths);
    NoneIsEmpty(Names(paths));
    WordsAreStored(Apple, known, base, paths, size);
    var text;
    ok, text := FormatMounts(known, dir, mounts, slot, drive, size, outSize);
    if ok {
      QueueComesBack(Apple, known, base, paths, size);
      back := ParseResolved(known, dir, text, size);
      assert back == Names(paths);
    }
  }

  /** The same for a slot of the C64 options. */
  method SaveAndLoadC64(known: set<string>, ghost base: seq<string>, dir: string, slot: seq<string>,
                        size: nat, outSize: nat, ghost paths: seq<seq<string>>)
    returns (ok: bool, back: seq<string>)
    requires size > 0 && dir == Absolute(base) && FileTree(known) && AllPlain(base) && Clean(Absolute(base))
    requires slot == Names(paths) && forall i :: 0 <= i < |paths| ==> Storable(C64, known, base, paths[i], size)
    ensures ok <==> outSize > 0 && |Formatted(AllStored(C64, base, paths, size))| < outSize
    ensures ok ==> back == slot
  {
    hide Absolute, StoredAs, FileTree, AllPlain, Clean, Storable, Words, Formatted, Parse, Loaded, AllStored;
    back := [];
    WordsAreStored(C64, known, base, paths, size);
    var text;
    ok, text := FormatSlot(known, dir, slot, size, outSize);
    if ok {
      QueueComesBack(C64, known, base, paths, size);
      ok, back := ParseResolvedC64(known, dir, text, size);
      assert back == Names(paths);
    }
  }

  lemma NamesNotEmpty(paths: seq<seq<string>>)
    ensures forall i :: 0 <= i < |paths| ==> Names(paths)[i] != ""
  {
  }
}

/** How separators are rewritten and directories joined, apart from how it is computed. */
module PathLaws {
  import opened Basics
  import opened Paths

  /** Backslashes become slashes; nothing else changes. */
  lemma SlashedIs(s: string, i: nat)
    requires i < |s|
    ensures Slashed(s)[i] == if s[i] == '\\' then '/' else s[i]
  {
  }

  /** A path joined to the current directory, the root and any other directory. */
  lemma JoinPathIs(dir: string, path: string)
    ensures JoinPath("", path) == path && JoinPath(".", path) == path && JoinPath("/", path) == "/" + path
    ensures dir != "" && dir != "." && dir != "/" ==> JoinPath(dir, path) == dir + "/" + path
  {
  }

  /** ".." goes to the parent and stays at the root; "." stays; a name goes down. */
  lemma MovedIs(at: seq<string>, name: string)
    ensures Moved(at, ".") == at && Moved([], "..") == [] && Moved(at + [name], "..") == at
    ensures name != "." && name != ".." ==> Moved(at, name) == at + [name]
  {
  }

  /** Relative strings are stored as they are, and the empty one is resolved to itself. */
  lemma RelativeKept(known: set<string>, dir: string, path: string, size: nat)
    requires (path == "" || path[0] != '/') && '\\' !in path && |path| < size
    ensures StoredRelative(known, dir, path, size) == Some(path) && Storage(known, dir, path, size) == Some(path)
    ensures path == "" ==> FromIni(known, dir, path, size) == Some("")
  {
  }
}

/** Paths kept relative to the directory of the INI file, and how they are resolved again. */
module Paths {
  import opened Basics

  // ---- strings as components ----

  /** path_component_length: up to the first slash. */
  function CompLen(s: string): (n: nat)
    ensures n <= |s| && '/' !in s[..n] && (n < |s| ==> s[n] == '/')
  {
    if s == "" || s[0] == '/' then 0 else 1 + CompLen(s[1..])
  }

  /** Behind the first component and its slash. */
  function Behind(s: string): (r: string)
    ensures |r| <= |s| && (s != "" ==> |r| < |s|)
  {
    var n := CompLen(s);
    if n < |s| then s[n + 1..] else ""
  }

  /** The non-empty components of a path. */
  function Parts(s: string): seq<string>
    decreases |s|
  {
    if s == "" then []
    else (if CompLen(s) > 0 then [s[..CompLen(s)]] else []) + Parts(Behind(s))
  }

  predicate Named(c: string) {
    c != "" && '/' !in c
  }

  /** A component that is a name and not a direction. */
  predicate Plain(c: string) {
    Named(c) && c != "." && c != ".."
  }

  ghost predicate AllNamed(cs: seq<string>) {
    forall i :: 0 <= i < |cs| ==> Named(cs[i])
  }

  ghost predicate AllPlain(cs: seq<string>) {
    forall i :: 0 <= i < |cs| ==> Plain(cs[i])
  }

  function Join(cs: seq<string>): string {
    if cs == [] then "" else if |cs| == 1 then cs[0] else cs[0] + "/" + Join(cs[1..])
  }

  /** A normalised absolute path. */
  function Absolute(cs: seq<string>): (s: string)
    ensures |s| >= 1 && s[0] == '/'
  {
    "/" + Join(cs)
  }

  lemma {:induction false} CompLenIs(c: string, rest: string)
    requires '/' !in c
    ensures CompLen(c) == |c| && CompLen(c + "/" + rest) == |c|
  {
    if c != "" {
      assert (c + "/" + rest)[1..] == c[1..] + "/" + rest;
      CompLenIs(c[1..], rest);
    }
  }

  lemma BehindIs(c: string, rest: string)
    requires '/' !in c
    ensures Behind(c) == "" && Behind(c + "/" + rest) == rest && (c + "/" + rest)[..|c|] == c && c[..|c|] == c
  {
    hide CompLen;
    CompLenIs(c, rest);
  }

  lemma JoinStep(cs: seq<string>)
    requires cs != [] && AllNamed(cs)
    ensures Join(cs) != "" && CompLen(Join(cs)) == |cs[0]|
    ensures Join(cs)[..|cs[0]|] == cs[0] && Behind(Join(cs)) == Join(cs[1..])
  {
    hide CompLen, Behind;
    var rest := Join(cs[1..]);
    CompLenIs(cs[0], rest);
    BehindIs(cs[0], rest);
  }

  lemma {:induction false} PartsOfJoin(cs: seq<string>)
    requires AllNamed(cs)
    ensures Parts(Join(cs)) == cs
  {
    hide CompLen, Behind, Join;
    if cs != [] {
      JoinStep(cs);
      PartsOfJoin(cs[1..]);
    } else {
      JoinNone();
    }
  }

  lemma JoinNone()
    ensures Join([]) == ""
  {
  }

  /** A slash separates. */
  lemma {:induction false} PartsOfBoth(a: string, b: string)
    ensures Parts(a + "/" + b) == Parts(a) + Parts(b)
    decreases |a|
  {
    hide CompLen, Behind;
    var n := CompLen(a);
    var c := a[..n];
    if n == |a| {
      assert c == a;
      BehindIs(a, b);
      CompLenIs(a, b);
      PartsAtom(a);
    } else {
      var rest := a[n + 1..];
      assert a == c + "/" + rest && a + "/" + b == c + "/" + (rest + "/" + b);
      BehindIs(c, rest);
      BehindIs(c, rest + "/" + b);
      CompLenIs(c, rest + "/" + b);
      PartsOfBoth(rest, b);
    }
  }

  lemma PartsAtom(a: string)
    requires '/' !in a
    ensures Parts(a) == if a == "" then [] else [a]
  {
    hide CompLen, Behind;
    CompLenIs(a, "");
    BehindIs(a, "");
    assert Parts("") == [];
  }

  lemma PartsOfAbsolute(cs: seq<string>)
    requires AllNamed(cs)
    ensures Parts(Absolute(cs)) == cs
  {
    hide Parts, Join;
    PartsOfBoth("", Join(cs));
    assert "" + "/" + Join(cs) == Absolute(cs);
    PartsAtom("");
    PartsOfJoin(cs);
  }

  // ---- what a path means ----

  /** Walking components from a place: "." stays, ".." goes up, a name goes down. */
  function Walked(at: seq<string>, cs: seq<string>): seq<string>
    decreases |cs|
  {
    if cs == [] then at else Walked(Moved(at, cs[0]), cs[1..])
  }

  function Moved(at: seq<string>, c: string): seq<string> {
    if c == "." then at
    else if c == ".." then if at == [] then [] else at[..|at| - 1]
    else at + [c]
  }

  /** The normalised form of an absolute path. */
  function Normal(s: string): string {
    Absolute(Walked([], Parts(s)))
  }

  lemma {:induction false} WalkedBoth(at: seq<string>, a: seq<string>, b: seq<string>)
    ensures Walked(at, a + b) == Walked(Walked(at, a), b)
    decreases |a|
  {
    if a == [] {
      assert a + b == b;
    } else {
      assert (a + b)[1..] == a[1..] + b;
      WalkedBoth(Moved(at, a[0]), a[1..], b);
    }
  }

  lemma {:induction false} WalkedDown(at: seq<string>, cs: seq<string>)
    requires AllPlain(cs)
    ensures Walked(at, cs) == at + cs
    decreases |cs|
  {
    if cs == [] {
      assert at + cs == at;
    } else {
      WalkedDown(at + [cs[0]], cs[1..]);
      assert at + [cs[0]] + cs[1..] == at + cs;
    }
  }

  function Repeat(n: nat): (r: seq<string>)
    ensures |r| == n
  {
    if n == 0 then [] else [".."] + Repeat(n - 1)
  }

  lemma {:induction false} WalkedUp(at: seq<string>, n: nat)
    requires n <= |at|
    ensures Walked(at, Repeat(n)) == at[..|at| - n]
  {
    if n > 0 {
      WalkedUp(at[..|at| - 1], n - 1);
    }
  }

  // ---- the relative form ----

  function Common(a: seq<string>, b: seq<string>): (k: nat)
    ensures k <= |a| && k <= |b| && a[..k] == b[..k]
    ensures k < |a| && k < |b| ==> a[k] != b[k]
  {
    if a == [] || b == [] || a[0] != b[0] then 0
    else
      var k := Common(a[1..], b[1..]);
      assert a[..k + 1] == [a[0]] + a[1..][..k] && b[..k + 1] == [b[0]] + b[1..][..k];
      1 + k
  }

  /** The components of the way from one directory to a path. */
  function Way(base: seq<string>, path: seq<string>): seq<string> {
    var k := Common(base, path);
    if |base| == k && |path| == k then ["."] else Repeat(|base| - k) + path[k..]
  }

  /** Going that way from the base ends at the path. */
  lemma WayLeadsThere(base: seq<string>, path: seq<string>)
    requires AllPlain(path)
    ensures Walked(base, Way(base, path)) == path
  {
    hide Walked, Repeat, Common;
    var k := Common(base, path);
    if |base| == k && |path| == k {
      assert base == base[..k] && path == path[..k];
      WalkedDot(base);
    } else {
      WalkedBoth(base, Repeat(|base| - k), path[k..]);
      WalkedUp(base, |base| - k);
      WalkedDown(base[..k], path[k..]);
      assert path == path[..k] + path[k..];
    }
  }

  lemma WalkedDot(at: seq<string>)
    ensures Walked(at, ["."]) == at
  {
  }

  predicate IsAbsolute(s: string) {
    s != "" && s[0] == '/'
  }

  /** normalize_path_separators: backslashes become slashes, on every platform. */
  function Slashed(s: string): (r: string)
    ensures |r| == |s| && '\\' !in r
    ensures r == s <==> '\\' !in s
  {
    var r := seq(|s|, i requires 0 <= i < |s| => if s[i] == '\\' then '/' else s[i]);
    assert '\\' !in s ==> r == s;
    r
  }

  /** Both strings behind the slashes they share at the front. */
  function PastSlashes(b: string, p: string): (string, string)
    decreases |b|
  {
    if IsAbsolute(b) && IsAbsolute(p) then PastSlashes(b[1..], p[1..]) else (b, p)
  }

  /** Both strings behind the components they share at the front. */
  function PastCommon(b: string, p: string): (string, string)
    decreases |b|
  {
    if b == "" || p == "" || CompLen(b) != CompLen(p) || b[..CompLen(b)] != p[..CompLen(p)] then (b, p)
    else PastCommon(Behind(b), Behind(p))
  }

  function Ups(n: nat): string {
    if n == 0 then "" else if n == 1 then ".." else Ups(n - 1) + "/.."
  }

  function Up(out: string): string {
    out + (if out != "" then "/" else "") + ".."
  }

  function Ending(ups: string, rest: string): string {
    if rest != "" then ups + (if ups != "" then "/" else "") + rest
    else if ups == "" then "." else ups
  }

  /** What relative_path_from_dir writes when there is room for it. */
  function Relative(base: string, path: string): string {
    if !IsAbsolute(base) || !IsAbsolute(path) then Slashed(path)
    else
      var (b0, p0) := PastSlashes(base, path);
      var (b, p) := PastCommon(b0, p0);
      Ending(Ups(|Parts(b)|), p)
  }

  lemma {:induction false} UpsStep(n: nat)
    ensures Ups(n + 1) == Up(Ups(n)) && |Ups(n)| == (if n == 0 then 0 else 3 * n - 1)
  {
    if n > 0 {
      UpsStep(n - 1);
    }
  }

  /** relative_path_from_dir: the way if it fits, otherwise failure. */
  method RelativeFromDir(base: string, path: string, size: nat) returns (ok: bool, out: string)
    ensures ok <==> |Relative(base, path)| < size
    ensures ok ==> out == Relative(base, path)
  {
    hide CompLen, Parts, Ups, Behind;
    if !IsAbsolute(base) || !IsAbsolute(path) {
      out := Slashed(path);
      ok := |out| < size;
      return;
    }
    var b, p := base, path;
    while IsAbsolute(b) && IsAbsolute(p)
      invariant PastSlashes(b, p) == PastSlashes(base, path)
      decreases |b|
    {
      b, p := b[1..], p[1..];
    }
    ghost var b0, p0 := b, p;
    while b != "" && p != ""
      invariant PastCommon(b, p) == PastCommon(b0, p0)
      decreases |b|
    {
      var baseLen, pathLen := CompLen(b), CompLen(p);
      if baseLen != pathLen || b[..baseLen] != p[..pathLen] {
        break;
      }
      b, p := Behind(b), Behind(p);
    }
    assert PastCommon(b0, p0) == (b, p);
    assert Relative(base, path) == Ending(Ups(|Parts(b)|), p);
    ok, out := UpsFor(b, size, p);
    if !ok {
      return;
    }
    out := Ending(out, p);
    ok := |out| < size;
  }

  /** One ".." for every component left of the base. */
  method UpsFor(b: string, size: nat, ghost p: string) returns (ok: bool, out: string)
    ensures ok ==> out == Ups(|Parts(b)|)
    ensures !ok ==> |Ending(Ups(|Parts(b)|), p)| >= size
  {
    hide CompLen, Behind, Parts, Ups, Ending;
    var rest := b;
    ghost var n := 0;
    out := "";
    UpsNone(b);
    while rest != ""
      invariant n + |Parts(rest)| == |Parts(b)| && out == Ups(n)
      decreases |rest|
    {
      PartsStep(rest);
      var len := CompLen(rest);
      if len > 0 {
        UpsStep(n);
        if |Up(out)| >= size {
          UpsGrow(n + 1, |Parts(b)|, p);
          return false, out;
        }
        out := Up(out);
        n := n + 1;
      }
      rest := Behind(rest);
    }
    UpsNone(rest);
    ok := true;
  }

  lemma UpsNone(s: string)
    ensures Ups(0) == "" && (s == "" ==> Parts(s) == [])
  {
  }

  lemma PartsStep(s: string)
    requires s != ""
    ensures |Parts(s)| == (if CompLen(s) > 0 then 1 else 0) + |Parts(Behind(s))|
  {
  }

  lemma {:induction false} UpsGrow(n: nat, m: nat, p: string)
    requires n <= m
    ensures |Ups(n)| <= |Ups(m)| <= |Ending(Ups(m), p)|
    decreases m - n
  {
    UpsStep(n);
    UpsStep(m);
  }

  // ---- the relative form of normalised paths ----

  lemma {:induction false} PastCommonOf(bs: seq<string>, ps: seq<string>)
    requires AllNamed(bs) && AllNamed(ps)
    ensures PastCommon(Join(bs), Join(ps)) == (Join(bs[Common(bs, ps)..]), Join(ps[Common(bs, ps)..]))
    decreases |bs|
  {
    hide CompLen, Behind, Join;
    JoinNone();
    if bs != [] {
      JoinStep(bs);
    }
    if ps != [] {
      JoinStep(ps);
    }
    if bs != [] && ps != [] && bs[0] == ps[0] {
      PastCommonOf(bs[1..], ps[1..]);
      var k := Common(bs[1..], ps[1..]);
      assert bs[k + 1..] == bs[1..][k..] && ps[k + 1..] == ps[1..][k..];
    } else {
      assert bs[0..] == bs && ps[0..] == ps;
    }
  }

  lemma PastSlashesOf(bs: seq<string>, ps: seq<string>)
    requires AllNamed(bs) && AllNamed(ps)
    ensures PastSlashes(Absolute(bs), Absolute(ps)) == (Join(bs), Join(ps))
  {
    hide Join;
    assert Absolute(bs)[1..] == Join(bs) && Absolute(ps)[1..] == Join(ps);
    if bs != [] {
      NoSlashFirst(bs);
    } else {
      JoinNone();
    }
  }

  lemma NoSlashFirst(cs: seq<string>)
    requires AllNamed(cs) && cs != []
    ensures !IsAbsolute(Join(cs))
  {
  }

  lemma {:induction false} PartsOfUps(n: nat)
    ensures Parts(Ups(n)) == Repeat(n)
  {
    hide Parts;
    if n == 0 {
      PartsAtom("");
    } else {
      PartsAtom("..");
      PartsOfUps(n - 1);
      if n > 1 {
        PartsOfBoth(Ups(n - 1), "..");
        RepeatSnoc(n - 1);
        assert Ups(n) == Ups(n - 1) + "/" + "..";
      }
    }
  }

  lemma {:induction false} RepeatSnoc(n: nat)
    ensures Repeat(n + 1) == Repeat(n) + [".."]
  {
    if n > 0 {
      RepeatSnoc(n - 1);
    }
  }

  lemma NamedOfPlain(cs: seq<string>, k: nat)
    requires AllPlain(cs) && k <= |cs|
    ensures AllNamed(cs) && AllNamed(cs[k..]) && AllPlain(cs[k..])
  {
  }

  /** The relative form is the way from the one directory to the other, in slashes. */
  lemma RelativeOf(bs: seq<string>, ps: seq<string>)
    requires AllPlain(bs) && AllPlain(ps)
    ensures var k := Common(bs, ps);
            Relative(Absolute(bs), Absolute(ps)) == Ending(Ups(|bs| - k), Join(ps[k..]))
  {
    hide PastCommon, PastSlashes, Parts, Join, Ups, Common, Ending, Plain;
    var k := Common(bs, ps);
    NamedOfPlain(bs, k);
    NamedOfPlain(ps, k);
    PastSlashesOf(bs, ps);
    PastCommonOf(bs, ps);
    PartsOfJoin(bs[k..]);
  }

  lemma PartsOfRelative(bs: seq<string>, ps: seq<string>)
    requires AllPlain(bs) && AllPlain(ps)
    ensures Parts(Relative(Absolute(bs), Absolute(ps))) == Way(bs, ps)
  {
    hide Relative, Parts, Join, Ups, Common, Plain, Repeat;
    RelativeOf(bs, ps);
    var k := Common(bs, ps);
    NamedOfPlain(ps, k);
    var n, rest := |bs| - k, ps[k..];
    PartsOfUps(n);
    PartsOfJoin(rest);
    UpsEmpty(n);
    JoinEmpty(rest);
    PartsAtom(".");
    RepeatEmpty(n);
    if rest != [] && n > 0 {
      PartsOfBoth(Ups(n), Join(rest));
      assert Ending(Ups(n), Join(rest)) == Ups(n) + "/" + Join(rest);
    } else if rest != [] {
      assert Ending(Ups(n), Join(rest)) == Join(rest);
    }
  }

  lemma UpsEmpty(n: nat)
    ensures Ups(n) == "" <==> n == 0
  {
  }

  lemma JoinEmpty(cs: seq<string>)
    requires AllNamed(cs)
    ensures Join(cs) == "" <==> cs == []
  {
  }

  lemma RepeatEmpty(n: nat)
    ensures Repeat(n) == [] <==> n == 0
  {
  }

  // ---- storing and resolving ----

  /** join_path_buffer. */
  function JoinPath(dir: string, path: string): string {
    if dir == "" || dir == "." then path
    else if dir == "/" then "/" + path
    else dir + "/" + path
  }

  /** Every place on the way from here exists. */
  predicate Visits(known: set<string>, at: seq<string>, cs: seq<string>)
    decreases |cs|
  {
    Absolute(at) in known && (cs == [] || Visits(known, Moved(at, cs[0]), cs[1..]))
  }

  /** realpath without symbolic links: the normal form of a path all of whose places exist. */
  function RealPath(known: set<string>, s: string): Option<string> {
    if Visits(known, [], Parts(s)) then Some(Normal(s)) else None
  }

  /** Existing paths form a tree: the root is there, and with every path its parent. */
  ghost predicate FileTree(known: set<string>) {
    && Absolute([]) in known
    && forall cs :: AllPlain(cs) && cs != [] && Absolute(cs) in known ==> Absolute(cs[..|cs| - 1]) in known
  }

  /** copy_resolved_or_original. */
  function Resolved(known: set<string>, s: string): string {
    var r := RealPath(known, s);
    Slashed(if r.Some? then r.value else s)
  }

  function Fitting(s: string, size: nat): Option<string> {
    if |s| < size then Some(s) else None
  }

  /** path_absolute_from_ini. */
  function FromIni(known: set<string>, dir: string, path: string, size: nat): Option<string> {
    if path == "" then Fitting("", size)
    else if IsAbsolute(path) then Fitting(Resolved(known, path), size)
    else if |JoinPath(dir, path)| >= size then None
    else Fitting(Resolved(known, JoinPath(dir, path)), size)
  }

  /** app_options_path_relative_to_ini. */
  method ToIni(known: set<string>, dir: string, path: string, size: nat) returns (r: Option<string>)
    ensures r == StoredRelative(known, dir, path, size)
  {
    hide Relative;
    if path == "" || !IsAbsolute(path) {
      return Fitting(Slashed(path), size);
    }
    var found := RealPath(known, path);
    var ok, out := RelativeFromDir(dir, if found.Some? then found.value else path, size);
    r := if ok then Some(out) else None;
  }

  function StoredRelative(known: set<string>, dir: string, path: string, size: nat): Option<string> {
    if path == "" || !IsAbsolute(path) then Fitting(Slashed(path), size)
    else Fitting(Relative(dir, if RealPath(known, path).Some? then RealPath(known, path).value else path), size)
  }

  predicate Clean(s: string) {
    '\\' !in s
  }

  lemma NormalOfAbsolute(cs: seq<string>)
    requires AllPlain(cs)
    ensures Normal(Absolute(cs)) == Absolute(cs)
  {
    hide Walked, Parts, Absolute;
    NamedOfPlain(cs, 0);
    PartsOfAbsolute(cs);
    WalkedDown([], cs);
    assert [] + cs == cs;
  }

  lemma PartsOfJoined(bs: seq<string>, rel: string)
    requires AllPlain(bs)
    ensures Parts(JoinPath(Absolute(bs), rel)) == bs + Parts(rel)
  {
    hide Parts, Join;
    NamedOfPlain(bs, 0);
    if bs == [] {
      JoinNone();
      PartsOfBoth("", rel);
      PartsAtom("");
      assert "" + "/" + rel == "/" + rel;
    } else {
      JoinEmpty(bs);
      PartsOfBoth(Absolute(bs), rel);
      PartsOfAbsolute(bs);
    }
  }

  /** Whatever exists or not: the joined path means the path that was stored. */
  lemma JoinedMeans(bs: seq<string>, ps: seq<string>)
    requires AllPlain(bs) && AllPlain(ps)
    ensures Normal(JoinPath(Absolute(bs), Relative(Absolute(bs), Absolute(ps)))) == Absolute(ps)
  {
    hide Walked, Parts, Relative, Absolute, Way, Join, JoinPath;
    PartsOfJoined(bs, Relative(Absolute(bs), Absolute(ps)));
    PartsOfRelative(bs, ps);
    WalkedBoth([], bs, Way(bs, ps));
    WalkedDown([], bs);
    assert [] + bs == bs;
    WayLeadsThere(bs, ps);
  }

  /** The joined path is spelled like the stored one exactly when the base is above it. */
  lemma JoinedSpelling(bs: seq<string>, ps: seq<string>)
    requires AllPlain(bs) && AllPlain(ps)
    ensures JoinPath(Absolute(bs), Relative(Absolute(bs), Absolute(ps))) == Absolute(ps) <==> bs < ps
  {
    hide Parts, Relative, Absolute, JoinPath, Way, AllPlain;
    if bs < ps {
      SpelledBelow(bs, ps);
    } else {
      NamedOfPlain(ps, 0);
      PartsOfJoined(bs, Relative(Absolute(bs), Absolute(ps)));
      PartsOfRelative(bs, ps);
      PartsOfAbsolute(ps);
      WayTurns(bs, ps);
    }
  }

  lemma SpelledBelow(bs: seq<string>, ps: seq<string>)
    requires AllPlain(bs) && AllPlain(ps) && bs < ps
    ensures JoinPath(Absolute(bs), Relative(Absolute(bs), Absolute(ps))) == Absolute(ps)
  {
    hide Relative, Join, Common, Plain, Ups;
    var rest := ps[|bs|..];
    NamedOfPlain(bs, 0);
    NamedOfPlain(ps, |bs|);
    PrefixCommon(bs, ps);
    RelativeOf(bs, ps);
    JoinEmpty(rest);
    UpsEmpty(0);
    JoinBoth(bs, rest);
    assert bs + rest == ps;
    JoinEmpty(bs);
  }

  lemma PrefixCommon(bs: seq<string>, ps: seq<string>)
    requires bs < ps
    ensures Common(bs, ps) == |bs|
  {
    hide Common;
    var k := Common(bs, ps);
  }

  /** A base that is not above the path makes the way start with a direction. */
  lemma WayTurns(bs: seq<string>, ps: seq<string>)
    requires AllPlain(ps) && !(bs < ps)
    ensures bs + Way(bs, ps) != ps
  {
    hide Common, Repeat;
    var k, way := Common(bs, ps), Way(bs, ps);
    if |bs| == k {
      assert bs == bs[..k] == ps[..k];
      assert (bs + way)[|bs|] == ".";
    } else {
      RepeatFirst(|bs| - k);
      assert (bs + way)[|bs|] == "..";
    }
  }

  lemma RepeatFirst(n: nat)
    requires n > 0
    ensures Repeat(n)[0] == ".."
  {
  }

  lemma {:induction false} JoinBoth(a: seq<string>, b: seq<string>)
    requires AllNamed(a) && b != []
    ensures Join(a + b) == if a == [] then Join(b) else Join(a) + "/" + Join(b)
  {
    if a == [] {
      assert a + b == b;
    } else {
      assert (a + b)[1..] == a[1..] + b;
      JoinBoth(a[1..], b);
    }
  }

  lemma JoinedClean(bs: seq<string>, ps: seq<string>)
    requires AllPlain(bs) && AllPlain(ps) && Clean(Absolute(bs)) && Clean(Absolute(ps))
    ensures Clean(Relative(Absolute(bs), Absolute(ps)))
    ensures Clean(JoinPath(Absolute(bs), Relative(Absolute(bs), Absolute(ps))))
  {
    hide Relative, Join, Common, Ups;
    RelativeOf(bs, ps);
    var k := Common(bs, ps);
    NamedOfPlain(ps, k);
    NamedOfPlain(ps, 0);
    UpsClean(|bs| - k);
    assert Clean(Join(ps)) by {
      assert Absolute(ps)[1..] == Join(ps);
    }
    if k < |ps| {
      JoinBoth(ps[..k], ps[k..]);
      assert ps[..k] + ps[k..] == ps;
    } else {
      assert ps[k..] == [];
      JoinNone();
    }
  }

  lemma {:induction false} UpsClean(n: nat)
    ensures Clean(Ups(n))
  {
    if n > 0 {
      UpsClean(n - 1);
    }
  }

  lemma RelativeIsRelative(bs: seq<string>, ps: seq<string>)
    requires AllPlain(bs) && AllPlain(ps)
    ensures var rel := Relative(Absolute(bs), Absolute(ps)); rel != "" && !IsAbsolute(rel)
  {
    hide Relative, Join, Common, Ups;
    RelativeOf(bs, ps);
    var k := Common(bs, ps);
    NamedOfPlain(ps, k);
    UpsEmpty(|bs| - k);
    UpsStart(|bs| - k);
    if k < |ps| {
      NoSlashFirst(ps[k..]);
    }
    JoinEmpty(ps[k..]);
  }

  lemma {:induction false} UpsStart(n: nat)
    ensures n > 0 ==> Ups(n) != "" && Ups(n)[0] == '.'
  {
    if n > 1 {
      UpsStart(n - 1);
    }
  }

  // ---- which places exist ----

  lemma {:induction false} VisitsBoth(known: set<string>, at: seq<string>, a: seq<string>, b: seq<string>)
    ensures Visits(known, at, a + b) <==> Visits(known, at, a) && Visits(known, Walked(at, a), b)
    decreases |a|
  {
    hide Moved, Absolute;
    if a == [] {
      assert a + b == b;
    } else {
      assert (a + b)[1..] == a[1..] + b;
      VisitsBoth(known, Moved(at, a[0]), a[1..], b);
    }
  }

  lemma {:induction false} VisitsDown(known: set<string>, at: seq<string>, cs: seq<string>)
    requires FileTree(known) && AllPlain(at) && AllPlain(cs)
    ensures Visits(known, at, cs) <==> Absolute(at + cs) in known
    decreases |cs|
  {
    hide Absolute, Plain;
    if cs == [] {
      assert at + cs == at;
    } else {
      PlainName(cs[0]);
      VisitsDown(known, at + [cs[0]], cs[1..]);
      assert at + [cs[0]] + cs[1..] == at + cs;
      if Absolute(at + cs) in known {
        ParentsExist(known, at + cs, |at|);
        assert (at + cs)[..|at|] == at;
      }
    }
  }

  lemma PlainName(c: string)
    requires Plain(c)
    ensures c != "." && c != ".."
  {
  }

  lemma {:induction false} ParentsExist(known: set<string>, cs: seq<string>, n: nat)
    requires FileTree(known) && AllPlain(cs) && n <= |cs| && Absolute(cs) in known
    ensures Absolute(cs[..n]) in known
    decreases |cs|
  {
    hide Absolute, Plain;
    if n == |cs| {
      assert cs[..n] == cs;
    } else {
      ParentsExist(known, cs[..|cs| - 1], n);
      assert cs[..|cs| - 1][..n] == cs[..n];
    }
  }

  lemma {:induction false} VisitsUp(known: set<string>, at: seq<string>, n: nat)
    requires FileTree(known) && AllPlain(at) && n <= |at|
    ensures Visits(known, at, Repeat(n)) <==> Absolute(at) in known
  {
    hide Absolute, Plain;
    if n > 0 {
      VisitsUp(known, at[..|at| - 1], n - 1);
    }
  }

  /** The joined path can be resolved exactly when the base and the path exist. */
  lemma JoinedExists(known: set<string>, bs: seq<string>, ps: seq<string>)
    requires FileTree(known) && AllPlain(bs) && AllPlain(ps)
    ensures RealPath(known, JoinPath(Absolute(bs), Relative(Absolute(bs), Absolute(ps))))
            == if Absolute(bs) in known && Absolute(ps) in known then Some(Absolute(ps)) else None
  {
    hide Walked, Parts, Relative, Absolute, Join, JoinPath, Visits, Normal, Plain;
    PartsOfJoined(bs, Relative(Absolute(bs), Absolute(ps)));
    PartsOfRelative(bs, ps);
    JoinedMeans(bs, ps);
    VisitsBoth(known, [], bs, Way(bs, ps));
    VisitsDown(known, [], bs);
    WalkedDown([], bs);
    assert [] + bs == bs;
    WayVisits(known, bs, ps);
  }

  lemma WayVisits(known: set<string>, bs: seq<string>, ps: seq<string>)
    requires FileTree(known) && AllPlain(bs) && AllPlain(ps)
    ensures Visits(known, bs, Way(bs, ps)) <==> Absolute(bs) in known && Absolute(ps) in known
  {
    hide Walked, Absolute, Visits, Repeat, Common, AllPlain, FileTree;
    var k := Common(bs, ps);
    PlainSlices(bs, k);
    PlainSlices(ps, k);
    if |bs| == k && |ps| == k {
      assert bs == bs[..k] && ps == ps[..k];
      VisitsDot(known, bs);
    } else {
      VisitsBoth(known, bs, Repeat(|bs| - k), ps[k..]);
      VisitsUp(known, bs, |bs| - k);
      WalkedUp(bs, |bs| - k);
      VisitsDown(known, bs[..k], ps[k..]);
      assert ps == ps[..k] + ps[k..];
    }
  }

  lemma PlainSlices(cs: seq<string>, k: nat)
    requires AllPlain(cs) && k <= |cs|
    ensures AllPlain(cs[..k]) && AllPlain(cs[k..])
  {
    hide Plain;
  }

  lemma VisitsDot(known: set<string>, at: seq<string>)
    ensures Visits(known, at, ["."]) <==> Absolute(at) in known
  {
    assert ["."][1..] == [];
  }

  lemma PathExists(known: set<string>, ps: seq<string>)
    requires FileTree(known) && AllPlain(ps)
    ensures RealPath(known, Absolute(ps)) == if Absolute(ps) in known then Some(Absolute(ps)) else None
  {
    hide Parts, Absolute, Visits, Normal, Plain;
    NamedOfPlain(ps, 0);
    PartsOfAbsolute(ps);
    VisitsDown(known, [], ps);
    assert [] + ps == ps;
    NormalOfAbsolute(ps);
  }

  // ---- storing a path and resolving it again ----

  /** What comes back: the path itself if it and the base exist, otherwise the joined spelling. */
  function Back(known: set<string>, bs: seq<string>, ps: seq<string>): string {
    if Absolute(bs) in known && Absolute(ps) in known then Absolute(ps)
    else JoinPath(Absolute(bs), Relative(Absolute(bs), Absolute(ps)))
  }

  /**
   * Both directions succeed exactly when the strings fit. What comes back always means the stored path, and is
   * the stored path itself exactly when path and INI directory exist or the path lies below the directory.
   */
  lemma ResolvesBack(known: set<string>, bs: seq<string>, ps: seq<string>, size: nat)
    requires FileTree(known) && AllPlain(bs) && AllPlain(ps) && Clean(Absolute(bs)) && Clean(Absolute(ps))
    ensures var rel := Relative(Absolute(bs), Absolute(ps));
            && StoredRelative(known, Absolute(bs), Absolute(ps), size) == Fitting(rel, size)
            && FromIni(known, Absolute(bs), rel, size)
               == (if |JoinPath(Absolute(bs), rel)| < size then Fitting(Back(known, bs, ps), size) else None)
    ensures Normal(Back(known, bs, ps)) == Absolute(ps)
    ensures Back(known, bs, ps) == Absolute(ps) <==> (Absolute(bs) in known && Absolute(ps) in known) || bs < ps
  {
    hide Relative, Absolute, Normal, JoinPath, RealPath, FileTree;
    NormalOfAbsolute(ps);
    RelativeIsRelative(bs, ps);
    PathExists(known, ps);
    JoinedExists(known, bs, ps);
    JoinedMeans(bs, ps);
    JoinedSpelling(bs, ps);
    JoinedClean(bs, ps);
  }

  /** A file that is not there, beside the INI directory, comes back under another spelling. */
  lemma MissingFileRespelled(known: set<string>)
    requires FileTree(known) && "/a/c" !in known
    ensures StoredRelative(known, "/a/b", "/a/c", 100) == Some("../c")
    ensures FromIni(known, "/a/b", "../c", 100) == Some("/a/b/../c")
  {
    hide Relative, Absolute, AllPlain, Clean, Normal, FileTree, StoredRelative, FromIni, JoinPath;
    Spelled();
    Examples();
    ResolvesBack(known, ["a", "b"], ["a", "c"], 100);
  }

  lemma Examples()
    ensures AllPlain(["a", "b"]) && AllPlain(["a", "c"]) && Clean("/a/b") && Clean("/a/c")
    ensures JoinPath("/a/b", "../c") == "/a/b/../c"
  {
  }

  lemma Spelled()
    ensures Absolute(["a", "b"]) == "/a/b" && Absolute(["a", "c"]) == "/a/c"
    ensures Relative("/a/b", "/a/c") == "../c"
  {
    hide Relative, Common, Ups;
    Examples();
    var bs, ps: seq<string> := ["a", "b"], ["a", "c"];
    TwoNames("a", "b");
    TwoNames("a", "c");
    RelativeOf(bs, ps);
    OneShared();
    assert ps[1..] == ["c"] && Join(["c"]) == "c";
  }

  lemma TwoNames(a: string, b: string)
    ensures Absolute([a, b]) == "/" + a + "/" + b
  {
    assert [a, b][1..] == [b];
    assert Join([b]) == b;
  }

  lemma OneShared()
    ensures Common(["a", "b"], ["a", "c"]) == 1 && Ups(1) == ".."
  {
    var a, b := ["a", "b"], ["a", "c"];
    assert a[1..] == ["b"] && b[1..] == ["c"];
    assert Common(["b"], ["c"]) == 0;
  }

  /** A path with a backslash never comes back: separators are rewritten on every platform. */
  lemma BackslashLost(known: set<string>, dir: string, stored: string, size: nat, path: string)
    requires !Clean(path)
    ensures FromIni(known, dir, stored, size) != Some(path)
  {
  }

  /** An install that moves keeps its stored paths: they depend only on what lies below the common place. */
  lemma MovedInstall(here: seq<string>, there: seq<string>, bs: seq<string>, ps: seq<string>)
    requires AllPlain(here) && AllPlain(there) && AllPlain(bs) && AllPlain(ps)
    ensures AllPlain(here + bs) && AllPlain(there + bs) && AllPlain(here + ps) && AllPlain(there + ps)
    ensures Relative(Absolute(here + bs), Absolute(here + ps)) == Relative(Absolute(there + bs), Absolute(there + ps))
  {
    hide Relative, Absolute, Ups, Join, Plain, Common, Ending;
    CommonBelow(here, bs, ps);
    CommonBelow(there, bs, ps);
    RelativeOf(here + bs, here + ps);
    RelativeOf(there + bs, there + ps);
    var k := Common(bs, ps);
    SuffixBelow(here, ps, k);
    SuffixBelow(there, ps, k);
  }

  lemma SuffixBelow(at: seq<string>, ps: seq<string>, k: nat)
    requires k <= |ps|
    ensures (at + ps)[|at| + k..] == ps[k..]
  {
  }

  lemma {:induction false} CommonBelow(at: seq<string>, bs: seq<string>, ps: seq<string>)
    ensures Common(at + bs, at + ps) == |at| + Common(bs, ps)
  {
    if at == [] {
      assert at + bs == bs && at + ps == ps;
    } else {
      assert (at + bs)[1..] == at[1..] + bs && (at + ps)[1..] == at[1..] + ps;
      CommonBelow(at[1..], bs, ps);
    }
  }

  // ---- the C64 form: near paths relative, far ones absolute ----

  predicate DotDotFirst(s: string) {
    |s| >= 2 && s[0] == '.' && s[1] == '.' && (|s| == 2 || s[2] == '/')
  }

  function DotDots(s: string): nat {
    if !DotDotFirst(s) then 0 else if |s| == 2 then 1 else 1 + DotDots(s[3..])
  }

  /** count_leading_dotdot_components. */
  method CountLeadingDotDots(rel: string) returns (count: nat)
    ensures count == DotDots(rel)
  {
    var cursor := rel;
    count := 0;
    while DotDotFirst(cursor)
      invariant count + DotDots(cursor) == DotDots(rel)
      decreases |cursor|
    {
      count := count + 1;
      if |cursor| == 2 {
        break;
      }
      cursor := cursor[3..];
    }
  }

  /** path_for_ini_storage. */
  method PathForIniStorage(known: set<string>, dir: string, path: string, size: nat) returns (r: Option<string>)
    ensures r == Storage(known, dir, path, size)
  {
    hide Relative, Normal, DotDots;
    if path == "" || !IsAbsolute(path) {
      return Fitting(Slashed(path), size);
    }
    var found := RealPath(known, path);
    if found.None? && |path| >= size {
      return None;
    }
    var resolved := if found.Some? then Slashed(found.value) else Slashed(path);
    var ok, rel := RelativeFromDir(dir, resolved, size);
    if !ok {
      return Fitting(Slashed(resolved), size);
    }
    var count := CountLeadingDotDots(rel);
    r := if count <= 2 then Fitting(Slashed(rel), size) else Fitting(Slashed(resolved), size);
  }

  function Storage(known: set<string>, dir: string, path: string, size: nat): Option<string> {
    if path == "" || !IsAbsolute(path) then Fitting(Slashed(path), size)
    else
      var found := RealPath(known, path);
      if found.None? && |path| >= size then None
      else
        var resolved := Slashed(if found.Some? then found.value else path);
        var rel := Relative(dir, resolved);
        Fitting(Slashed(if |rel| < size && DotDots(rel) <= 2 then rel else resolved), size)
  }

  /** The count is the number of base components the path does not share. */
  lemma LeadingDotDots(bs: seq<string>, ps: seq<string>)
    requires AllPlain(bs) && AllPlain(ps)
    ensures DotDots(Relative(Absolute(bs), Absolute(ps))) == |bs| - Common(bs, ps)
  {
    hide Relative, Join, Common, Ups, DotDots, Ending, Plain, Named, DotDotFirst;
    var k := Common(bs, ps);
    RelativeOf(bs, ps);
    NamedOfPlain(ps, k);
    var n, rest := |bs| - k, ps[k..];
    RestHasNone(rest);
    if n > 0 {
      DotDotsOfUps(n, Join(rest));
    } else {
      NoUps(Join(rest));
    }
  }

  lemma RestHasNone(cs: seq<string>)
    requires AllPlain(cs)
    ensures DotDots(Join(cs)) == 0
  {
    hide Join, DotDots;
    if cs == [] {
      JoinNone();
      NotDotDot("");
    } else {
      PlainFirst(cs);
    }
  }

  lemma NoUps(rest: string)
    requires DotDots(rest) == 0
    ensures DotDots(Ending(Ups(0), rest)) == 0
  {
  }

  lemma NotDotDot(s: string)
    requires !DotDotFirst(s)
    ensures DotDots(s) == 0
  {
  }

  lemma PlainFirst(cs: seq<string>)
    requires cs != [] && AllPlain(cs)
    ensures DotDots(Join(cs)) == 0
  {
    hide Join, DotDots;
    var s := Join(cs);
    NamedOfPlain(cs, 0);
    JoinStep(cs);
    if DotDotFirst(s) {
      DotDotPart(s);
      assert false;
    }
    NotDotDot(s);
  }

  lemma DotDotPart(s: string)
    requires DotDotFirst(s)
    ensures CompLen(s) == 2 && s[..2] == ".."
  {
    assert CompLen(s[1..]) == 1 + CompLen(s[2..]);
  }

  lemma {:induction false} DotDotsOfUps(n: nat, rest: string)
    requires DotDots(rest) == 0 && n > 0
    ensures DotDots(Ending(Ups(n), rest)) == n
  {
    hide Ups, Ending, DotDots, DotDotFirst;
    if n == 1 {
      OneUp(rest);
    } else {
      DotDotsOfUps(n - 1, rest);
      EndingFront(n - 1, rest);
      OneMore(Ending(Ups(n - 1), rest));
    }
  }

  lemma OneUp(rest: string)
    requires DotDots(rest) == 0
    ensures DotDots(Ending(Ups(1), rest)) == 1
  {
    if rest != "" {
      assert Ending(Ups(1), rest) == "../" + rest;
      OneMore(rest);
    }
  }

  lemma OneMore(s: string)
    ensures DotDots("../" + s) == 1 + DotDots(s)
  {
    assert ("../" + s)[3..] == s;
  }

  lemma EndingFront(n: nat, rest: string)
    requires n > 0
    ensures Ending(Ups(n + 1), rest) == "../" + Ending(Ups(n), rest)
  {
    hide Ups;
    UpsEmpty(n);
    UpsEmpty(n + 1);
    UpsFront(n);
  }

  lemma {:induction false} UpsFront(n: nat)
    requires n > 0
    ensures Ups(n + 1) == "../" + Ups(n)
  {
    if n > 1 {
      UpsFront(n - 1);
    }
  }

  /** What path_for_ini_storage writes for a normalised path. */
  function Stored(bs: seq<string>, ps: seq<string>, size: nat): string {
    if Near(bs, ps, size) then Relative(Absolute(bs), Absolute(ps)) else Absolute(ps)
  }

  predicate Near(bs: seq<string>, ps: seq<string>, size: nat) {
    |Relative(Absolute(bs), Absolute(ps))| < size && |bs| - Common(bs, ps) <= 2
  }

  function StorageBack(known: set<string>, bs: seq<string>, ps: seq<string>, size: nat): string {
    if Near(bs, ps, size) then Back(known, bs, ps) else Absolute(ps)
  }

  /** Both branches come back: near paths as above, far ones because they stay absolute. */
  lemma StorageResolvesBack(known: set<string>, bs: seq<string>, ps: seq<string>, size: nat)
    requires FileTree(known) && AllPlain(bs) && AllPlain(ps) && Clean(Absolute(bs)) && Clean(Absolute(ps))
    ensures Storage(known, Absolute(bs), Absolute(ps), size)
            == (if Absolute(ps) in known || |Absolute(ps)| < size then Fitting(Stored(bs, ps, size), size) else None)
    ensures var joined := if Near(bs, ps, size) then JoinPath(Absolute(bs), Stored(bs, ps, size)) else "";
            FromIni(known, Absolute(bs), Stored(bs, ps, size), size)
            == if |joined| < size then Fitting(StorageBack(known, bs, ps, size), size) else None
    ensures Normal(StorageBack(known, bs, ps, size)) == Absolute(ps)
    ensures StorageBack(known, bs, ps, size) == Absolute(ps)
            <==> !Near(bs, ps, size) || (Absolute(bs) in known && Absolute(ps) in known) || bs < ps
  {
    hide Relative, Absolute, Normal, JoinPath, RealPath, FileTree, DotDots, Common, Back;
    NormalOfAbsolute(ps);
    PathExists(known, ps);
    JoinedClean(bs, ps);
    LeadingDotDots(bs, ps);
    ResolvesBack(known, bs, ps, size);
    AbsoluteFirst(ps);
  }

  lemma AbsoluteFirst(ps: seq<string>)
    ensures IsAbsolute(Absolute(ps))
  {
  }
}

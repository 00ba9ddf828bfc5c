/** The backtracking matcher of tiny-regex-c against the counts a match assigns to its atoms. */
module Regex {
  import opened Basics

  datatype Obj =
    | Unused | Dot | Begin | End | Question | Star | Plus
    | Char(ch: char) | Class(ccl: string) | InvClass(ccl: string)
    | Digit | NotDigit | Alpha | NotAlpha | Space | NotSpace

  // ---- single characters ----

  predicate IsDigit(c: char) { '0' <= c <= '9' }

  predicate IsWord(c: char) { IsDigit(c) || 'a' <= c <= 'z' || 'A' <= c <= 'Z' || c == '_' }

  /** One entry of a bracket expression. */
  datatype Item = Escape(ch: char) | Range(lo: char, hi: char) | Single(ch: char)

  predicate InItem(c: char, item: Item) {
    match item
    case Escape('d') => IsDigit(c)
    case Escape('D') => !IsDigit(c)
    case Escape('w') => IsWord(c)
    case Escape('W') => !IsWord(c)
    case Escape('s') => IsSpace(c)
    case Escape('S') => !IsSpace(c)
    case Escape(ch) => c == ch
    case Range(lo, hi) => lo <= c <= hi
    case Single(ch) => c == ch
  }

  /** The text of a bracket expression, entry by entry. */
  function Items(str: string): (items: seq<Item>)
    decreases |str|
  {
    if str == "" then []
    else if str[0] == '\\' && |str| > 1 then [Escape(str[1])] + Items(str[2..])
    else if |str| > 2 && str[1] == '-' then [Range(str[0], str[2])] + Items(str[3..])
    else [Single(str[0])] + Items(str[1..])
  }

  ghost predicate InClass(c: char, str: string) {
    exists k :: 0 <= k < |Items(str)| && InItem(c, Items(str)[k])
  }

  /** re_matchcharclass */
  method MatchCharClass(c: char, str: string) returns (r: bool)
    ensures r == InClass(c, str)
  {
    var n := 0;
    while n < |str|
      invariant 0 <= n <= |str|
      invariant InClass(c, str) == InClass(c, str[n..])
    {
      ItemStep(c, str[n..]);
      if str[n] == '\\' && n + 1 < |str| {
        if InItem(c, Escape(str[n + 1])) { return true; }
        n := n + 2;
      } else if n + 2 < |str| && str[n + 1] == '-' {
        if str[n] <= c <= str[n + 2] { return true; }
        n := n + 3;
      } else {
        if c == str[n] { return true; }
        n := n + 1;
      }
    }
    return false;
  }

  lemma ItemStep(c: char, str: string)
    requires str != ""
    ensures var item := Items(str)[0];
            var rest := if item.Escape? then str[2..] else if item.Range? then str[3..] else str[1..];
            InClass(c, str) <==> InItem(c, item) || InClass(c, rest)
  {
    var items := Items(str);
    var rest := if items[0].Escape? then str[2..] else if items[0].Range? then str[3..] else str[1..];
    assert items == [items[0]] + Items(rest);
    if InClass(c, rest) {
      var k :| 0 <= k < |Items(rest)| && InItem(c, Items(rest)[k]);
      assert items[k + 1] == Items(rest)[k];
    }
    if InClass(c, str) && !InItem(c, items[0]) {
      var k :| 0 <= k < |items| && InItem(c, items[k]);
      assert items[k] == Items(rest)[k - 1];
    }
  }

  /** The characters an object stands for; modifiers and anchors stand for none. */
  ghost predicate Accepts(o: Obj, c: char) {
    match o
    case Dot => c != '\0'
    case Char(ch) => c == ch
    case Class(ccl) => InClass(c, ccl)
    case InvClass(ccl) => !InClass(c, ccl)
    case Digit => IsDigit(c)
    case NotDigit => !IsDigit(c)
    case Alpha => IsWord(c)
    case NotAlpha => !IsWord(c)
    case Space => IsSpace(c)
    case NotSpace => !IsSpace(c)
    case _ => false
  }

  /** re_matchone */
  method MatchOne(o: Obj, c: char) returns (r: bool)
    ensures r == Accepts(o, c)
  {
    match o
    case Dot => r := c != '\0';
    case Char(ch) => r := c == ch;
    case Class(ccl) => r := MatchCharClass(c, ccl);
    case InvClass(ccl) => r := MatchCharClass(c, ccl); r := !r;
    case Digit => r := IsDigit(c);
    case NotDigit => r := !IsDigit(c);
    case Alpha => r := IsWord(c);
    case NotAlpha => r := !IsWord(c);
    case Space => r := IsSpace(c);
    case NotSpace => r := !IsSpace(c);
    case _ => r := false;
  }

  // ---- what a match is ----

  /** The object at k; a compiled pattern is followed by unused objects. */
  function At(p: seq<Obj>, k: nat): Obj {
    if k < |p| then p[k] else Unused
  }

  /** Repetition counts the modifier at k + 1 allows for the atom at k. */
  predicate Allowed(p: seq<Obj>, k: nat, n: nat) {
    match At(p, k + 1)
    case Star => true
    case Plus => n >= 1
    case Question => n <= 1
    case _ => n == 1
  }

  predicate Modified(p: seq<Obj>, k: nat) {
    At(p, k + 1).Star? || At(p, k + 1).Plus? || At(p, k + 1).Question?
  }

  /** The next atom after the one at k and its modifier. */
  function Next(p: seq<Obj>, k: nat): (k': nat)
    ensures k < k'
  {
    if Modified(p, k) then k + 2 else k + 1
  }

  /** The n characters from i are all accepted by o. */
  ghost predicate RunOf(o: Obj, text: string, i: nat, n: nat) {
    i + n <= |text| && forall m :: i <= m < i + n ==> Accepts(o, text[m])
  }

  /**
   * The pattern from object k matches text[i..j], the atoms repeated as `counts`
   * says. An end anchor ends the pattern; a begin anchor inside it is ignored.
   */
  ghost predicate Match(p: seq<Obj>, k: nat, text: string, i: nat, counts: seq<nat>, j: nat)
    decreases |p| - k
  {
    if k >= |p| || p[k].Unused? then counts == [] && i == j
    else if p[k].End? then counts == [] && i == j && i == |text|
    else if p[k].Begin? then Match(p, k + 1, text, i, counts, j)
    else
      && counts != []
      && Allowed(p, k, counts[0])
      && RunOf(p[k], text, i, counts[0])
      && Match(p, Next(p, k), text, i + counts[0], counts[1..], j)
  }

  /** Greedy priority: the first difference is in favour of a. */
  predicate Prefers(a: seq<nat>, b: seq<nat>)
    decreases |a|
  {
    || a == b
    || (a != [] && b != [] && (a[0] > b[0] || (a[0] == b[0] && Prefers(a[1..], b[1..]))))
  }

  /** `counts` and j are the best match from (k, i) that there is. */
  ghost predicate Best(p: seq<Obj>, k: nat, text: string, i: nat, counts: seq<nat>, j: nat) {
    && Match(p, k, text, i, counts, j)
    && forall other, j' :: Match(p, k, text, i, other, j') ==> Prefers(counts, other)
  }

  ghost predicate NoMatch(p: seq<Obj>, k: nat, text: string, i: nat) {
    forall counts, j :: !Match(p, k, text, i, counts, j)
  }

  // ---- the matcher ----

  /** The outcome of a (sub)match: on success *ml has grown by the length matched. */
  ghost predicate Outcome(p: seq<Obj>, k: nat, text: string, i: nat, ok: bool, ml0: int, ml: int, counts: seq<nat>) {
    if ok then i + (ml - ml0) >= 0 && Best(p, k, text, i, counts, i + (ml - ml0))
    else NoMatch(p, k, text, i)
  }

  /** The longest run of characters the atom accepts. */
  method LongestRun(o: Obj, text: string, i: nat) returns (count: nat)
    requires i <= |text|
    ensures RunOf(o, text, i, count) && !RunOf(o, text, i, count + 1)
  {
    count := 0;
    var more := i < |text|;
    if more {
      more := MatchOne(o, text[i]);
    }
    while more
      invariant RunOf(o, text, i, count)
      invariant more ==> i + count < |text| && Accepts(o, text[i + count])
      invariant !more ==> !RunOf(o, text, i, count + 1)
      decreases |text| - i - count, more
    {
      count := count + 1;
      more := i + count < |text|;
      if more {
        more := MatchOne(o, text[i + count]);
      }
    }
  }

  lemma RunShorter(o: Obj, text: string, i: nat, longest: nat, n: nat)
    requires RunOf(o, text, i, longest) && !RunOf(o, text, i, longest + 1)
    ensures RunOf(o, text, i, n) <==> n <= longest
  {
  }

  /** The atom at k tried with count repetitions, all larger counts having failed. */
  lemma TakeCount(p: seq<Obj>, k: nat, text: string, i: nat, longest: nat, count: nat, rest: seq<nat>, j: nat)
    requires Repeatable(p, k)
    requires RunOf(p[k], text, i, longest) && !RunOf(p[k], text, i, longest + 1)
    requires count <= longest && Allowed(p, k, count)
    requires forall n :: count < n <= longest && Allowed(p, k, n) ==> NoMatch(p, Next(p, k), text, i + n)
    requires Best(p, Next(p, k), text, i + count, rest, j)
    ensures Best(p, k, text, i, [count] + rest, j)
  {
    var counts := [count] + rest;
    assert counts[1..] == rest;
    RunShorter(p[k], text, i, longest, count);
    forall other, j' | Match(p, k, text, i, other, j') ensures Prefers(counts, other) {
      RunShorter(p[k], text, i, longest, other[0]);
      assert Match(p, Next(p, k), text, i + other[0], other[1..], j');
      if other[0] == count {
        assert Prefers(rest, other[1..]);
      }
    }
  }

  predicate Repeatable(p: seq<Obj>, k: nat) {
    k < |p| && !p[k].Unused? && !p[k].End? && !p[k].Begin?
  }

  lemma AllCountsFail(p: seq<Obj>, k: nat, text: string, i: nat, longest: nat)
    requires Repeatable(p, k)
    requires RunOf(p[k], text, i, longest) && !RunOf(p[k], text, i, longest + 1)
    requires forall n :: 0 <= n <= longest && Allowed(p, k, n) ==> NoMatch(p, Next(p, k), text, i + n)
    ensures NoMatch(p, k, text, i)
  {
    forall counts, j ensures !Match(p, k, text, i, counts, j) {
      if Match(p, k, text, i, counts, j) {
        RunShorter(p[k], text, i, longest, counts[0]);
      }
    }
  }

  /** re_matchstar (least == 0) and re_matchplus (least == 1), which differ only in the last count tried. */
  method MatchRepeat(p: seq<Obj>, k: nat, least: nat, text: string, i: nat, ml0: int)
    returns (ok: bool, ml: int, ghost counts: seq<nat>)
    requires Repeatable(p, k) && i <= |text|
    requires (At(p, k + 1).Star? && least == 0) || (At(p, k + 1).Plus? && least == 1)
    ensures Outcome(p, k, text, i, ok, ml0, ml, counts)
    ensures ok <==> !NoMatch(p, k, text, i)
    decreases |p| - k, 0
  {
    var count: int := LongestRun(p[k], text, i);
    ghost var longest := count;
    while count >= least
      invariant least - 1 <= count <= longest
      invariant forall n :: count < n <= longest && Allowed(p, k, n) ==> NoMatch(p, Next(p, k), text, i + n)
    {
      ml := ml0 + count;
      ghost var rest;
      ok, ml, rest := MatchPattern(p, k + 2, text, i + count, ml);
      if ok {
        counts := [count] + rest;
        TakeCount(p, k, text, i, longest, count, rest, i + (ml - ml0));
        return;
      }
      count := count - 1;
    }
    AllCountsFail(p, k, text, i, longest);
    return false, ml0, [];
  }

  /** re_matchquestion */
  method MatchQuestion(p: seq<Obj>, k: nat, text: string, i: nat, ml0: int)
    returns (ok: bool, ml: int, ghost counts: seq<nat>)
    requires Repeatable(p, k) && i <= |text| && At(p, k + 1).Question?
    ensures Outcome(p, k, text, i, ok, ml0, ml, counts)
    ensures ok <==> !NoMatch(p, k, text, i)
    decreases |p| - k, 0
  {
    ml := ml0;
    ghost var rest;
    var taken := i < |text|;
    if taken {
      taken := MatchOne(p[k], text[i]);
    }
    if taken {
      ml := ml + 1;
      ok, ml, rest := MatchPattern(p, k + 2, text, i + 1, ml);
      if ok {
        counts := [1] + rest;
        QuestionTaken(p, k, text, i, rest, i + (ml - ml0));
        return;
      }
      ml := ml0;
    }
    ok, ml, rest := MatchPattern(p, k + 2, text, i, ml);
    counts := [0] + rest;
    QuestionSkipped(p, k, text, i, ok, ml0, ml, rest);
  }

  lemma QuestionTaken(p: seq<Obj>, k: nat, text: string, i: nat, rest: seq<nat>, j: nat)
    requires Repeatable(p, k) && At(p, k + 1).Question?
    requires RunOf(p[k], text, i, 1) && Best(p, k + 2, text, i + 1, rest, j)
    ensures Best(p, k, text, i, [1] + rest, j)
  {
    assert ([1] + rest)[1..] == rest;
    forall other, j' | Match(p, k, text, i, other, j') ensures Prefers([1] + rest, other) {
      assert Match(p, k + 2, text, i + other[0], other[1..], j');
      if other[0] == 1 {
        assert Prefers(rest, other[1..]);
      }
    }
  }

  lemma QuestionSkipped(p: seq<Obj>, k: nat, text: string, i: nat, ok: bool, ml0: int, ml: int, rest: seq<nat>)
    requires Repeatable(p, k) && At(p, k + 1).Question? && i <= |text|
    requires RunOf(p[k], text, i, 1) ==> NoMatch(p, k + 2, text, i + 1)
    requires Outcome(p, k + 2, text, i, ok, ml0, ml, rest)
    ensures Outcome(p, k, text, i, ok, ml0, ml, [0] + rest)
  {
    assert ([0] + rest)[1..] == rest;
    forall other, j' | Match(p, k, text, i, other, j')
      ensures other[0] == 0 && Match(p, k + 2, text, i, other[1..], j')
    {
      assert Match(p, k + 2, text, i + other[0], other[1..], j');
    }
    if ok {
      forall other, j' | Match(p, k, text, i, other, j') ensures Prefers([0] + rest, other) {
        assert Prefers(rest, other[1..]);
      }
    }
  }

  /** Having consumed one plain atom per entry of `before`, the matcher is at (k, i). */
  ghost predicate Consumed(p: seq<Obj>, k0: nat, text: string, i0: nat, before: seq<nat>, k: nat, i: nat) {
    && (forall counts, j :: Match(p, k, text, i, counts, j) ==> Match(p, k0, text, i0, before + counts, j))
    && (forall counts, j :: Match(p, k0, text, i0, counts, j) ==>
          before <= counts && Match(p, k, text, i, counts[|before|..], j))
  }

  /** re_matchpattern */
  method MatchPattern(p: seq<Obj>, k0: nat, text: string, i0: nat, ml0: int)
    returns (ok: bool, ml: int, ghost counts: seq<nat>)
    requires i0 <= |text|
    ensures Outcome(p, k0, text, i0, ok, ml0, ml, counts)
    ensures ok <==> !NoMatch(p, k0, text, i0)
    decreases |p| - k0, 1
  {
    hide Consumed, Match, Accepts;
    ml := ml0;
    var k, i := k0, i0;
    ghost var before := [];
    ConsumedNothing(p, k0, text, i0);
    while true
      invariant k0 <= k && i0 <= i <= |text| && ml - ml0 == i - i0
      invariant Consumed(p, k0, text, i0, before, k, i)
      decreases |p| - k
    {
      if At(p, k).Unused? {
        PatternEnds(p, k, text, i);
        Extend(p, k0, text, i0, before, k, i, true, i, []);
        return true, ml, before + [];
      }
      if At(p, k).End? {
        PatternEnds(p, k, text, i);
        Extend(p, k0, text, i0, before, k, i, i == |text|, i, []);
        return i == |text|, ml, before + [];
      }
      if At(p, k).Begin? {
        SkipBegin(p, k0, text, i0, before, k, i);
        k := k + 1;
        continue;
      }
      if Modified(p, k) {
        ghost var rest;
        if At(p, k + 1).Star? {
          ok, ml, rest := MatchRepeat(p, k, 0, text, i, ml);
        } else if At(p, k + 1).Plus? {
          ok, ml, rest := MatchRepeat(p, k, 1, text, i, ml);
        } else {
          ok, ml, rest := MatchQuestion(p, k, text, i, ml);
        }
        counts := before + rest;
        Extend(p, k0, text, i0, before, k, i, ok, if ok then i0 + (ml - ml0) else 0, rest);
        return;
      }
      var taken := i < |text|;
      if taken {
        taken := MatchOne(p[k], text[i]);
      }
      if !taken {
        NotTaken(p, k, text, i);
        Extend(p, k0, text, i0, before, k, i, false, 0, []);
        return false, ml, [];
      }
      TakeOne(p, k0, text, i0, before, k, i);
      before := before + [1];
      ml, i, k := ml + 1, i + 1, k + 1;
    }
  }

  lemma ConsumedNothing(p: seq<Obj>, k0: nat, text: string, i0: nat)
    ensures Consumed(p, k0, text, i0, [], k0, i0)
  {
    forall counts: seq<nat>, j | Match(p, k0, text, i0, counts, j)
      ensures Match(p, k0, text, i0, [] + counts, j) && Match(p, k0, text, i0, counts[0..], j)
    {
      assert [] + counts == counts && counts[0..] == counts;
    }
  }

  /** The outcome at (k, i) is the outcome of the whole, with the consumed atoms in front. */
  lemma Extend(p: seq<Obj>, k0: nat, text: string, i0: nat, before: seq<nat>, k: nat, i: nat,
               ok: bool, j: nat, rest: seq<nat>)
    requires Consumed(p, k0, text, i0, before, k, i)
    requires if ok then Best(p, k, text, i, rest, j) else NoMatch(p, k, text, i)
    ensures if ok then Best(p, k0, text, i0, before + rest, j) else NoMatch(p, k0, text, i0)
  {
    if ok {
      forall other, j' | Match(p, k0, text, i0, other, j') ensures Prefers(before + rest, other) {
        assert Prefers(rest, other[|before|..]);
        PrefersPrefix(before, rest, other);
      }
    }
  }

  lemma {:induction false} PrefersPrefix(before: seq<nat>, rest: seq<nat>, other: seq<nat>)
    requires before <= other && Prefers(rest, other[|before|..])
    ensures Prefers(before + rest, other)
    decreases |before|
  {
    if before == [] {
      assert before + rest == rest && other[0..] == other;
    } else {
      assert other[1..][|before[1..]|..] == other[|before|..];
      PrefersPrefix(before[1..], rest, other[1..]);
      assert (before + rest)[1..] == before[1..] + rest;
    }
  }

  lemma PatternEnds(p: seq<Obj>, k: nat, text: string, i: nat)
    requires At(p, k).Unused? || At(p, k).End?
    ensures At(p, k).Unused? || i == |text| ==> Best(p, k, text, i, [], i)
    ensures At(p, k).End? && i != |text| ==> NoMatch(p, k, text, i)
  {
  }

  lemma NotTaken(p: seq<Obj>, k: nat, text: string, i: nat)
    requires Repeatable(p, k) && !Modified(p, k) && !RunOf(p[k], text, i, 1)
    ensures NoMatch(p, k, text, i)
  {
  }

  lemma SkipBegin(p: seq<Obj>, k0: nat, text: string, i0: nat, before: seq<nat>, k: nat, i: nat)
    requires Consumed(p, k0, text, i0, before, k, i) && k < |p| && p[k].Begin?
    ensures Consumed(p, k0, text, i0, before, k + 1, i)
  {
    forall counts, j | Match(p, k + 1, text, i, counts, j) ensures Match(p, k0, text, i0, before + counts, j) {
      assert Match(p, k, text, i, counts, j);
    }
    forall counts, j | Match(p, k0, text, i0, counts, j)
      ensures before <= counts && Match(p, k + 1, text, i, counts[|before|..], j)
    {
      assert Match(p, k, text, i, counts[|before|..], j);
    }
  }

  lemma TakeOne(p: seq<Obj>, k0: nat, text: string, i0: nat, before: seq<nat>, k: nat, i: nat)
    requires Consumed(p, k0, text, i0, before, k, i)
    requires Repeatable(p, k) && !Modified(p, k) && RunOf(p[k], text, i, 1)
    ensures Consumed(p, k0, text, i0, before + [1], k + 1, i + 1)
  {
    forall counts, j | Match(p, k + 1, text, i + 1, counts, j)
      ensures Match(p, k0, text, i0, before + [1] + counts, j)
    {
      assert ([1] + counts)[1..] == counts;
      assert Match(p, k, text, i, [1] + counts, j);
      assert before + ([1] + counts) == before + [1] + counts;
    }
    forall counts, j | Match(p, k0, text, i0, counts, j)
      ensures before + [1] <= counts && Match(p, k + 1, text, i + 1, counts[|before + [1]|..], j)
    {
      var rest := counts[|before|..];
      assert Match(p, k, text, i, rest, j);
      assert rest[0] == 1 && rest[1..] == counts[|before| + 1..];
    }
  }

  // ---- the search ----

  lemma {:induction false} MatchWithin(p: seq<Obj>, k: nat, text: string, i: nat, counts: seq<nat>, j: nat)
    requires Match(p, k, text, i, counts, j) && i <= |text|
    ensures i <= j <= |text|
    decreases |p| - k
  {
    if k < |p| && p[k].Begin? {
      MatchWithin(p, k + 1, text, i, counts, j);
    } else if Repeatable(p, k) {
      MatchWithin(p, Next(p, k), text, i + counts[0], counts[1..], j);
    }
  }

  lemma {:induction false} PrefersBoth(a: seq<nat>, b: seq<nat>)
    requires Prefers(a, b) && Prefers(b, a)
    ensures a == b
    decreases |a|
  {
    if a != b {
      assert a == [a[0]] + a[1..] && b == [b[0]] + b[1..];
      PrefersBoth(a[1..], b[1..]);
    }
  }

  lemma {:induction false} CountsGiveEnd(p: seq<Obj>, k: nat, text: string, i: nat, counts: seq<nat>, j: nat, j': nat)
    requires Match(p, k, text, i, counts, j) && Match(p, k, text, i, counts, j')
    ensures j == j'
    decreases |p| - k
  {
    if k < |p| && p[k].Begin? {
      CountsGiveEnd(p, k + 1, text, i, counts, j, j');
    } else if Repeatable(p, k) {
      CountsGiveEnd(p, Next(p, k), text, i + counts[0], counts[1..], j, j');
    }
  }

  /** There is only one best match, so only one length to report. */
  lemma BestIsUnique(p: seq<Obj>, k: nat, text: string, i: nat, a: seq<nat>, j: nat, b: seq<nat>, j': nat)
    requires Best(p, k, text, i, a, j) && Best(p, k, text, i, b, j')
    ensures a == b && j == j'
  {
    PrefersBoth(a, b);
    CountsGiveEnd(p, k, text, i, a, j, j');
  }

  /** The pattern matches somewhere at start i. */
  ghost predicate MatchesAt(p: seq<Obj>, text: string, i: nat) {
    !NoMatch(p, 0, text, i)
  }

  /**
   * re_matchp: the least start at which the pattern matches, or -1; a pattern
   * that begins with the anchor is tried at 0 only. The length reported is that
   * of the match greedy repetition prefers there.
   */
  method Search(p: seq<Obj>, text: string) returns (start: int, length: int, ghost counts: seq<nat>)
    ensures -1 <= start <= |text|
    ensures start >= 0 ==> 0 <= length <= |text| - start && Best(p, 0, text, start, counts, start + length)
    ensures At(p, 0).Begin? ==> start <= 0 && (start == 0 <==> MatchesAt(p, text, 0))
    ensures !At(p, 0).Begin? && start >= 0 ==> forall i :: 0 <= i < start ==> !MatchesAt(p, text, i)
    ensures !At(p, 0).Begin? && start < 0 ==> forall i :: 0 <= i <= |text| ==> !MatchesAt(p, text, i)
  {
    var ok;
    length := 0;
    if At(p, 0).Begin? {
      ok, length, counts := MatchPattern(p, 1, text, 0, length);
      AnchorSkipped(p, text, ok, length, counts);
      if ok {
        MatchWithin(p, 0, text, 0, counts, length);
      }
      return if ok then 0 else -1, length, counts;
    }
    var t := 0;
    while true
      invariant 0 <= t <= |text|
      invariant forall i :: 0 <= i < t ==> !MatchesAt(p, text, i)
      decreases |text| - t
    {
      length := 0;
      ok, length, counts := MatchPattern(p, 0, text, t, length);
      if ok {
        MatchWithin(p, 0, text, t, counts, t + length);
        return t, length, counts;
      }
      if t == |text| {
        break;
      }
      t := t + 1;
    }
    return -1, length, [];
  }

  lemma AnchorSkipped(p: seq<Obj>, text: string, ok: bool, length: int, counts: seq<nat>)
    requires At(p, 0).Begin? && Outcome(p, 1, text, 0, ok, 0, length, counts)
    ensures Outcome(p, 0, text, 0, ok, 0, length, counts)
    ensures ok <==> MatchesAt(p, text, 0)
  {
    forall other, j ensures Match(p, 0, text, 0, other, j) == Match(p, 1, text, 0, other, j) {
    }
  }
}

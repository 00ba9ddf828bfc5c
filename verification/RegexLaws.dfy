/** Which characters the objects of a pattern stand for, and what each pattern character compiles to. */
module RegexLaws {
  import opened Regex
  import opened RegexCompile

  function Digits(): string {
    "0123456789"
  }

  function Lower(): string {
    "abcdefghijklmnopqrstuvwxyz"
  }

  function Upper(): string {
    "ABCDEFGHIJKLMNOPQRSTUVWXYZ"
  }

  predicate IsWhite(c: char) {
    c == ' ' || c == '\t' || c == '\n' || c == '\r' || c == 11 as char || c == 12 as char
  }

  lemma DigitsAre(c: char)
    ensures IsDigit(c) <==> c in Digits()
  {
    if IsDigit(c) {
      assert Digits()[c as int - '0' as int] == c;
    }
  }

  lemma LowerAre(c: char)
    ensures 'a' <= c <= 'z' <==> c in Lower()
  {
    if 'a' <= c <= 'z' {
      assert Lower()[c as int - 'a' as int] == c;
    }
  }

  lemma UpperAre(c: char)
    ensures 'A' <= c <= 'Z' <==> c in Upper()
  {
    if 'A' <= c <= 'Z' {
      assert Upper()[c as int - 'A' as int] == c;
    }
  }

  /** The characters of every object that is not a class. */
  lemma AcceptsAre(c: char)
    ensures Accepts(Digit, c) <==> c in Digits()
    ensures Accepts(Alpha, c) <==> c in Digits() || c in Lower() || c in Upper() || c == '_'
    ensures Accepts(Space, c) <==> IsWhite(c)
    ensures Accepts(NotDigit, c) == !Accepts(Digit, c) && Accepts(NotAlpha, c) == !Accepts(Alpha, c)
    ensures Accepts(NotSpace, c) == !Accepts(Space, c)
    ensures Accepts(Dot, c) <==> c != '\0'
    ensures forall ch :: Accepts(Char(ch), c) <==> c == ch
    ensures forall o :: o in {Unused, Begin, End, Question, Star, Plus} ==> !Accepts(o, c)
  {
    hide IsDigit, Digits, Lower, Upper;
    DigitsAre(c);
    LowerAre(c);
    UpperAre(c);
  }

  /** The characters of every entry of a class. */
  lemma ItemsAre(c: char)
    ensures InItem(c, Escape('d')) == Accepts(Digit, c) && InItem(c, Escape('D')) == Accepts(NotDigit, c)
    ensures InItem(c, Escape('w')) == Accepts(Alpha, c) && InItem(c, Escape('W')) == Accepts(NotAlpha, c)
    ensures InItem(c, Escape('s')) == Accepts(Space, c) && InItem(c, Escape('S')) == Accepts(NotSpace, c)
    ensures forall ch :: ch !in "dDwWsS" ==> (InItem(c, Escape(ch)) <==> c == ch)
    ensures forall lo, hi :: InItem(c, Range(lo, hi)) <==> lo <= c && c <= hi
    ensures forall ch :: InItem(c, Single(ch)) <==> c == ch
  {
  }

  // ---- single pattern characters ----

  /** Only six characters are special outside brackets, besides the bracket and the backslash. */
  lemma PlainAre(c: char)
    ensures PlainObj('^') == Begin && PlainObj('$') == End && PlainObj('.') == Dot
    ensures PlainObj('*') == Star && PlainObj('+') == Plus && PlainObj('?') == Question
    ensures c !in "^$.*+?" ==> PlainObj(c) == Char(c)
  {
  }

  /** Escapes: six sets, and every other character itself. */
  lemma EscapesAre(c: char)
    ensures EscapeObj('d') == Digit && EscapeObj('w') == Alpha && EscapeObj('s') == Space
    ensures EscapeObj('D') == NotDigit && EscapeObj('W') == NotAlpha && EscapeObj('S') == NotSpace
    ensures c !in "dDwWsS" ==> EscapeObj(c) == Char(c)
  {
  }

  /** At most 63 objects are compiled; the rest of the pattern is dropped. */
  lemma {:induction false} ObjectLimit(n: nat, i: nat, objs: seq<Obj>)
    requires i <= n && |objs| <= 63
    ensures |CutCompile(Letters(n), i, objs, "").objs| == if |objs| + (n - i) <= 63 then |objs| + (n - i) else 63
    decreases n - i
  {
    hide Letters, CopyEnd, ClassEnd;
    if i < n && |objs| < 63 {
      assert Letters(n)[i] == 'a';
      ObjectLimit(n, i + 1, objs + [ObjAt(Letters(n), i)]);
    }
  }

  /** How often an atom may be repeated, and where the next one stands, by the object behind it. */
  lemma ModifiersAre(p: seq<Obj>, k: nat, n: nat)
    ensures At(p, k + 1) == Star ==> Allowed(p, k, n) && Regex.Next(p, k) == k + 2
    ensures At(p, k + 1) == Plus ==> (Allowed(p, k, n) <==> n >= 1) && Regex.Next(p, k) == k + 2
    ensures At(p, k + 1) == Question ==> (Allowed(p, k, n) <==> n <= 1) && Regex.Next(p, k) == k + 2
    ensures At(p, k + 1) !in {Star, Plus, Question} ==> (Allowed(p, k, n) <==> n == 1) && Regex.Next(p, k) == k + 1
  {
  }
}

/** Quoted list entries and the words for write flags, apart from how they are scanned. */
module MediaLaws {
  import opened Basics
  import opened Blanks
  import opened MediaLists

  lemma BlanksAre(c: char)
    ensures Blank(Spaces, c) <==> c == ' '
    ensures Blank(White, c) <==> c in {' ', '\t', '\n', '\r', 11 as char, 12 as char}
  {
  }

  /** In either kind of quotes an entry may hold commas and outer blanks, and comes back without the quotes. */
  lemma QuotedBack(quote: char, text: string, rest: string, size: nat)
    requires (quote == '"' || quote == '\'') && quote !in text && |text| < size
    ensures Next(Apple, [quote] + text + [quote] + "," + rest, size) == Word(text, rest)
    ensures Next(Apple, [quote] + text + [quote], size) == Word(text, "")
  {
    hide Upto, Skipped;
    var s, alone := [quote] + text + [quote] + "," + rest, [quote] + text + [quote];
    UptoIs(text, "," + rest, quote);
    UptoIs(text, "", quote);
    assert s[1..] == text + [quote] + ("," + rest) && alone[1..] == text + [quote] + "";
    assert s[1..][..|text|] == text && alone[1..][..|text|] == text;
    assert Past(s[1..], |text|) == "," + rest && Past(alone[1..], |text|) == "";
    StartsAtOnce(s);
    StartsAtOnce(alone);
    StartsAtOnce("," + rest);
    EmptySkipped();
    assert ("," + rest)[1..] == rest;
  }

  lemma StartsAtOnce(s: string)
    requires s != "" && !IsSpace(s[0])
    ensures Skipped(White, s) == s
  {
  }

  lemma EmptySkipped()
    ensures Skipped(White, "") == ""
  {
  }

  /** A word that can stand in a list of flags. */
  predicate Plain(word: string) {
    ',' !in word && (word != "" ==> word[0] != ' ' && word[|word| - 1] != ' ')
  }

  /** "1", "true" and "rw" make an image writable, every other word write-protected. */
  lemma FlagRead(word: string, rest: string, before: seq<bool>)
    requires Plain(word) && before != []
    ensures Flagged(word + "," + rest, before)
            == [word == "1" || word == "true" || word == "rw"] + Flagged(rest, before[1..])
  {
    hide Upto, Skipped, Trimmed, Flagged, Past;
    var s := word + "," + rest;
    FlagStep(s, before);
    WordFirst(word, rest);
    UptoIs(word, rest, ',');
    assert s[..|word|] == word;
    WordWhole(word, rest);
  }

  lemma WordFirst(word: string, rest: string)
    requires Plain(word)
    ensures Skipped(Spaces, word + "," + rest) == word + "," + rest
  {
    if word == "" {
      assert (word + "," + rest)[0] == ',';
    } else {
      assert (word + "," + rest)[0] == word[0];
    }
  }

  lemma WordWhole(word: string, rest: string)
    requires Plain(word)
    ensures Trimmed(Spaces, word) == word && Past(word + "," + rest, |word|) == rest
  {
  }
}

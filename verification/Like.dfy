/**
 LIKE patterns with `ESCAPE '\'`: what escape_like in desktop/src/library/smart_playlist.cpp guarantees.

 LIKE compares characters by a relation of its own (SQLite folds ASCII case); it is the parameter `same`
 here and may be any relation.
 */
module Like {

  const ESCAPE := '\\'

  predicate IsSpecial(c: char) {
    c == '%' || c == '_' || c == ESCAPE
  }

  /** The user's text with every LIKE wildcard and the escape character itself escaped. */
  function Escaped(text: string): string {
    if text == [] then [] else (if IsSpecial(text[0]) then [ESCAPE] else []) + [text[0]] + Escaped(text[1..])
  }

  /** escape_like. */
  method EscapeLike(text: string) returns (out: string)
    ensures out == Escaped(text)
  {
    hide Escaped;
    out := "";
    EscapedSnoc("", ' ');
    for i := 0 to |text|
      invariant out == Escaped(text[..i])
    {
      assert text[..i + 1] == text[..i] + [text[i]];
      EscapedSnoc(text[..i], text[i]);
      if text[i] == '%' || text[i] == '_' || text[i] == '\\' { out := out + ['\\']; }
      out := out + [text[i]];
    }
    assert text[..|text|] == text;
  }

  lemma {:induction false} EscapedSnoc(text: string, c: char)
    ensures Escaped(text + [c]) == Escaped(text) + if IsSpecial(c) then [ESCAPE, c] else [c]
    ensures Escaped([]) == []
  {
    if text != [] {
      EscapedSnoc(text[1..], c);
      assert (text + [c])[1..] == text[1..] + [c];
    }
  }

  /** The escape character is the backslash that the emitted SQL names, and just it and the two wildcards need it. */
  lemma EscapedCharacter(c: char)
    ensures Escaped([c]) == if c as int == 37 || c as int == 95 || c as int == 92 then [92 as char, c] else [c]
  {
    assert [c][1..] == [];
    assert Escaped([]) == [];
  }

  // ----- What LIKE matches -----

  /** SQL LIKE with the escape character `\`: `%` any run, `_` any one character, an escaped character
      itself; an escape with nothing after it matches nothing. */
  ghost predicate Matches(pattern: string, subject: string, same: (char, char) -> bool) {
    if pattern == [] then subject == []
    else if pattern[0] == '%' then
      exists k | 0 <= k <= |subject| :: Matches(pattern[1..], subject[k..], same)
    else if pattern[0] == ESCAPE then
      |pattern| > 1 && subject != [] && same(pattern[1], subject[0]) && Matches(pattern[2..], subject[1..], same)
    else
      subject != [] && (pattern[0] == '_' || same(pattern[0], subject[0])) && Matches(pattern[1..], subject[1..], same)
  }

  /** The two texts have the same length and agree character by character. */
  ghost predicate SameText(text: string, subject: string, same: (char, char) -> bool) {
    |text| == |subject| && forall i | 0 <= i < |text| :: same(text[i], subject[i])
  }

  /** An escaped text in front of a pattern matches that text and nothing else, whatever it contains. */
  lemma {:induction false} EscapedMatchesItself(text: string, rest: string, subject: string, same: (char, char) -> bool)
    ensures Matches(Escaped(text) + rest, subject, same) <==>
            |text| <= |subject| && SameText(text, subject[..|text|], same) && Matches(rest, subject[|text|..], same)
  {
    var pattern := Escaped(text) + rest;
    if text == [] {
      assert pattern == rest && subject[0..] == subject;
    } else {
      var tail := Escaped(text[1..]) + rest;
      var width := if IsSpecial(text[0]) then 2 else 1;
      assert pattern[width..] == tail && pattern[width - 1] == text[0];
      if IsSpecial(text[0]) { assert pattern[0] == ESCAPE; }
      assert Matches(pattern, subject, same) <==>
             subject != [] && same(text[0], subject[0]) && Matches(tail, subject[1..], same);
      if subject != [] {
        EscapedMatchesItself(text[1..], rest, subject[1..], same);
        if |text| <= |subject| {
          assert subject[1..][|text| - 1..] == subject[|text|..];
          assert subject[..|text|][1..] == subject[1..][..|text| - 1];
          SameTextHead(text, subject[..|text|], same);
        }
      }
    }
  }

  lemma SameTextHead(text: string, subject: string, same: (char, char) -> bool)
    requires text != [] && |text| == |subject|
    ensures SameText(text, subject, same) <==> same(text[0], subject[0]) && SameText(text[1..], subject[1..], same)
  {
    if same(text[0], subject[0]) && SameText(text[1..], subject[1..], same) {
      forall i | 0 <= i < |text| ensures same(text[i], subject[i]) {
        if i > 0 { assert same(text[1..][i - 1], subject[1..][i - 1]); }
      }
    }
    if SameText(text, subject, same) {
      forall i | 0 <= i < |text[1..]| ensures same(text[1..][i], subject[1..][i]) {
        assert same(text[i + 1], subject[i + 1]);
      }
    }
  }

  lemma AnyRunMatches(subject: string, same: (char, char) -> bool)
    ensures Matches("%", subject, same)
  {
    assert "%"[1..] == "" && subject[|subject|..] == [];
    assert Matches("%"[1..], subject[|subject|..], same);
  }

  /** startsWith: the pattern built for it matches exactly the subjects that begin with the text. */
  lemma StartsWithPattern(text: string, subject: string, same: (char, char) -> bool)
    ensures Matches(Escaped(text) + "%", subject, same) <==>
            |text| <= |subject| && SameText(text, subject[..|text|], same)
  {
    EscapedMatchesItself(text, "%", subject, same);
    if |text| <= |subject| { AnyRunMatches(subject[|text|..], same); }
  }

  /** A leading `%` takes any run of characters. */
  lemma AnyRunThen(rest: string, subject: string, same: (char, char) -> bool)
    ensures Matches("%" + rest, subject, same) <==>
            exists k | 0 <= k <= |subject| :: Matches(rest, subject[k..], same)
  {
    assert ("%" + rest)[1..] == rest;
  }

  /** endsWith: the pattern built for it matches exactly the subjects that end with the text. */
  lemma EndsWithPattern(text: string, subject: string, same: (char, char) -> bool)
    ensures Matches("%" + Escaped(text), subject, same) <==>
            |text| <= |subject| && SameText(text, subject[|subject| - |text|..], same)
  {
    hide *;
    AnyRunThen(Escaped(text), subject, same);
    if |text| <= |subject| { WholePattern(text, subject[|subject| - |text|..], same); }
    if Matches("%" + Escaped(text), subject, same) {
      var k :| 0 <= k <= |subject| && Matches(Escaped(text), subject[k..], same);
      WholePattern(text, subject[k..], same);
    }
  }

  lemma WholePattern(text: string, subject: string, same: (char, char) -> bool)
    ensures Matches(Escaped(text), subject, same) <==> SameText(text, subject, same)
    ensures SameText(text, subject, same) ==> |text| == |subject|
  {
    EscapedMatchesItself(text, "", subject, same);
    assert Escaped(text) + "" == Escaped(text);
    if |text| == |subject| { assert subject[..|text|] == subject; }
  }

  /** True when the text occurs in the subject starting at index `k`. */
  ghost predicate OccursAt(text: string, subject: string, k: nat, same: (char, char) -> bool) {
    k + |text| <= |subject| && SameText(text, subject[k..k + |text|], same)
  }

  /** contains: the pattern built for it matches exactly the subjects the text occurs in. */
  lemma ContainsPattern(text: string, subject: string, same: (char, char) -> bool)
    ensures Matches("%" + Escaped(text) + "%", subject, same) <==> exists k: nat :: OccursAt(text, subject, k, same)
  {
    hide Matches, Escaped, SameText;
    assert "%" + Escaped(text) + "%" == "%" + (Escaped(text) + "%");
    AnyRunThen(Escaped(text) + "%", subject, same);
    if k: nat :| OccursAt(text, subject, k, same) {
      StartsAt(text, subject, k, same);
    }
    if Matches("%" + (Escaped(text) + "%"), subject, same) {
      var k :| 0 <= k <= |subject| && Matches(Escaped(text) + "%", subject[k..], same);
      StartsAt(text, subject, k, same);
    }
  }

  lemma StartsAt(text: string, subject: string, k: nat, same: (char, char) -> bool)
    requires k <= |subject|
    ensures Matches(Escaped(text) + "%", subject[k..], same) <==> OccursAt(text, subject, k, same)
  {
    hide Matches, Escaped, SameText;
    StartsWithPattern(text, subject[k..], same);
    if k + |text| <= |subject| { assert subject[k..][..|text|] == subject[k..k + |text|]; }
  }
}

/**
 The glob matcher of the text kernel (desktop/src/core/text.cpp), in three layers.

 `Matches` is the meaning of a pattern: the usual recursive relation over its tokens, in which a star may
 stand for any run of characters.  `Search` is the backtracking search on tokens, which remembers only the
 last star.  `GlobMatch` is the source's loop over indices, proved equal to `Search` on every input.
 `SearchIsMatching` then says for which subjects the search decides the relation: exactly those without a
 star character, because the loop tries a literal match before it looks for a star.
 */
module Glob {
  import opened Wrappers

  /** What the caller and the platform fix: case sensitivity, and whether C++ char is a signed type. */
  datatype Mode = Mode(caseSensitive: bool, signedChar: bool)

  function AsciiLower(c: char): char {
    if 'A' <= c <= 'Z' then (c as int + 32) as char else c
  }

  function Norm(mode: Mode, c: char): char {
    if mode.caseSensitive then c else AsciiLower(c)
  }

  /** The integer a char compares as; the top half of the byte range is negative where char is signed. */
  function Rank(mode: Mode, c: char): int {
    if mode.signedChar && c as int >= 128 then c as int - 256 else c as int
  }

  // ----- Patterns -----

  datatype Item = One(c: char) | Range(lo: char, hi: char)

  /** `Unclosed` is a class whose bracket never closes; nothing after it is read. */
  datatype Token = Literal(c: char) | AnyChar | Star | Class(negate: bool, items: seq<Item>) | Unclosed

  predicate ItemMatches(mode: Mode, item: Item, c: char) {
    match item
    case One(x) => Norm(mode, x) == Norm(mode, c)
    case Range(lo, hi) => Rank(mode, Norm(mode, lo)) <= Rank(mode, Norm(mode, c)) <= Rank(mode, Norm(mode, hi))
  }

  predicate AnyItemMatches(mode: Mode, items: seq<Item>, c: char) {
    exists k | 0 <= k < |items| :: ItemMatches(mode, items[k], c)
  }

  /** What a token other than a star matches. */
  predicate TokenMatches(mode: Mode, token: Token, c: char) {
    match token
    case Literal(x) => Norm(mode, x) == Norm(mode, c)
    case AnyChar => true
    case Star => false
    case Class(negate, items) => AnyItemMatches(mode, items, c) != negate
    case Unclosed => false
  }

  /** The items of a class from index `i` on, and the index of the bracket that closes it.  A closing
      bracket at `first`, right after the opening or the negation, is an ordinary item. */
  function ItemsFrom(pattern: string, i: nat, first: nat): (r: Option<(seq<Item>, nat)>)
    ensures r.Some? ==> i <= r.value.1 < |pattern|
    decreases |pattern| - i
  {
    if i >= |pattern| then None
    else if pattern[i] == ']' && i != first then Some(([], i))
    else
      var range := i + 2 < |pattern| && pattern[i + 1] == '-' && pattern[i + 2] != ']';
      var item := if range then Range(pattern[i], pattern[i + 2]) else One(pattern[i]);
      match ItemsFrom(pattern, if range then i + 3 else i + 1, first)
      case None => None
      case Some((items, close)) => Some(([item] + items, close))
  }

  /** The index of the first class item, after the bracket at `p` and a negation mark. */
  function ItemsStart(pattern: string, p: nat): nat {
    if p + 1 < |pattern| && (pattern[p + 1] == '!' || pattern[p + 1] == '^') then p + 2 else p + 1
  }

  /** The tokens of the pattern from index `p` on. */
  function Tokens(pattern: string, p: nat): seq<Token>
    decreases |pattern| - p
  {
    if p >= |pattern| then []
    else if pattern[p] == '[' then
      var first := ItemsStart(pattern, p);
      match ItemsFrom(pattern, first, first)
      case None => [Unclosed]
      case Some((items, close)) => [Class(first == p + 2, items)] + Tokens(pattern, close + 1)
    else
      [if pattern[p] == '?' then AnyChar else if pattern[p] == '*' then Star else Literal(pattern[p])]
      + Tokens(pattern, p + 1)
  }

  /** The meaning of a pattern. */
  ghost predicate Matches(mode: Mode, tokens: seq<Token>, subject: string) {
    if tokens == [] then subject == []
    else if tokens[0] == Star then
      exists k | 0 <= k <= |subject| :: Matches(mode, tokens[1..], subject[k..])
    else
      subject != [] && TokenMatches(mode, tokens[0], subject[0]) && Matches(mode, tokens[1..], subject[1..])
  }

  lemma StarUnfolds(mode: Mode, tokens: seq<Token>, subject: string)
    ensures Matches(mode, [Star] + tokens, subject) <==>
            Matches(mode, tokens, subject) || (subject != [] && Matches(mode, [Star] + tokens, subject[1..]))
  {
    assert ([Star] + tokens)[1..] == tokens;
    if Matches(mode, [Star] + tokens, subject) {
      var k :| 0 <= k <= |subject| && Matches(mode, tokens, subject[k..]);
      if k == 0 {
        assert subject[0..] == subject;
      } else {
        assert subject[k..] == subject[1..][k - 1..];
      }
    }
    if Matches(mode, tokens, subject) {
      assert subject[0..] == subject;
    }
    if subject != [] && Matches(mode, [Star] + tokens, subject[1..]) {
      var k :| 0 <= k <= |subject[1..]| && Matches(mode, tokens, subject[1..][k..]);
      assert subject[1..][k..] == subject[k + 1..];
    }
  }

  // ----- The backtracking search -----

  /** The last star seen: the tokens after it and the subject position it was last tried from. */
  datatype Anchor = NoAnchor | Anchor(tokens: seq<Token>, subject: string)

  /** The source matches a literal before it looks for a star, so a star character uses up a star token. */
  predicate Consumes(mode: Mode, token: Token, c: char) {
    if token == Star then Norm(mode, '*') == Norm(mode, c) else TokenMatches(mode, token, c)
  }

  predicate AllStars(tokens: seq<Token>) {
    forall k | 0 <= k < |tokens| :: tokens[k] == Star
  }

  predicate Anchored(tokens: seq<Token>, subject: string, anchor: Anchor) {
    anchor.Anchor? ==> |tokens| <= |anchor.tokens| && |subject| <= |anchor.subject|
  }

  function Search(mode: Mode, tokens: seq<Token>, subject: string, anchor: Anchor): bool
    requires Anchored(tokens, subject, anchor)
    decreases if anchor.Anchor? then |anchor.tokens| else |tokens| + 1,
              if anchor.Anchor? then |anchor.subject| else 0, |subject|
  {
    if subject == [] then AllStars(tokens)
    else if tokens != [] && Consumes(mode, tokens[0], subject[0]) then
      Search(mode, tokens[1..], subject[1..], anchor)
    else if tokens != [] && tokens[0] == Star then
      Search(mode, tokens[1..], subject, Anchor(tokens[1..], subject))
    else if anchor.Anchor? then
      Search(mode, anchor.tokens, anchor.subject[1..], Anchor(anchor.tokens, anchor.subject[1..]))
    else false
  }

  /** How many more rounds the search can take: stars still to set, restarts still to make, characters
      still to consume in this round. */
  function Fuel(total: nat, tokens: seq<Token>, subject: string, anchor: Anchor): nat {
    match anchor
    case NoAnchor => |tokens| + Restarts(total, total) + |subject|
    case Anchor(ts, sub) => |ts| + Restarts(|sub|, total) + |subject|
  }

  /** The rounds `n` restarts can cost on a subject of length `total`. */
  function Restarts(n: nat, total: nat): nat {
    n * (total + 1)
  }

  // ----- The search decides the relation -----

  ghost predicate NoStars(tokens: seq<Token>) {
    forall k | 0 <= k < |tokens| :: tokens[k] != Star
  }

  /** The star-free stretch the search is in: since the anchor it has used `used`, one token of `stretch`
      for each character. */
  ghost predicate InStretch(tokens: seq<Token>, subject: string, anchor: Anchor, stretch: seq<Token>, used: string) {
    anchor.Anchor? ==>
      && anchor.tokens == stretch + tokens
      && anchor.subject == used + subject
      && |stretch| == |used|
      && NoStars(stretch)
  }

  /** What restarting at the anchor can still find. */
  ghost predicate RestartMatches(mode: Mode, anchor: Anchor) {
    anchor.Anchor? && anchor.subject != [] && Matches(mode, [Star] + anchor.tokens, anchor.subject[1..])
  }

  lemma StarMatchesSuffix(mode: Mode, tokens: seq<Token>, skipped: string, subject: string)
    requires Matches(mode, [Star] + tokens, subject)
    ensures Matches(mode, [Star] + tokens, skipped + subject)
  {
    assert ([Star] + tokens)[1..] == tokens;
    var k :| 0 <= k <= |subject| && Matches(mode, tokens, subject[k..]);
    assert (skipped + subject)[|skipped| + k..] == subject[k..];
  }

  /** Tokens that are not stars consume exactly one character each. */
  lemma {:induction false} StretchConsumes(mode: Mode, stretch: seq<Token>, tokens: seq<Token>, subject: string)
    requires NoStars(stretch)
    requires Matches(mode, stretch + tokens, subject)
    ensures |stretch| <= |subject| && Matches(mode, tokens, subject[|stretch|..])
    decreases stretch
  {
    if stretch == [] {
      assert stretch + tokens == tokens && subject[0..] == subject;
    } else {
      assert (stretch + tokens)[1..] == stretch[1..] + tokens;
      StretchConsumes(mode, stretch[1..], tokens, subject[1..]);
      assert subject[1..][|stretch| - 1..] == subject[|stretch|..];
    }
  }

  /** The exchange: whatever an earlier star could still find from a restart, the star just reached finds. */
  lemma LaterStarSubsumes(mode: Mode, tokens: seq<Token>, subject: string, anchor: Anchor, stretch: seq<Token>,
                          used: string)
    requires anchor.Anchor? && InStretch([Star] + tokens, subject, anchor, stretch, used)
    requires RestartMatches(mode, anchor)
    ensures Matches(mode, [Star] + tokens, subject)
  {
    var later := anchor.subject[1..];
    assert ([Star] + anchor.tokens)[1..] == anchor.tokens;
    var k :| 0 <= k <= |later| && Matches(mode, anchor.tokens, later[k..]);
    hide Matches;
    StretchConsumes(mode, stretch, [Star] + tokens, later[k..]);
    assert subject == subject[..1 + k] + later[k..][|stretch|..];
    StarMatchesSuffix(mode, tokens, subject[..1 + k], later[k..][|stretch|..]);
  }

  /** Once the subject is used up, no restart can succeed either: too few characters are left. */
  lemma NoRestartAtEnd(mode: Mode, tokens: seq<Token>, anchor: Anchor, stretch: seq<Token>, used: string)
    requires InStretch(tokens, [], anchor, stretch, used)
    ensures !RestartMatches(mode, anchor)
  {
    if RestartMatches(mode, anchor) {
      var later := anchor.subject[1..];
      assert ([Star] + anchor.tokens)[1..] == anchor.tokens;
      var k :| 0 <= k <= |later| && Matches(mode, anchor.tokens, later[k..]);
      StretchConsumes(mode, stretch, tokens, later[k..]);
    }
  }

  lemma {:induction false} OnlyStarsMatchEmpty(mode: Mode, tokens: seq<Token>)
    ensures Matches(mode, tokens, []) <==> AllStars(tokens)
  {
    if tokens != [] {
      OnlyStarsMatchEmpty(mode, tokens[1..]);
      assert AllStars(tokens) <==> tokens[0] == Star && AllStars(tokens[1..]);
      var empty: string := [];
      assert empty[0..] == [];
    }
  }

  /** On a subject without star characters the search finds a match exactly when there is one. */
  lemma {:induction false} SearchFindsMatch(mode: Mode, tokens: seq<Token>, subject: string, anchor: Anchor,
                                            stretch: seq<Token>, used: string)
    requires InStretch(tokens, subject, anchor, stretch, used)
    requires '*' !in subject && (anchor.Anchor? ==> '*' !in anchor.subject)
    ensures Anchored(tokens, subject, anchor)
    ensures Search(mode, tokens, subject, anchor) <==>
            Matches(mode, tokens, subject) || RestartMatches(mode, anchor)
    decreases if anchor.Anchor? then |anchor.tokens| else |tokens| + 1,
              if anchor.Anchor? then |anchor.subject| else 0, |subject|
  {
    if subject == [] {
      OnlyStarsMatchEmpty(mode, tokens);
      NoRestartAtEnd(mode, tokens, anchor, stretch, used);
    } else if tokens != [] && Consumes(mode, tokens[0], subject[0]) {
      hide RestartMatches, Matches, InStretch;
      StretchGrows(tokens, subject, anchor, stretch, used);
      SearchFindsMatch(mode, tokens[1..], subject[1..], anchor, stretch + [tokens[0]], used + [subject[0]]);
      MatchesHead(mode, tokens, subject);
    } else if tokens != [] && tokens[0] == Star {
      hide Matches;
      assert tokens == [Star] + tokens[1..];
      SearchFindsMatch(mode, tokens[1..], subject, Anchor(tokens[1..], subject), [], []);
      StarUnfolds(mode, tokens[1..], subject);
      if RestartMatches(mode, anchor) {
        LaterStarSubsumes(mode, tokens[1..], subject, anchor, stretch, used);
      }
    } else if anchor.Anchor? {
      hide Matches;
      MatchesHead(mode, tokens, subject);
      var later := anchor.subject[1..];
      SearchFindsMatch(mode, anchor.tokens, later, Anchor(anchor.tokens, later), [], []);
      StarUnfolds(mode, anchor.tokens, later);
    } else {
      MatchesHead(mode, tokens, subject);
    }
  }

  lemma StretchGrows(tokens: seq<Token>, subject: string, anchor: Anchor, stretch: seq<Token>, used: string)
    requires InStretch(tokens, subject, anchor, stretch, used)
    requires tokens != [] && tokens[0] != Star && subject != []
    ensures InStretch(tokens[1..], subject[1..], anchor, stretch + [tokens[0]], used + [subject[0]])
  {
    assert stretch + tokens == (stretch + [tokens[0]]) + tokens[1..];
    assert used + subject == (used + [subject[0]]) + subject[1..];
  }

  lemma MatchesHead(mode: Mode, tokens: seq<Token>, subject: string)
    requires subject != [] && (tokens != [] ==> tokens[0] != Star)
    ensures Matches(mode, tokens, subject) <==>
            tokens != [] && TokenMatches(mode, tokens[0], subject[0]) && Matches(mode, tokens[1..], subject[1..])
  {
  }

  // ----- The exact condition on the subject -----

  /** The answer of the matcher on a whole pattern and subject. */
  function Answer(mode: Mode, pattern: string, subject: string): bool {
    Search(mode, Tokens(pattern, 0), subject, NoAnchor)
  }

  ghost predicate Agrees(mode: Mode, pattern: string, subject: string) {
    Answer(mode, pattern, subject) <==> Matches(mode, Tokens(pattern, 0), subject)
  }

  /** The matcher decides the relation for every pattern exactly when the subject has no star character. */
  lemma SearchIsMatching(mode: Mode, subject: string)
    ensures (forall pattern: string :: Agrees(mode, pattern, subject)) <==> '*' !in subject
  {
    if '*' !in subject {
      forall pattern: string ensures Agrees(mode, pattern, subject) {
        SearchFindsMatch(mode, Tokens(pattern, 0), subject, NoAnchor, [], []);
      }
    } else {
      Spoiler(mode, subject);
      SpoilerTokens(SpoilerOf(subject), 0);
      assert SpoilerOf(subject)[0..] == SpoilerOf(subject);
      assert !Agrees(mode, SpoilerOf(subject), subject);
    }
  }

  /** A pattern the matcher gets wrong: `?` up to the first star of the subject, a star, then one `?` for
      every character from that star on. */
  function SpoilerOf(subject: string): (pattern: string)
    ensures forall k | 0 <= k < |pattern| :: pattern[k] == '?' || pattern[k] == '*'
  {
    if subject == [] then []
    else if subject[0] == '*' then ['*'] + seq(|subject|, _ => '?')
    else ['?'] + SpoilerOf(subject[1..])
  }

  function PlainTokens(pattern: string): seq<Token> {
    seq(|pattern|, k requires 0 <= k < |pattern| => if pattern[k] == '*' then Star else AnyChar)
  }

  lemma {:induction false} SpoilerTokens(pattern: string, p: nat)
    requires p <= |pattern| && forall k | 0 <= k < |pattern| :: pattern[k] == '?' || pattern[k] == '*'
    ensures Tokens(pattern, p) == PlainTokens(pattern[p..])
    decreases |pattern| - p
  {
    hide ItemsFrom;
    if p < |pattern| {
      SpoilerTokens(pattern, p + 1);
      var head := if pattern[p] == '*' then Star else AnyChar;
      assert Tokens(pattern, p) == [head] + Tokens(pattern, p + 1);
      hide Tokens;
      assert PlainTokens(pattern[p..]) == [head] + PlainTokens(pattern[p + 1..]);
    }
  }

  lemma {:induction false} Spoiler(mode: Mode, subject: string)
    requires '*' in subject
    ensures Matches(mode, PlainTokens(SpoilerOf(subject)), subject)
    ensures !Search(mode, PlainTokens(SpoilerOf(subject)), subject, NoAnchor)
  {
    var tokens := PlainTokens(SpoilerOf(subject));
    if subject[0] == '*' {
      var holes := seq(|subject|, _ => AnyChar);
      assert tokens == [Star] + holes;
      HolesMatch(mode, subject);
      StarUnfolds(mode, holes, subject);
      TooManyHoles(mode, |subject|, subject[1..]);
      assert tokens[1..] == holes;
    } else {
      Spoiler(mode, subject[1..]);
      assert tokens[1..] == PlainTokens(SpoilerOf(subject[1..]));
    }
  }

  lemma {:induction false} HolesMatch(mode: Mode, subject: string)
    ensures Matches(mode, seq(|subject|, _ => AnyChar), subject)
  {
    if subject != [] {
      HolesMatch(mode, subject[1..]);
      assert seq(|subject|, _ => AnyChar)[1..] == seq(|subject[1..]|, _ => AnyChar);
    }
  }

  lemma {:induction false} TooManyHoles(mode: Mode, n: nat, subject: string)
    requires n > |subject|
    ensures !Search(mode, seq(n, _ => AnyChar), subject, NoAnchor)
    decreases n
  {
    var holes := seq(n, _ => AnyChar);
    if subject == [] {
      assert holes[0] == AnyChar;
    } else {
      TooManyHoles(mode, n - 1, subject[1..]);
      assert holes[1..] == seq(n - 1, _ => AnyChar);
    }
  }

  /** For a star-free subject the matcher's answer is the meaning of the pattern. */
  lemma AnswerIsMatching(mode: Mode, pattern: string, subject: string)
    requires '*' !in subject
    ensures Answer(mode, pattern, subject) <==> Matches(mode, Tokens(pattern, 0), subject)
  {
    SearchFindsMatch(mode, Tokens(pattern, 0), subject, NoAnchor, [], []);
  }

  /** The smallest everyday case: the pattern `*` refuses the subject `*a`. */
  lemma StarRefusesStarText(mode: Mode)
    ensures !Answer(mode, "*", "*a") && Matches(mode, Tokens("*", 0), "*a")
  {
    assert Tokens("*", 0) == [Star] + Tokens("*", 1);
    assert Tokens("*", 0) == [Star];
    assert "*a"[1..] == "a" && "*a"[2..] == "";
    assert [Star][1..] == [];
    assert Matches(mode, [], "*a"[2..]);
  }

  // ----- The source's loops -----

  /** The class loop: whether the class at `p` matches `c`, and the index of its closing bracket, or the end of
      the pattern when there is none. */
  method MatchClass(mode: Mode, pattern: string, p: nat, c: char) returns (i: nat, hit: bool)
    requires p < |pattern| && pattern[p] == '['
    ensures p < i <= |pattern|
    ensures Tokens(pattern, p) != [] && (i < |pattern| <==> Tokens(pattern, p)[0] != Unclosed)
    ensures i < |pattern| ==>
            && Tokens(pattern, p)[0].Class?
            && Tokens(pattern, p)[1..] == Tokens(pattern, i + 1)
            && (hit <==> TokenMatches(mode, Tokens(pattern, p)[0], c))
    ensures i == |pattern| ==> !TokenMatches(mode, Tokens(pattern, p)[0], c)
  {
    ClassToken(pattern, p);
    hide ItemsFrom, Tokens, TokenMatches, AnyItemMatches, ItemMatches, ItemAt;
    var close := p + 1;
    var negate := false;
    if close < |pattern| && (pattern[close] == '!' || pattern[close] == '^') {
      negate := true;
      close := close + 1;
    }
    ghost var all := ItemsFrom(pattern, close, close);
    var matched := false;
    i := close;
    ghost var seen: seq<Item> := [];
    NoItemMatches(mode, c);
    while i < |pattern| && (pattern[i] != ']' || i == close)
      invariant close <= i <= |pattern|
      invariant matched <==> AnyItemMatches(mode, seen, c)
      invariant all == Prepend(seen, ItemsFrom(pattern, i, close))
      decreases |pattern| - i
    {
      ghost var item := ItemAt(pattern, i);
      ItemsStep(pattern, i, close);
      PrependSnoc(seen, item, ItemsFrom(pattern, i + ItemWidth(pattern, i), close));
      AnyItemSnoc(mode, seen, item, c);
      seen := seen + [item];
      var here;
      here, i := MatchItem(mode, pattern, i, c);
      if here { matched := true; }
    }
    ItemsStep(pattern, i, close);
    PrependSnoc(seen, One(' '), ItemsFrom(pattern, i, close));
    hit := i < |pattern| && matched != negate;
    ClassMeaning(mode, negate, seen, c);
  }

  /** The body of the class loop: whether the item at `i` matches, and where the next one begins. */
  method MatchItem(mode: Mode, pattern: string, i: nat, c: char) returns (matches: bool, next: nat)
    requires i < |pattern|
    ensures next == i + ItemWidth(pattern, i) && (matches <==> ItemMatches(mode, ItemAt(pattern, i), c))
  {
    matches, next := false, i;
    if i + 2 < |pattern| && pattern[i + 1] == '-' && pattern[i + 2] != ']' {
      if Rank(mode, Norm(mode, c)) >= Rank(mode, Norm(mode, pattern[i])) &&
         Rank(mode, Norm(mode, c)) <= Rank(mode, Norm(mode, pattern[i + 2])) {
        matches := true;
      }
      next := next + 2;
    } else if Norm(mode, pattern[i]) == Norm(mode, c) {
      matches := true;
    }
    next := next + 1;
  }

  /** The item at index `i` of a class, and how many characters it is written with. */
  function ItemWidth(pattern: string, i: nat): nat
    requires i < |pattern|
  {
    if i + 2 < |pattern| && pattern[i + 1] == '-' && pattern[i + 2] != ']' then 3 else 1
  }

  function ItemAt(pattern: string, i: nat): Item
    requires i < |pattern|
  {
    if ItemWidth(pattern, i) == 3 then Range(pattern[i], pattern[i + 2]) else One(pattern[i])
  }

  function Prepend(items: seq<Item>, r: Option<(seq<Item>, nat)>): Option<(seq<Item>, nat)> {
    match r
    case None => None
    case Some((rest, close)) => Some((items + rest, close))
  }

  lemma ItemsStep(pattern: string, i: nat, first: nat)
    ensures i >= |pattern| ==> ItemsFrom(pattern, i, first) == None
    ensures i < |pattern| && pattern[i] == ']' && i != first ==> ItemsFrom(pattern, i, first) == Some(([], i))
    ensures i < |pattern| && (pattern[i] != ']' || i == first) ==>
            ItemsFrom(pattern, i, first) ==
            Prepend([ItemAt(pattern, i)], ItemsFrom(pattern, i + ItemWidth(pattern, i), first))
    ensures Prepend([], ItemsFrom(pattern, i, first)) == ItemsFrom(pattern, i, first)
  {
    var r := ItemsFrom(pattern, i, first);
    if r.Some? { assert [] + r.value.0 == r.value.0; }
  }

  lemma PrependSnoc(seen: seq<Item>, item: Item, r: Option<(seq<Item>, nat)>)
    ensures Prepend(seen, Prepend([item], r)) == Prepend(seen + [item], r)
    ensures Prepend([], r) == r
    ensures r.Some? ==> Prepend(seen, Some(([], r.value.1))) == Some((seen, r.value.1))
  {
    if r.Some? {
      assert seen + ([item] + r.value.0) == (seen + [item]) + r.value.0;
      assert [] + r.value.0 == r.value.0 && seen + [] == seen;
    }
  }

  lemma ClassToken(pattern: string, p: nat)
    requires p < |pattern| && pattern[p] == '['
    ensures var first := ItemsStart(pattern, p); var r := ItemsFrom(pattern, first, first);
      && Prepend([], r) == r
      && if r.None? then Tokens(pattern, p) == [Unclosed]
         else Tokens(pattern, p) == [Class(first == p + 2, r.value.0)] + Tokens(pattern, r.value.1 + 1)
  {
    hide ItemsFrom;
    var first := ItemsStart(pattern, p);
    PrependSnoc([], One(' '), ItemsFrom(pattern, first, first));
  }

  lemma ClassMeaning(mode: Mode, negate: bool, items: seq<Item>, c: char)
    ensures TokenMatches(mode, Class(negate, items), c) <==> AnyItemMatches(mode, items, c) != negate
    ensures !TokenMatches(mode, Unclosed, c)
  {
  }

  lemma NoItemMatches(mode: Mode, c: char)
    ensures !AnyItemMatches(mode, [], c)
  {
  }

  lemma AnyItemSnoc(mode: Mode, seen: seq<Item>, item: Item, c: char)
    ensures AnyItemMatches(mode, seen + [item], c) <==>
            AnyItemMatches(mode, seen, c) || ItemMatches(mode, item, c)
  {
    if AnyItemMatches(mode, seen, c) {
      var k :| 0 <= k < |seen| && ItemMatches(mode, seen[k], c);
      assert (seen + [item])[k] == seen[k];
    }
    assert (seen + [item])[|seen|] == item;
  }

  /** The matcher's indices, and the search state they stand for. */
  datatype Cursor = Cursor(p: nat, s: nat, hasStar: bool, starP: nat, starS: nat) {

    ghost predicate Valid(pattern: string, subject: string) {
      && p <= |pattern| && s <= |subject|
      && (hasStar ==> starP < |pattern| && starS <= s && |Tokens(pattern, p)| <= |Tokens(pattern, starP + 1)|)
    }

    ghost function LastStar(pattern: string, subject: string): Anchor
      requires Valid(pattern, subject)
    {
      if hasStar then Anchor(Tokens(pattern, starP + 1), subject[starS..]) else NoAnchor
    }

    ghost predicate Finds(mode: Mode, pattern: string, subject: string)
      requires Valid(pattern, subject)
    {
      Search(mode, Tokens(pattern, p), subject[s..], LastStar(pattern, subject))
    }

    ghost function RoundsLeft(pattern: string, subject: string): nat
      requires Valid(pattern, subject)
    {
      Fuel(|subject|, Tokens(pattern, p), subject[s..], LastStar(pattern, subject))
    }
  }

  /** A round that uses up one character and goes on at pattern index `q`. */
  lemma ConsumeRound(mode: Mode, pattern: string, subject: string, at: Cursor, q: nat)
    requires at.Valid(pattern, subject) && at.s < |subject| && q <= |pattern|
    requires Tokens(pattern, at.p) != [] && Tokens(pattern, at.p)[1..] == Tokens(pattern, q)
    requires Consumes(mode, Tokens(pattern, at.p)[0], subject[at.s])
    ensures var next := at.(p := q, s := at.s + 1);
            && next.Valid(pattern, subject)
            && next.Finds(mode, pattern, subject) == at.Finds(mode, pattern, subject)
            && next.RoundsLeft(pattern, subject) < at.RoundsLeft(pattern, subject)
  {
    hide Tokens, Search, Fuel;
    SearchSteps(mode, |subject|, Tokens(pattern, at.p), subject[at.s..], at.LastStar(pattern, subject));
    assert subject[at.s..][1..] == subject[at.s + 1..];
  }

  /** A round that sets a star. */
  lemma StarRound(mode: Mode, pattern: string, subject: string, at: Cursor)
    requires at.Valid(pattern, subject) && at.s < |subject| && at.p < |pattern|
    requires Tokens(pattern, at.p) != [] && Tokens(pattern, at.p)[1..] == Tokens(pattern, at.p + 1)
    requires Tokens(pattern, at.p)[0] == Star && !Consumes(mode, Star, subject[at.s])
    ensures var next := Cursor(at.p + 1, at.s, true, at.p, at.s);
            && next.Valid(pattern, subject)
            && next.Finds(mode, pattern, subject) == at.Finds(mode, pattern, subject)
            && next.RoundsLeft(pattern, subject) < at.RoundsLeft(pattern, subject)
  {
    hide Tokens, Search, Fuel, Consumes;
    SearchSteps(mode, |subject|, Tokens(pattern, at.p), subject[at.s..], at.LastStar(pattern, subject));
  }

  /** A round that can do neither: it restarts one character later, or gives up. */
  lemma StuckRound(mode: Mode, pattern: string, subject: string, at: Cursor)
    requires at.Valid(pattern, subject) && at.s < |subject|
    requires var here := Tokens(pattern, at.p);
             here == [] || (here[0] != Star && !Consumes(mode, here[0], subject[at.s]))
    ensures at.hasStar ==>
            var next := Cursor(at.starP + 1, at.starS + 1, true, at.starP, at.starS + 1);
            && next.Valid(pattern, subject)
            && next.Finds(mode, pattern, subject) == at.Finds(mode, pattern, subject)
            && next.RoundsLeft(pattern, subject) < at.RoundsLeft(pattern, subject)
    ensures at.hasStar ==> at.starP + 1 <= |pattern| && at.starS + 1 <= |subject|
    ensures !at.hasStar ==> !at.Finds(mode, pattern, subject)
    ensures at.RoundsLeft(pattern, subject) > 0
  {
    hide Tokens, Search, Consumes, Fuel;
    SearchSteps(mode, |subject|, Tokens(pattern, at.p), subject[at.s..], at.LastStar(pattern, subject));
    FuelIsPositive(|subject|, Tokens(pattern, at.p), subject[at.s..], at.LastStar(pattern, subject));
    if at.hasStar { assert subject[at.starS..][1..] == subject[at.starS + 1..]; }
    assert |subject[at.s..]| > 0;
  }

  lemma EndRound(mode: Mode, pattern: string, subject: string, at: Cursor)
    requires at.Valid(pattern, subject) && at.s == |subject|
    ensures at.Finds(mode, pattern, subject) <==> AllStars(Tokens(pattern, at.p))
  {
    assert subject[at.s..] == [];
    SearchAtEnd(mode, Tokens(pattern, at.p), at.LastStar(pattern, subject));
  }

  lemma FirstRound(mode: Mode, pattern: string, subject: string)
    ensures var at := Cursor(0, 0, false, 0, 0);
            && at.Valid(pattern, subject)
            && at.Finds(mode, pattern, subject) == Answer(mode, pattern, subject)
            && at.RoundsLeft(pattern, subject) <= |pattern| + |subject| * (|subject| + 2)
  {
    assert subject[0..] == subject;
    FuelAtStart(pattern, subject);
  }

  /** glob_match.  The number of rounds of its main loop is at most quadratic in the subject, for every
      pattern. */
  method GlobMatch(mode: Mode, pattern: string, subject: string) returns (r: bool, ghost rounds: nat)
    ensures r == Answer(mode, pattern, subject)
    ensures rounds <= |pattern| + |subject| * (|subject| + 2)
  {
    FirstRound(mode, pattern, subject);
    hide Answer, Tokens, TokenMatches, Cursor.Valid, Cursor.Finds, Cursor.RoundsLeft;
    var p, s, hasStar, starP, starS := 0, 0, false, 0, 0;
    ghost var at := Cursor(p, s, hasStar, starP, starS);
    rounds := 0;
    while s < |subject|
      invariant s <= |subject| && p <= |pattern|
      invariant at == Cursor(p, s, hasStar, starP, starS) && at.Valid(pattern, subject)
      invariant at.Finds(mode, pattern, subject) == Answer(mode, pattern, subject)
      invariant rounds + at.RoundsLeft(pattern, subject) <= |pattern| + |subject| * (|subject| + 2)
      decreases at.RoundsLeft(pattern, subject)
    {
      rounds := rounds + 1;
      HeadToken(mode, pattern, p, subject[s]);
      if p < |pattern| && pattern[p] == '[' {
        var i, hit := MatchClass(mode, pattern, p, subject[s]);
        if i < |pattern| && hit {
          ConsumeRound(mode, pattern, subject, at, i + 1);
          p, s := i + 1, s + 1;
          at := Cursor(p, s, hasStar, starP, starS);
          continue;
        }
      } else if p < |pattern| && (pattern[p] == '?' || Norm(mode, pattern[p]) == Norm(mode, subject[s])) {
        ConsumeRound(mode, pattern, subject, at, p + 1);
        p, s := p + 1, s + 1;
        at := Cursor(p, s, hasStar, starP, starS);
        continue;
      } else if p < |pattern| && pattern[p] == '*' {
        StarRound(mode, pattern, subject, at);
        starP, hasStar := p, true;
        p := p + 1;
        starS := s;
        at := Cursor(p, s, hasStar, starP, starS);
        continue;
      }
      StuckRound(mode, pattern, subject, at);
      if !hasStar { return false, rounds; }
      p := starP + 1;
      starS := starS + 1;
      s := starS;
      at := Cursor(p, s, hasStar, starP, starS);
    }
    EndRound(mode, pattern, subject, at);
    p := SkipStars(pattern, p);
    r := p == |pattern|;
  }

  /** The loop after the main loop: only stars may be left. */
  method SkipStars(pattern: string, start: nat) returns (p: nat)
    requires start <= |pattern|
    ensures p <= |pattern| && (p == |pattern| <==> AllStars(Tokens(pattern, start)))
  {
    hide Tokens;
    p := start;
    while p < |pattern| && pattern[p] == '*'
      invariant p <= |pattern|
      invariant AllStars(Tokens(pattern, start)) <==> AllStars(Tokens(pattern, p))
    {
      ghost var here := Tokens(pattern, p);
      HeadToken(Mode(true, true), pattern, p, ' ');
      assert here == [here[0]] + here[1..];
      p := p + 1;
    }
    HeadToken(Mode(true, true), pattern, p, ' ');
  }

  /** The first token at `p`, what it consumes, and where the tokens after it start. */
  lemma HeadToken(mode: Mode, pattern: string, p: nat, c: char)
    ensures p >= |pattern| ==> Tokens(pattern, p) == []
    ensures p < |pattern| ==>
            var here := Tokens(pattern, p);
            && here != []
            && (here[0] == Star <==> pattern[p] == '*')
            && (pattern[p] != '[' ==>
                  && here[1..] == Tokens(pattern, p + 1)
                  && (Consumes(mode, here[0], c) <==> pattern[p] == '?' || Norm(mode, pattern[p]) == Norm(mode, c)))
            && (pattern[p] == '[' ==>
                  && (here[0].Class? || here[0] == Unclosed)
                  && (Consumes(mode, here[0], c) <==> TokenMatches(mode, here[0], c)))
  {
    hide ItemsFrom, AnyItemMatches;
  }

  lemma SearchAtEnd(mode: Mode, tokens: seq<Token>, anchor: Anchor)
    requires Anchored(tokens, [], anchor)
    ensures Search(mode, tokens, [], anchor) == AllStars(tokens)
  {
  }

  /** One round of the search, and the fuel it burns. */
  lemma SearchSteps(mode: Mode, total: nat, tokens: seq<Token>, subject: string, anchor: Anchor)
    requires Anchored(tokens, subject, anchor) && subject != [] && |subject| <= total
    requires anchor.Anchor? ==> |anchor.subject| <= total
    ensures var answer := Search(mode, tokens, subject, anchor);
      if tokens != [] && Consumes(mode, tokens[0], subject[0]) then
        && answer == Search(mode, tokens[1..], subject[1..], anchor)
        && Fuel(total, tokens[1..], subject[1..], anchor) < Fuel(total, tokens, subject, anchor)
      else if tokens != [] && tokens[0] == Star then
        && answer == Search(mode, tokens[1..], subject, Anchor(tokens[1..], subject))
        && Fuel(total, tokens[1..], subject, Anchor(tokens[1..], subject)) < Fuel(total, tokens, subject, anchor)
      else if anchor.Anchor? then
        var later := Anchor(anchor.tokens, anchor.subject[1..]);
        && answer == Search(mode, anchor.tokens, anchor.subject[1..], later)
        && Fuel(total, anchor.tokens, anchor.subject[1..], later) < Fuel(total, tokens, subject, anchor)
      else !answer
  {
    hide Consumes;
    var b := if anchor.Anchor? then |anchor.subject| else total;
    RestartCost(|subject|, b, total);
    hide Restarts;
  }

  lemma RestartCost(a: nat, b: nat, total: nat)
    requires a <= b
    ensures Restarts(a, total) <= Restarts(b, total)
    ensures b > 0 ==> Restarts(b, total) == Restarts(b - 1, total) + total + 1
  {
    assert a * (total + 1) <= b * (total + 1);
    assert (b - 1) * (total + 1) == b * (total + 1) - (total + 1);
  }

  lemma FuelIsPositive(total: nat, tokens: seq<Token>, subject: string, anchor: Anchor)
    requires subject != []
    ensures Fuel(total, tokens, subject, anchor) > 0
  {
  }

  lemma FuelAtStart(pattern: string, subject: string)
    ensures Fuel(|subject|, Tokens(pattern, 0), subject, NoAnchor) <= |pattern| + |subject| * (|subject| + 2)
  {
    TokensLength(pattern, 0);
  }

  lemma {:induction false} TokensLength(pattern: string, p: nat)
    ensures |Tokens(pattern, p)| <= if p < |pattern| then |pattern| - p else 0
    ensures p < |pattern| ==> Tokens(pattern, p) != []
    decreases |pattern| - p
  {
    if p < |pattern| {
      if pattern[p] == '[' {
        var first := ItemsStart(pattern, p);
        var r := ItemsFrom(pattern, first, first);
        if r.Some? { TokensLength(pattern, r.value.1 + 1); }
      } else {
        TokensLength(pattern, p + 1);
      }
    }
  }
}

/**
 What a glob pattern means to the person who writes it (desktop/src/core/text.cpp: glob_match): letters with or
 without regard to case, any character, any run of characters, and classes of characters and ranges.  A pattern is
 given here by its parts and a meaning in terms of character codes; the matcher decides that meaning from the text
 the parts are written as.
 */
module GlobPatterns {
  import opened Wrappers
  import opened Glob

  // ----- Patterns by their parts -----

  /** An element of a class: one character, or all of a range. */
  datatype Member = Exactly(c: char) | Between(lo: char, hi: char)

  datatype Part =
    | Letter(c: char)
    | AnyOne
    | AnyRun
    | OneOf(members: seq<Member>)
    | NoneOf(mark: char, members: seq<Member>)

  function WrittenMembers(members: seq<Member>): string {
    if members == [] then ""
    else
      (match members[0] case Exactly(c) => [c] case Between(lo, hi) => [lo] + "-" + [hi]) + WrittenMembers(members[1..])
  }

  function WrittenPart(part: Part): string {
    match part
    case Letter(c) => [c]
    case AnyOne => "?"
    case AnyRun => "*"
    case OneOf(members) => "[" + WrittenMembers(members) + "]"
    case NoneOf(mark, members) => "[" + [mark] + WrittenMembers(members) + "]"
  }

  function Written(parts: seq<Part>): string {
    if parts == [] then "" else WrittenPart(parts[0]) + Written(parts[1..])
  }

  /** Written in a class a member is read as itself: no dash, and no closing bracket but at the very front. */
  predicate IsPlain(member: Member, first: bool) {
    match member
    case Exactly(c) => c != '-' && (c != ']' || first)
    case Between(lo, hi) => lo != '-' && (lo != ']' || first) && hi != ']'
  }

  predicate ArePlain(members: seq<Member>, first: bool) {
    members == [] || (IsPlain(members[0], first) && ArePlain(members[1..], false))
  }

  function FirstChar(member: Member): char {
    match member case Exactly(c) => c case Between(lo, _) => lo
  }

  predicate IsReadable(part: Part) {
    match part
    case Letter(c) => c != '*' && c != '?' && c != '['
    case OneOf(members) =>
      members != [] && ArePlain(members, true) && FirstChar(members[0]) != '!' && FirstChar(members[0]) != '^'
    case NoneOf(mark, members) => members != [] && ArePlain(members, true) && (mark == '!' || mark == '^')
    case _ => true
  }

  predicate AreReadable(parts: seq<Part>) {
    parts == [] || (IsReadable(parts[0]) && AreReadable(parts[1..]))
  }

  // ----- What the parts mean -----

  /** The same character, or the same letter of the alphabet when case does not matter. */
  predicate SameLetter(sensitive: bool, a: char, b: char) {
    || a == b
    || (!sensitive && 'A' <= a <= 'Z' && 'a' <= b <= 'z' && b as int - 97 == a as int - 65)
    || (!sensitive && 'a' <= a <= 'z' && 'A' <= b <= 'Z' && b as int - 65 == a as int - 97)
  }

  /** A character's place in the order of char: without regard to case the capital letters stand where the small
      ones do, and where char is signed the upper half of the bytes comes first. */
  function Place(mode: Mode, c: char): int {
    var code := if !mode.caseSensitive && 65 <= c as int <= 90 then c as int + 32 else c as int;
    if mode.signedChar then (code + 128) % 256 else code
  }

  predicate IsMember(mode: Mode, member: Member, c: char) {
    match member
    case Exactly(x) => SameLetter(mode.caseSensitive, x, c)
    case Between(lo, hi) => Place(mode, lo) <= Place(mode, c) <= Place(mode, hi)
  }

  predicate IsAmong(mode: Mode, members: seq<Member>, c: char) {
    exists k | 0 <= k < |members| :: IsMember(mode, members[k], c)
  }

  predicate Fits(mode: Mode, part: Part, c: char) {
    match part
    case Letter(x) => SameLetter(mode.caseSensitive, x, c)
    case AnyOne => true
    case AnyRun => false
    case OneOf(members) => IsAmong(mode, members, c)
    case NoneOf(_, members) => !IsAmong(mode, members, c)
  }

  /** The subjects a pattern is for. */
  ghost predicate Means(mode: Mode, parts: seq<Part>, subject: string) {
    if parts == [] then subject == ""
    else if parts[0] == AnyRun then exists k | 0 <= k <= |subject| :: Means(mode, parts[1..], subject[k..])
    else subject != "" && Fits(mode, parts[0], subject[0]) && Means(mode, parts[1..], subject[1..])
  }

  predicate AreBytes(s: string) {
    forall i | 0 <= i < |s| :: s[i] as int < 256
  }

  // ----- Characters and ranges -----

  lemma NormIsSameLetter(mode: Mode, a: char, b: char)
    ensures Norm(mode, a) == Norm(mode, b) <==> SameLetter(mode.caseSensitive, a, b)
  {
  }

  lemma RankIsPlace(mode: Mode, a: char, b: char)
    requires a as int < 256 && b as int < 256
    ensures Rank(mode, Norm(mode, a)) <= Rank(mode, Norm(mode, b)) <==> Place(mode, a) <= Place(mode, b)
  {
  }

  // ----- The text of the parts is read as the parts -----

  function ItemOf(member: Member): Item {
    match member case Exactly(c) => One(c) case Between(lo, hi) => Range(lo, hi)
  }

  function ItemsOf(members: seq<Member>): seq<Item> {
    seq(|members|, i requires 0 <= i < |members| => ItemOf(members[i]))
  }

  function TokenOf(part: Part): Token {
    match part
    case Letter(c) => Literal(c)
    case AnyOne => AnyChar
    case AnyRun => Star
    case OneOf(members) => Class(false, ItemsOf(members))
    case NoneOf(_, members) => Class(true, ItemsOf(members))
  }

  function TokensOf(parts: seq<Part>): seq<Token> {
    seq(|parts|, i requires 0 <= i < |parts| => TokenOf(parts[i]))
  }

  lemma WrittenMembersStart(members: seq<Member>, first: bool)
    requires members != [] && ArePlain(members, first)
    ensures WrittenMembers(members) != "" && WrittenMembers(members)[0] == FirstChar(members[0]) != '-'
    ensures !first ==> WrittenMembers(members)[0] != ']'
  {
  }

  /** One member at index `i` of a class, and where the next begins. */
  lemma MemberItem(pattern: string, i: nat, members: seq<Member>, first: bool, after: string)
    requires members != [] && ArePlain(members, first)
    requires i <= |pattern| && pattern[i..] == WrittenMembers(members) + "]" + after
    ensures i < |pattern| && ItemAt(pattern, i) == ItemOf(members[0]) && pattern[i] == FirstChar(members[0])
    ensures i + ItemWidth(pattern, i) <= |pattern|
    ensures pattern[i + ItemWidth(pattern, i)..] == WrittenMembers(members[1..]) + "]" + after
    ensures |WrittenMembers(members)| == ItemWidth(pattern, i) + |WrittenMembers(members[1..])|
  {
    hide ItemWidth, ItemAt;
    var rest := WrittenMembers(members[1..]) + "]" + after;
    if members[1..] != [] { WrittenMembersStart(members[1..], false); }
    assert rest[0] != '-';
    var head := match members[0] case Exactly(c) => [c] case Between(lo, hi) => [lo] + "-" + [hi];
    hide ArePlain;
    assert WrittenMembers(members) == head + WrittenMembers(members[1..]);
    hide WrittenMembers;
    assert pattern[i..] == head + rest;
    HeadItem(pattern, i, head, rest);
  }

  lemma HeadItem(pattern: string, i: nat, head: string, rest: string)
    requires i <= |pattern| && pattern[i..] == head + rest && rest != "" && rest[0] != '-'
    requires |head| == 1 || (|head| == 3 && head[1] == '-' && head[2] != ']')
    ensures i < |pattern| && ItemWidth(pattern, i) == |head| && pattern[i] == head[0]
    ensures ItemAt(pattern, i) == if |head| == 1 then One(head[0]) else Range(head[0], head[2])
    ensures i + |head| <= |pattern| && pattern[i + |head|..] == rest
  {
    assert |pattern| == i + |head| + |rest|;
    assert forall k | 0 <= k < |head| + |rest| :: pattern[i + k] == pattern[i..][k];
    assert pattern[i + |head|..] == pattern[i..][|head|..];
  }

  lemma {:induction false} MembersItems(pattern: string, i: nat, first: nat, members: seq<Member>, after: string)
    requires first <= i && ArePlain(members, i == first) && (i == first ==> members != [])
    requires i <= |pattern| && pattern[i..] == WrittenMembers(members) + "]" + after
    ensures ItemsFrom(pattern, i, first) == Some((ItemsOf(members), i + |WrittenMembers(members)|))
    decreases members
  {
    hide ItemsFrom;
    ItemsStep(pattern, i, first);
    if members == [] {
      assert pattern[i] == pattern[i..][0] == ']';
      assert ItemsOf(members) == [];
    } else {
      WrittenMembersStart(members, i == first);
      MemberItem(pattern, i, members, i == first, after);
      hide WrittenMembers;
      MembersItems(pattern, i + ItemWidth(pattern, i), first, members[1..], after);
      assert ItemsOf(members) == [ItemOf(members[0])] + ItemsOf(members[1..]);
    }
  }

  /** The token a part is read as, and where the next one begins. */
  lemma PartToken(pattern: string, p: nat, part: Part, after: string)
    requires IsReadable(part) && p <= |pattern| && pattern[p..] == WrittenPart(part) + after
    ensures p + |WrittenPart(part)| <= |pattern| && pattern[p + |WrittenPart(part)|..] == after
    ensures Tokens(pattern, p) == [TokenOf(part)] + Tokens(pattern, p + |WrittenPart(part)|)
  {
    hide Tokens, ArePlain, WrittenMembers;
    Beyond(pattern, p, WrittenPart(part), after);
    match part {
      case OneOf(members) =>
        assert pattern[p..] == "[" + "" + WrittenMembers(members) + "]" + after;
        ClassPart(pattern, p, "", members, after);
      case NoneOf(mark, members) =>
        assert pattern[p..] == "[" + [mark] + WrittenMembers(members) + "]" + after;
        ClassPart(pattern, p, [mark], members, after);
      case _ => SingleToken(pattern, p);
    }
  }

  lemma Beyond(pattern: string, p: nat, text: string, after: string)
    requires p <= |pattern| && pattern[p..] == text + after && text != ""
    ensures p + |text| <= |pattern| && pattern[p + |text|..] == after && pattern[p] == text[0]
  {
    assert pattern[p + |text|..] == pattern[p..][|text|..];
    assert pattern[p] == pattern[p..][0];
  }

  lemma SingleToken(pattern: string, p: nat)
    requires p < |pattern| && pattern[p] != '['
    ensures var token := if pattern[p] == '?' then AnyChar else if pattern[p] == '*' then Star else Literal(pattern[p]);
            Tokens(pattern, p) == [token] + Tokens(pattern, p + 1)
  {
  }

  lemma ClassPart(pattern: string, p: nat, mark: string, members: seq<Member>, after: string)
    requires members != [] && ArePlain(members, true)
    requires mark == "!" || mark == "^" ||
             (mark == "" && FirstChar(members[0]) != '!' && FirstChar(members[0]) != '^')
    requires p <= |pattern| && pattern[p..] == "[" + mark + WrittenMembers(members) + "]" + after
    ensures Tokens(pattern, p) == [Class(mark != "", ItemsOf(members))] +
                                  Tokens(pattern, p + 1 + |mark| + |WrittenMembers(members)| + 1)
  {
    hide Tokens, WrittenMembers, ArePlain, ItemsFrom;
    var text := WrittenMembers(members);
    var first := p + 1 + |mark|;
    WrittenMembersStart(members, true);
    ClassStart(pattern, p, mark, text, after);
    MembersItems(pattern, first, first, members, after);
    ClassToken(pattern, p);
  }

  lemma ClassStart(pattern: string, p: nat, mark: string, text: string, after: string)
    requires mark == "!" || mark == "^" || (mark == "" && text != "" && text[0] != '!' && text[0] != '^')
    requires text != "" && p <= |pattern| && pattern[p..] == "[" + mark + text + "]" + after
    ensures p < |pattern| && pattern[p] == '[' && ItemsStart(pattern, p) == p + 1 + |mark| <= |pattern|
    ensures pattern[p + 1 + |mark|..] == text + "]" + after
  {
    Beyond(pattern, p, "[", mark + text + "]" + after);
    assert pattern[p + 1..] == (mark + text)  + ("]" + after);
    Beyond(pattern, p + 1, mark + text, "]" + after);
    if mark != "" { Beyond(pattern, p + 1, mark, text + "]" + after); }
  }

  lemma {:induction false} PartsTokens(pattern: string, p: nat, parts: seq<Part>, after: string)
    requires AreReadable(parts) && p <= |pattern| && pattern[p..] == Written(parts) + after
    ensures p + |Written(parts)| <= |pattern| && pattern[p + |Written(parts)|..] == after
    ensures Tokens(pattern, p) == TokensOf(parts) + Tokens(pattern, p + |Written(parts)|)
    decreases parts
  {
    hide Tokens, IsReadable, WrittenPart;
    if parts == [] {
      assert TokensOf(parts) == [] && pattern[p..] == after;
    } else {
      var rest := Written(parts[1..]) + after;
      assert pattern[p..] == WrittenPart(parts[0]) + rest;
      PartToken(pattern, p, parts[0], rest);
      PartsTokens(pattern, p + |WrittenPart(parts[0])|, parts[1..], after);
      assert TokensOf(parts) == [TokenOf(parts[0])] + TokensOf(parts[1..]);
    }
  }

  // ----- The tokens mean what the parts mean -----

  predicate PartInBytes(part: Part) {
    AreBytes(WrittenPart(part))
  }

  lemma {:induction false} MembersInBytes(members: seq<Member>, k: nat)
    requires AreBytes(WrittenMembers(members)) && k < |members|
    ensures match members[k]
            case Exactly(c) => c as int < 256
            case Between(lo, hi) => lo as int < 256 && hi as int < 256
    decreases members
  {
    var head := match members[0] case Exactly(c) => [c] case Between(lo, hi) => [lo] + "-" + [hi];
    var rest := WrittenMembers(members[1..]);
    assert WrittenMembers(members) == head + rest;
    assert forall i | 0 <= i < |head| :: (head + rest)[i] == head[i];
    assert forall i | 0 <= i < |rest| :: rest[i] == (head + rest)[|head| + i];
    if k > 0 {
      MembersInBytes(members[1..], k - 1);
    } else {
      assert head[0] as int < 256 && (|head| == 3 ==> head[2] as int < 256);
    }
  }

  lemma MembersMean(mode: Mode, members: seq<Member>, c: char)
    requires AreBytes(WrittenMembers(members)) && c as int < 256
    ensures AnyItemMatches(mode, ItemsOf(members), c) <==> IsAmong(mode, members, c)
  {
    hide Norm, Rank, SameLetter, Place, WrittenMembers;
    forall k | 0 <= k < |members| ensures ItemMatches(mode, ItemsOf(members)[k], c) <==> IsMember(mode, members[k], c) {
      MembersInBytes(members, k);
      match members[k] {
        case Exactly(x) => NormIsSameLetter(mode, x, c);
        case Between(lo, hi) =>
          RankIsPlace(mode, lo, c);
          RankIsPlace(mode, c, hi);
      }
    }
    hide ItemMatches, IsMember;
    assert |ItemsOf(members)| == |members|;
  }

  lemma PartMeans(mode: Mode, part: Part, c: char)
    requires AreBytes(WrittenPart(part)) && c as int < 256
    ensures TokenMatches(mode, TokenOf(part), c) <==> Fits(mode, part, c)
  {
    hide AnyItemMatches, IsAmong, WrittenMembers, Norm, SameLetter;
    match part {
      case Letter(x) => NormIsSameLetter(mode, x, c);
      case OneOf(members) =>
        BytesInside("[", WrittenMembers(members), "]");
        MembersMean(mode, members, c);
      case NoneOf(mark, members) =>
        BytesInside("[" + [mark], WrittenMembers(members), "]");
        MembersMean(mode, members, c);
      case _ =>
    }
  }

  lemma BytesInside(a: string, b: string, c: string)
    requires AreBytes(a + b + c)
    ensures AreBytes(b)
  {
    assert forall i | 0 <= i < |b| :: b[i] == (a + b + c)[|a| + i];
  }

  lemma {:induction false} PartsMean(mode: Mode, parts: seq<Part>, subject: string)
    requires AreBytes(Written(parts)) && AreBytes(subject)
    ensures Matches(mode, TokensOf(parts), subject) <==> Means(mode, parts, subject)
    decreases parts
  {
    hide TokenMatches, Fits, WrittenPart;
    if parts != [] {
      assert "" + WrittenPart(parts[0]) + Written(parts[1..]) == Written(parts);
      assert WrittenPart(parts[0]) + Written(parts[1..]) + "" == Written(parts);
      BytesInside("", WrittenPart(parts[0]), Written(parts[1..]));
      BytesInside(WrittenPart(parts[0]), Written(parts[1..]), "");
      assert TokensOf(parts)[1..] == TokensOf(parts[1..]);
      if parts[0] == AnyRun {
        forall k | 0 <= k <= |subject|
          ensures Matches(mode, TokensOf(parts[1..]), subject[k..]) <==> Means(mode, parts[1..], subject[k..]) {
          PartsMean(mode, parts[1..], subject[k..]);
        }
      } else if subject != "" {
        PartMeans(mode, parts[0], subject[0]);
        PartsMean(mode, parts[1..], subject[1..]);
      }
    }
  }

  // ----- The theorems -----

  /** On a subject without stars the matcher decides, from its text, what a pattern means. */
  lemma PatternMeaning(mode: Mode, parts: seq<Part>, subject: string)
    requires AreReadable(parts) && AreBytes(Written(parts)) && AreBytes(subject) && '*' !in subject
    ensures Answer(mode, Written(parts), subject) <==> Means(mode, parts, subject)
  {
    hide *;
    var pattern := Written(parts);
    assert pattern[0..] == pattern + "";
    PartsTokens(pattern, 0, parts, "");
    NoTokens(pattern);
    assert TokensOf(parts) + [] == TokensOf(parts);
    AnswerIsMatching(mode, pattern, subject);
    PartsMean(mode, parts, subject);
  }

  lemma NoTokens(pattern: string)
    ensures Tokens(pattern, |pattern|) == []
  {
  }

  /** A pattern that ends in a class without its closing bracket matches nothing. */
  lemma UnclosedMatchesNothing(mode: Mode, parts: seq<Part>, rest: string, subject: string)
    requires AreReadable(parts) && ']' !in rest && '*' !in subject
    ensures !Answer(mode, Written(parts) + "[" + rest, subject)
  {
    hide *;
    var pattern := Written(parts) + "[" + rest;
    var p := |Written(parts)|;
    assert pattern[0..] == Written(parts) + ("[" + rest);
    PartsTokens(pattern, 0, parts, "[" + rest);
    NeverClosed(pattern, p, rest);
    AnswerIsMatching(mode, pattern, subject);
    UnclosedRefuses(mode, TokensOf(parts), subject);
  }

  lemma NeverClosed(pattern: string, p: nat, rest: string)
    requires p <= |pattern| && pattern[p..] == "[" + rest && ']' !in rest
    ensures Tokens(pattern, p) == [Unclosed]
  {
    assert pattern[p] == pattern[p..][0];
    assert forall i | p < i < |pattern| :: pattern[i] == rest[i - p - 1];
    var first := ItemsStart(pattern, p);
    NoItems(pattern, first, first);
  }

  lemma {:induction false} NoItems(pattern: string, i: nat, first: nat)
    requires forall k | i <= k < |pattern| :: pattern[k] != ']'
    ensures ItemsFrom(pattern, i, first) == None
    decreases |pattern| - i
  {
    hide ItemsFrom;
    ItemsStep(pattern, i, first);
    if i < |pattern| { NoItems(pattern, i + ItemWidth(pattern, i), first); }
  }

  lemma {:induction false} UnclosedRefuses(mode: Mode, tokens: seq<Token>, subject: string)
    ensures !Matches(mode, tokens + [Unclosed], subject)
    decreases tokens
  {
    hide TokenMatches;
    var all := tokens + [Unclosed];
    if tokens == [] {
      assert all[0] == Unclosed && !(subject != "" && TokenMatches(mode, Unclosed, subject[0])) by {
        if subject != "" { ClassMeaning(mode, false, [], subject[0]); }
      }
    } else {
      assert all[1..] == tokens[1..] + [Unclosed];
      forall k | 0 <= k <= |subject| ensures !Matches(mode, all[1..], subject[k..]) {
        UnclosedRefuses(mode, tokens[1..], subject[k..]);
      }
    }
  }

  /** The smallest use: a pattern of plain letters. */
  lemma PlainPattern(mode: Mode, pattern: string, subject: string)
    requires AreBytes(pattern) && AreBytes(subject)
    requires '*' !in pattern && '?' !in pattern && '[' !in pattern && '*' !in subject
    ensures Answer(mode, pattern, subject) <==>
            && |subject| == |pattern|
            && forall i | 0 <= i < |pattern| :: SameLetter(mode.caseSensitive, pattern[i], subject[i])
    ensures mode.caseSensitive ==> (Answer(mode, pattern, subject) <==> subject == pattern)
  {
    var parts := seq(|pattern|, i requires 0 <= i < |pattern| => Letter(pattern[i]));
    LettersAreWritten(pattern, parts);
    PatternMeaning(mode, parts, subject);
    LettersMean(mode, pattern, parts, subject);
    hide Answer, Means;
  }

  lemma {:induction false} LettersAreWritten(pattern: string, parts: seq<Part>)
    requires |parts| == |pattern| && forall i | 0 <= i < |parts| :: parts[i] == Letter(pattern[i])
    requires '*' !in pattern && '?' !in pattern && '[' !in pattern
    ensures Written(parts) == pattern && AreReadable(parts)
    decreases parts
  {
    if parts != [] {
      assert pattern[0] in pattern && forall c :: c in pattern[1..] ==> c in pattern;
      LettersAreWritten(pattern[1..], parts[1..]);
    }
  }

  lemma {:induction false} LettersMean(mode: Mode, pattern: string, parts: seq<Part>, subject: string)
    requires |parts| == |pattern| && forall i | 0 <= i < |parts| :: parts[i] == Letter(pattern[i])
    ensures Means(mode, parts, subject) <==>
            && |subject| == |pattern|
            && forall i | 0 <= i < |pattern| :: SameLetter(mode.caseSensitive, pattern[i], subject[i])
    decreases parts
  {
    hide SameLetter;
    if parts != [] && subject != "" {
      LettersMean(mode, pattern[1..], parts[1..], subject[1..]);
      var rest, more := pattern[1..], subject[1..];
      assert forall i | 0 < i < |pattern| :: pattern[i] == rest[i - 1];
      if |subject| == |pattern| { assert forall i | 0 < i < |subject| :: subject[i] == more[i - 1]; }
      assert forall i | 0 <= i < |rest| && i < |more| :: rest[i] == pattern[i + 1] && more[i] == subject[i + 1];
    }
  }
}

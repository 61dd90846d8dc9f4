/**
 The JSON parser accepts exactly the language of the grammar (desktop/src/core/json/json.cpp): a text is parsed to a
 value if and only if it is the text of some document of JsonGrammar that means the value and keeps within the
 limits.
 */
module JsonLanguage {
  import opened Wrappers
  import opened Utf8
  import opened Numbers
  import opened JsonValues
  import opened JsonText
  import opened JsonGrammar
  import opened JsonReading
  import JsonRoundTrip

  // ----- What is skipped are gaps -----

  lemma {:induction false} LineFound(s: Bytes) returns (text: Bytes)
    ensures s == text + SkipLine(s) && 10 !in text
    ensures SkipLine(s) != [] ==> SkipLine(s)[0] == 10
  {
    if s == [] || s[0] == NEWLINE {
      text := [];
      assert s == [] + SkipLine(s);
    } else {
      var rest := LineFound(s[1..]);
      text := [s[0]] + rest;
      assert s == [s[0]] + s[1..];
    }
  }

  lemma SkipsOne(s: Bytes)
    requires s != [] && !([0x2A, 0x2F] <= s)
    ensures SkipBlock(s) == SkipBlock(s[1..])
  {
    if |s| > 1 { assert s[1..][0] == s[1]; }
  }

  lemma BlockEnds(s: Bytes)
    requires [0x2A, 0x2F] <= s
    ensures SkipBlock(s) == s[2..] && s == [] + [0x2A, 0x2F] + s[2..]
  {
    assert s[1..][0] == s[1];
  }

  lemma NoBlock()
    ensures SkipBlock([]) == [] && !ClosesInside([])
  {
  }

  lemma {:induction false} BlockFound(s: Bytes) returns (text: Bytes, closed: bool)
    ensures !ClosesInside(text) && s == text + (if closed then [0x2A, 0x2F] else []) + SkipBlock(s)
    ensures !closed ==> SkipBlock(s) == []
  {
    hide SkipBlock, ClosesInside;
    NoBlock();
    text, closed := [], false;
    if [0x2A, 0x2F] <= s {
      closed := true;
      BlockEnds(s);
    } else if s != [] {
      SkipsOne(s);
      var rest;
      rest, closed := BlockFound(s[1..]);
      text := [s[0]] + rest;
      assert s == [s[0]] + s[1..];
      if rest != [] { assert rest[0] == s[1]; }
      ClosesLater(s[0], rest);
    }
  }

  lemma ClosesLater(b: Byte, rest: Bytes)
    requires !ClosesInside(rest) && !(b == 0x2A && rest != [] && rest[0] == 0x2F)
    ensures !ClosesInside([b] + rest)
  {
    var text := [b] + rest;
    assert forall i | 0 < i < |text| :: text[i] == rest[i - 1];
  }

  /** What was skipped, as gaps, what is left open and what is left. */
  ghost predicate Splits(comments: bool, s: Bytes, gaps: seq<Gap>, ending: Ending, rest: Bytes) {
    && AreGaps(comments, gaps) && IsEnding(comments, ending)
    && s == PrintedGaps(gaps) + PrintedEnding(ending) + rest
    && (ending != Closed ==> rest == [])
  }

  lemma OneMoreGap(comments: bool, s: Bytes, gap: Gap, t: Bytes, gaps: seq<Gap>, ending: Ending, rest: Bytes)
    requires IsGap(comments, gap) && Splits(comments, t, gaps, ending, rest) && s == PrintedGap(gap) + t
    ensures Splits(comments, s, [gap] + gaps, ending, rest)
  {
    hide IsGap, PrintedGap, PrintedEnding, IsEnding;
    assert ([gap] + gaps)[1..] == gaps;
    assert PrintedGaps([gap] + gaps) == PrintedGap(gap) + PrintedGaps(gaps);
  }

  lemma NoGap(comments: bool, s: Bytes)
    ensures Splits(comments, s, [], Closed, s)
  {
    assert s == [] + [] + s;
  }

  lemma StaysPut(comments: bool, s: Bytes)
    requires s == [] || (!IsBlank(s[0]) && !(comments && |s| > 1 && s[0] == SLASH && (s[1] == SLASH || s[1] == STAR)))
    ensures SkipTrivia(comments, s) == s
  {
  }

  /** skip_trivia skips gaps, and at the end of the input what is left open there. */
  lemma {:induction false} GapsFound(comments: bool, s: Bytes) returns (gaps: seq<Gap>, ending: Ending)
    ensures Splits(comments, s, gaps, ending, SkipTrivia(comments, s))
    decreases |s|
  {
    hide SkipTrivia, Splits;
    gaps, ending := [], Closed;
    if s != [] && IsBlank(s[0]) {
      TriviaStep(comments, s);
      gaps, ending := GapsFound(comments, s[1..]);
      assert s == [s[0]] + s[1..];
      OneMoreGap(comments, s, Blank(s[0]), s[1..], gaps, ending, SkipTrivia(comments, s));
      gaps := [Blank(s[0])] + gaps;
    } else if comments && |s| > 1 && s[0] == SLASH == s[1] {
      gaps, ending := AfterLine(comments, s);
    } else if comments && |s| > 1 && s[0] == SLASH && s[1] == STAR {
      gaps, ending := AfterBlock(comments, s);
    } else {
      StaysPut(comments, s);
      NoGap(comments, s);
    }
  }

  lemma OpenEnd(comments: bool, s: Bytes, ending: Ending)
    requires IsEnding(comments, ending) && s == PrintedEnding(ending)
    ensures Splits(comments, s, [], ending, [])
  {
    assert s == [] + s + [];
  }

  lemma {:induction false} AfterLine(comments: bool, s: Bytes) returns (gaps: seq<Gap>, ending: Ending)
    requires comments && |s| > 1 && s[0] == SLASH == s[1]
    ensures Splits(comments, s, gaps, ending, SkipTrivia(comments, s))
    decreases |s|, 0
  {
    hide SkipLine, SkipTrivia, Splits;
    TriviaStep(comments, s);
    var text := LineFound(s[2..]);
    var rest := SkipLine(s[2..]);
    assert s == [SLASH, SLASH] + text + rest;
    gaps, ending := [], Closed;
    if rest == [] {
      ending := OpenLine(text);
      NothingToSkip(comments);
      OpenEnd(comments, s, ending);
    } else {
      TriviaStep(comments, rest);
      gaps, ending := GapsFound(comments, rest[1..]);
      assert rest == [10] + rest[1..];
      assert s == PrintedGap(Line(text)) + rest[1..];
      OneMoreGap(comments, s, Line(text), rest[1..], gaps, ending, SkipTrivia(comments, s));
      gaps := [Line(text)] + gaps;
    }
  }

  lemma {:induction false} AfterBlock(comments: bool, s: Bytes) returns (gaps: seq<Gap>, ending: Ending)
    requires comments && |s| > 1 && s[0] == SLASH && s[1] == STAR
    ensures Splits(comments, s, gaps, ending, SkipTrivia(comments, s))
    decreases |s|, 0
  {
    hide SkipBlock, SkipTrivia, Splits, ClosesInside;
    TriviaStep(comments, s);
    var text, closed := BlockFound(s[2..]);
    var rest := SkipBlock(s[2..]);
    gaps, ending := [], Closed;
    if closed {
      assert s == [SLASH, STAR] + text + [0x2A, 0x2F] + rest;
      assert s == PrintedGap(Block(text)) + rest;
      gaps, ending := GapsFound(comments, rest);
      OneMoreGap(comments, s, Block(text), rest, gaps, ending, SkipTrivia(comments, s));
      gaps := [Block(text)] + gaps;
    } else {
      assert s == [SLASH, STAR] + text;
      ending := OpenBlock(text);
      NothingToSkip(comments);
      OpenEnd(comments, s, ending);
    }
  }

  lemma NothingToSkip(comments: bool)
    ensures SkipTrivia(comments, []) == []
  {
  }

  /** Where something is left, what was skipped are gaps. */
  lemma GapsBefore(comments: bool, s: Bytes) returns (gaps: seq<Gap>)
    requires SkipTrivia(comments, s) != []
    ensures AreGaps(comments, gaps) && s == PrintedGaps(gaps) + SkipTrivia(comments, s)
  {
    hide SkipTrivia;
    var ending;
    gaps, ending := GapsFound(comments, s);
    assert PrintedGaps(gaps) + [] + SkipTrivia(comments, s) == PrintedGaps(gaps) + SkipTrivia(comments, s);
  }

  // ----- What is read as a string are pieces -----

  lemma CodeFound(s: Bytes)
    requires ReadHex4(s).Success?
    ensures |s| >= 4 && CodeOf(s[..4]) == ReadHex4(s).value && s == s[..4] + s[4..]
  {
    assert s[..4] + s[4..] == s;
    CodeRead(s[..4], s[4..]);
    hide ReadHex4, CodeOf;
  }

  /** One escape: the piece, and what it stands for. */
  lemma UnicodeFound(s: Bytes) returns (piece: Piece)
    requires ReadUnicode(s).Success?
    ensures IsPiece(piece) && IsUnicode(piece)
    ensures [0x5C, 0x75] + s == PrintedPiece(piece) + ReadUnicode(s).value.1
    ensures PieceMeant(piece) ==
            Encode(if IsScalar(ReadUnicode(s).value.0) then ReadUnicode(s).value.0 else REPLACEMENT)
    ensures piece.Code? && IsHighHalf(CodeOf(piece.hex)) ==> !([0x5C, 0x75] <= ReadUnicode(s).value.1)
  {
    hide CodeOf, ReadHex4, Encode, IsScalar;
    FirstCode(s);
    CodeFound(s);
    var hex, rest := s[..4], s[4..];
    if IsHighHalf(CodeOf(hex)) && [0x5C, 0x75] <= rest {
      SecondCode(s);
      CodeFound(rest[2..]);
      hide ReadUnicode;
      var low, tail := rest[2..][..4], rest[2..][4..];
      piece := Pair(hex, low);
      assert s == hex + [0x5C, 0x75] + low + tail;
      assert [0x5C, 0x75] + s == PrintedPiece(piece) + tail;
      PairRead(hex, low, tail);
    } else {
      hide ReadUnicode;
      piece := Code(hex);
      assert [0x5C, 0x75] + s == PrintedPiece(piece) + rest;
      CodeAlone(hex, rest);
    }
  }

  lemma FirstCode(s: Bytes)
    requires ReadUnicode(s).Success?
    ensures ReadHex4(s).Success?
  {
    hide ReadHex4;
  }

  lemma SecondCode(s: Bytes)
    requires ReadUnicode(s).Success? && ReadHex4(s).Success? && IsHighHalf(ReadHex4(s).value)
    requires [0x5C, 0x75] <= s[4..]
    ensures ReadHex4(s[4..][2..]).Success?
  {
    hide ReadHex4;
    assert s[4..][0] == BACKSLASH && s[4..][1] == LETTER_U;
  }

  /** Pieces that a string is made of: their text up to the quote, and their bytes. */
  ghost predicate Spells(s: Bytes, pieces: seq<Piece>, m: Bytes, rest: Bytes) {
    ArePieces(pieces) && s == PrintedPieces(pieces) + ([QUOTE] + rest) && PiecesMeant(pieces) == m
  }

  lemma OneMorePiece(piece: Piece, t: Bytes, pieces: seq<Piece>, m: Bytes, rest: Bytes)
    requires IsPiece(piece) && Spells(t, pieces, m, rest)
    requires piece.Code? && IsHighHalf(CodeOf(piece.hex)) ==> !([0x5C, 0x75] <= t)
    ensures Spells(PrintedPiece(piece) + t, [piece] + pieces, PieceMeant(piece) + m, rest)
  {
    hide CodeOf, PrintedPiece, PieceMeant, IsPiece;
    var all := [piece] + pieces;
    assert all[1..] == pieces;
    assert PrintedPieces(all) + ([QUOTE] + rest) == PrintedPiece(piece) + t;
    if pieces != [] && IsUnicode(pieces[0]) {
      assert t == PrintedPiece(pieces[0]) + (PrintedPieces(pieces[1..]) + ([QUOTE] + rest));
      UnicodeStarts(pieces[0], PrintedPieces(pieces[1..]) + ([QUOTE] + rest));
    }
  }

  lemma UnicodeStarts(piece: Piece, rest: Bytes)
    requires IsUnicode(piece)
    ensures [0x5C, 0x75] <= PrintedPiece(piece) + rest
  {
  }

  /** One step of parse_string that goes on: the piece it reads. */
  lemma PieceFound(s: Bytes, out: Bytes) returns (piece: Piece, t: Bytes)
    requires ReadChars(s, out).Success? && s != [] && s[0] != QUOTE
    ensures IsPiece(piece) && s == PrintedPiece(piece) + t && |t| < |s|
    ensures ReadChars(s, out) == ReadChars(t, out + PieceMeant(piece))
    ensures piece.Code? && IsHighHalf(CodeOf(piece.hex)) ==> !([0x5C, 0x75] <= t)
  {
    hide CodeOf, ReadUnicode, Encode, WalkIsClean;
    if s[0] != BACKSLASH {
      piece, t := Raw(s[0]), s[1..];
    } else if s[1] == LETTER_U {
      piece := UnicodeFound(s[2..]);
      t := ReadUnicode(s[2..]).value.1;
      assert s == [0x5C, 0x75] + s[2..];
    } else {
      piece, t := Letter(s[1]), s[2..];
    }
  }

  lemma {:induction false} PiecesFound(s: Bytes, out: Bytes) returns (pieces: seq<Piece>)
    requires ReadChars(s, out).Success?
    ensures var (m, rest) := ReadChars(s, out).value;
      && out <= m && IsUtf8(m) && Spells(s, pieces, m[|out|..], rest)
    decreases |s|
  {
    hide Spells, ReadUnicode, PrintedPiece, PieceMeant, IsPiece, WalkIsClean, IsUtf8;
    if s[0] == QUOTE {
      pieces := [];
      CleanWalkIsUtf8(out);
      NothingSpelled(s);
      assert out[|out|..] == [];
    } else {
      var piece, t := PieceFound(s, out);
      hide ReadChars;
      var rest := PiecesFound(t, out + PieceMeant(piece));
      pieces := [piece] + rest;
      var m := ReadChars(s, out).value.0;
      assert m[|out|..] == PieceMeant(piece) + m[|out + PieceMeant(piece)|..];
      OneMorePiece(piece, t, rest, m[|out + PieceMeant(piece)|..], ReadChars(s, out).value.1);
    }
  }

  lemma NothingSpelled(s: Bytes)
    requires s != [] && s[0] == QUOTE
    ensures Spells(s, [], [], s[1..])
  {
    assert s == [] + ([QUOTE] + s[1..]);
  }

  lemma StringFound(s: Bytes) returns (pieces: seq<Piece>)
    requires Begins(s, QUOTE) && ReadChars(s[1..], []).Success?
    ensures var (m, rest) := ReadChars(s[1..], []).value;
      IsString(pieces) && s == PrintedString(pieces) + rest && StringMeant(pieces) == TextOf(m)
  {
    hide ReadChars, IsUtf8, ArePieces, PrintedPieces, PiecesMeant;
    pieces := PiecesFound(s[1..], []);
    var m, rest := ReadChars(s[1..], []).value.0, ReadChars(s[1..], []).value.1;
    assert m[0..] == m;
    SpelledOut(s, pieces, m, rest);
  }

  lemma SpelledOut(s: Bytes, pieces: seq<Piece>, m: Bytes, rest: Bytes)
    requires Begins(s, QUOTE) && Spells(s[1..], pieces, m, rest) && IsUtf8(m)
    ensures IsString(pieces) && s == PrintedString(pieces) + rest && StringMeant(pieces) == TextOf(m)
  {
    hide IsUtf8, ArePieces, PrintedPieces, PiecesMeant;
    assert s == [QUOTE] + s[1..];
  }

  // ----- Numbers -----

  lemma NumberFound(s: Bytes, n: nat)
    requires ScanNumber(s) == Success(n)
    ensures n <= |s| && IsNumber(s[..n])
  {
    hide ScanInteger, ScanFraction, ScanExponent, IsWhole, IsFraction, IsExponent;
    var sign := if Begins(s, MINUS) then 1 else 0;
    var i := ScanInteger(s[sign..]).value;
    var f := ScanFraction(s[sign + i..]).value;
    var x := ScanExponent(s[sign + i + f..]).value;
    hide ScanNumber, Begins;
    WholeOf(s[sign..], i);
    FractionOf(s[sign + i..], f);
    ExponentOf(s[sign + i + f..], x);
    assert IsSign(s[..sign]) by { SignOf(s); }
    var w, fr, e := s[sign..][..i], s[sign + i..][..f], s[sign + i + f..][..x];
    Parts(s, sign, i, f, x);
    assert IsNumberOf(s[..n], s[..sign], w, fr, e);
  }

  lemma Parts(t: Bytes, a: nat, i: nat, f: nat, x: nat)
    requires a + i + f + x <= |t|
    ensures t[..a + i + f + x] == t[..a] + t[a..][..i] + t[a + i..][..f] + t[a + i + f..][..x]
  {
    Extends(t, a, i);
    Extends(t, a + i, f);
    Extends(t, a + i + f, x);
  }

  lemma Extends(t: Bytes, a: nat, i: nat)
    requires a + i <= |t|
    ensures t[..a + i] == t[..a] + t[a..][..i]
  {
  }

  // ----- Between items and members -----

  /** A separator that goes on: gaps, a comma and what follows it. */
  lemma CommaFound(limits: Limits, u: Bytes, close: Byte, missing: JsonError) returns (gaps: seq<Gap>, after: Bytes)
    requires ReadSeparator(limits, u, close, missing).Success? && ReadSeparator(limits, u, close, missing).value.0
    ensures AreGaps(limits.comments, gaps) && u == PrintedGaps(gaps) + ([COMMA] + after)
    ensures SkipTrivia(limits.comments, after) == ReadSeparator(limits, u, close, missing).value.1
    ensures |ReadSeparator(limits, u, close, missing).value.1| <= |after|
  {
    hide SkipTrivia;
    var t := SkipTrivia(limits.comments, u);
    gaps := GapsBefore(limits.comments, u);
    after := t[1..];
    assert t == [COMMA] + after;
  }

  /** How a separator closes. */
  lemma ClosingCases(limits: Limits, u: Bytes, close: Byte, missing: JsonError)
    requires ReadSeparator(limits, u, close, missing).Success? && !ReadSeparator(limits, u, close, missing).value.0
    ensures var t, rest := SkipTrivia(limits.comments, u), ReadSeparator(limits, u, close, missing).value.1;
      && t != []
      && if t[0] == COMMA then
           var v := SkipTrivia(limits.comments, t[1..]);
           limits.trailingCommas && v != [] && v[0] == close && v[1..] == rest
         else t[0] == close && t[1..] == rest
  {
    hide SkipTrivia;
  }

  lemma HeadAndTail(t: Bytes, b: Byte)
    requires t != [] && t[0] == b
    ensures t == [b] + t[1..]
  {
  }

  /** A separator that closes: gaps and the bracket, perhaps behind a comma. */
  lemma CloseFound(limits: Limits, u: Bytes, close: Byte, missing: JsonError)
    returns (gaps: seq<Gap>, trailing: bool, last: seq<Gap>)
    requires ReadSeparator(limits, u, close, missing).Success? && !ReadSeparator(limits, u, close, missing).value.0
    requires close == CLOSE_ARRAY || close == CLOSE_OBJECT
    ensures AreGaps(limits.comments, gaps) && AreGaps(limits.comments, last)
    ensures if trailing then limits.trailingCommas else last == []
    ensures u == PrintedGaps(gaps) + Close(trailing, last, close, ReadSeparator(limits, u, close, missing).value.1)
  {
    hide *;
    ClosingCases(limits, u, close, missing);
    var t, rest := SkipTrivia(limits.comments, u), ReadSeparator(limits, u, close, missing).value.1;
    gaps := GapsBefore(limits.comments, u);
    last, trailing := [], t[0] == COMMA;
    if trailing {
      last := GapsBefore(limits.comments, t[1..]);
      HeadAndTail(t, COMMA);
      HeadAndTail(SkipTrivia(limits.comments, t[1..]), close);
      CloseBehindComma(last, close, rest);
    } else {
      HeadAndTail(t, close);
      CloseAlone(limits.comments, close, rest);
    }
  }

  lemma CloseBehindComma(last: seq<Gap>, close: Byte, rest: Bytes)
    ensures Close(true, last, close, rest) == [COMMA] + (PrintedGaps(last) + ([close] + rest))
  {
    hide PrintedGaps;
  }

  lemma CloseAlone(comments: bool, close: Byte, rest: Bytes)
    ensures Close(false, [], close, rest) == [close] + rest && AreGaps(comments, [])
  {
    assert [] + [] + ([close] + rest) == [close] + rest;
  }

  // ----- Values -----

  /** A value of the grammar stands at the front of the text and has these limits. */
  ghost predicate Stands(platform: Platform, limits: Limits, s: Syntax, t: Bytes, p: Parsed, depth: nat, n: nat) {
    && IsSyntax(DialectOf(platform, limits), s) && t == Printed(s) + p.rest
    && Meant(s) == p.value && p.elements == n + Count(s) <= limits.maxElements
    && FitsLevels(s, limits.maxDepth - depth)
  }

  /** Items up to the closing bracket of their array. */
  ghost predicate ItemsStand(platform: Platform, limits: Limits, items: seq<Item>, trailing: bool, last: seq<Gap>,
                             w: Bytes, p: Parsed, depth: nat, n: nat, done: seq<Json>) {
    && items != [] && AreItems(DialectOf(platform, limits), items)
    && AreGaps(limits.comments, last) && (if trailing then limits.trailingCommas else last == [])
    && w == PrintedItems(items) + Close(trailing, last, CLOSE_ARRAY, p.rest)
    && p.value == Arr(done + ItemsMeant(items)) && p.elements == n + CountItems(items) <= limits.maxElements
    && ItemsFit(items, limits.maxDepth - depth - 1)
  }

  /** parse_value before it looks at the first byte. */
  lemma ValueLimits(platform: Platform, limits: Limits, u: Bytes, depth: nat, n: nat)
    requires ReadValue(platform, limits, u, depth, n).Success?
    ensures depth <= limits.maxDepth && n + 1 <= limits.maxElements && SkipTrivia(limits.comments, u) != []
  {
    hide SkipTrivia, ReadObject, ReadArray, ReadChars, ReadLiteral, ReadNumber;
  }

  /** What is left to parse_number begins with a digit or a minus sign, or it fails. */
  lemma NumberElse(platform: Platform, limits: Limits, u: Bytes, t: Bytes, depth: nat, n: nat)
    requires ReadValue(platform, limits, u, depth, n).Success?
    requires t == SkipTrivia(limits.comments, u) && t != [] && t[0] != OPEN_OBJECT && t[0] != OPEN_ARRAY
    requires t[0] != QUOTE && t[0] != 0x74 && t[0] != 0x66 && t[0] != 0x6E
    ensures ReadValue(platform, limits, u, depth, n) == ReadNumber(platform, t, n + 1)
  {
    hide SkipTrivia, ReadObject, ReadArray, ReadChars, ReadLiteral, ReadNumber;
  }

  lemma LiteralFound(platform: Platform, limits: Limits, word: Bytes, s: Syntax, t: Bytes, depth: nat, n: nat)
    requires ReadLiteral(word, Meant(s), t, n + 1).Success? && (s.NullS? || s.BoolS?) && Printed(s) == word
    requires depth <= limits.maxDepth && n + 1 <= limits.maxElements
    ensures Stands(platform, limits, s, t, ReadLiteral(word, Meant(s), t, n + 1).value, depth, n)
  {
    assert t == word + t[|word|..];
  }

  lemma NumberIsFound(platform: Platform, limits: Limits, t: Bytes, depth: nat, n: nat) returns (s: Syntax)
    requires ReadNumber(platform, t, n + 1).Success? && depth <= limits.maxDepth && n + 1 <= limits.maxElements
    ensures Stands(platform, limits, s, t, ReadNumber(platform, t, n + 1).value, depth, n)
  {
    var length := ScanNumber(t).value;
    NumberFound(t, length);
    hide ScanNumber, IsNumber, Trim;
    var text := t[..length];
    NumberIsTrim(text);
    s := NumberS(text, ReadDouble(platform, text).value);
    assert t == text + t[length..];
  }

  lemma TextFound(platform: Platform, limits: Limits, t: Bytes, depth: nat, n: nat) returns (s: Syntax)
    requires Begins(t, QUOTE) && ReadChars(t[1..], []).Success?
    requires depth <= limits.maxDepth && n + 1 <= limits.maxElements
    ensures var (m, rest) := ReadChars(t[1..], []).value;
            Stands(platform, limits, s, t, Parsed(Str(TextOf(m)), rest, n + 1), depth, n)
  {
    var pieces := StringFound(t);
    s := TextS(pieces);
    hide ReadChars, IsString, PrintedString, StringMeant;
  }

  lemma ListStands(platform: Platform, limits: Limits, items: seq<Item>, trailing: bool, last: seq<Gap>, t: Bytes,
                   p: Parsed, depth: nat, n: nat)
    requires Begins(t, OPEN_ARRAY) && depth <= limits.maxDepth
    requires ItemsStand(platform, limits, items, trailing, last, t[1..], p, depth, n + 1, [])
    ensures Stands(platform, limits, ListS(items, trailing, last), t, p, depth, n)
  {
    hide AreItems, AreGaps, PrintedItems, PrintedLast, ItemsMeant, CountItems, ItemsFit, DialectOf, Begins;
    DialectIs(platform, limits);
    BeginsIs(t, OPEN_ARRAY);
    assert [] + ItemsMeant(items) == ItemsMeant(items);
    assert t == [OPEN_ARRAY] + t[1..];
    assert t == [OPEN_ARRAY] + PrintedItems(items) + PrintedLast(trailing, last) + [CLOSE_ARRAY] + p.rest;
  }

  lemma EmptyListStands(platform: Platform, limits: Limits, gaps: seq<Gap>, t: Bytes, rest: Bytes, depth: nat, n: nat)
    requires AreGaps(limits.comments, gaps) && t == [OPEN_ARRAY] + PrintedGaps(gaps) + [CLOSE_ARRAY] + rest
    requires depth <= limits.maxDepth && n + 1 <= limits.maxElements
    ensures Stands(platform, limits, ListS([], false, gaps), t, Parsed(Arr([]), rest, n + 1), depth, n)
  {
    hide AreGaps, PrintedGaps;
    var s := ListS([], false, gaps);
    assert IsSyntax(DialectOf(platform, limits), s);
    assert Printed(s) == [OPEN_ARRAY] + [] + ([] + PrintedGaps(gaps)) + [CLOSE_ARRAY];
    assert t == Printed(s) + rest;
    assert Meant(s) == Arr([]);
    assert Count(s) == 1;
    assert FitsLevels(s, limits.maxDepth - depth);
  }

  lemma {:induction false} ValueFound(platform: Platform, limits: Limits, u: Bytes, depth: nat, n: nat)
    returns (s: Syntax)
    requires ReadValue(platform, limits, u, depth, n).Success?
    ensures Stands(platform, limits, s, SkipTrivia(limits.comments, u),
                   ReadValue(platform, limits, u, depth, n).value, depth, n)
    decreases |u|, 3
  {
    hide *;
    ValueLimits(platform, limits, u, depth, n);
    var t := SkipTrivia(limits.comments, u);
    ValueStarts(platform, limits, u, t, depth, n);
    BeginsIs(t, QUOTE);
    BeginsIs(t, OPEN_ARRAY);
    BeginsIs(t, OPEN_OBJECT);
    if t[0] == OPEN_OBJECT {
      s := ObjectFound(platform, limits, t, depth, n);
    } else if t[0] == OPEN_ARRAY {
      s := ListFound(platform, limits, t, depth, n);
    } else if t[0] == QUOTE {
      s := TextFound(platform, limits, t, depth, n);
    } else if t[0] == 0x74 {
      s := BoolS(true);
      Words();
      LiteralFound(platform, limits, TRUE_WORD, s, t, depth, n);
    } else if t[0] == 0x66 {
      s := BoolS(false);
      Words();
      LiteralFound(platform, limits, FALSE_WORD, s, t, depth, n);
    } else if t[0] == 0x6E {
      s := NullS;
      Words();
      LiteralFound(platform, limits, NULL_WORD, s, t, depth, n);
    } else {
      NumberElse(platform, limits, u, t, depth, n);
      s := NumberIsFound(platform, limits, t, depth, n);
    }
  }

  lemma Words()
    ensures Printed(NullS) == NULL_WORD && Meant(NullS) == Null
    ensures Printed(BoolS(true)) == TRUE_WORD && Printed(BoolS(false)) == FALSE_WORD
    ensures Meant(BoolS(true)) == Bool(true) && Meant(BoolS(false)) == Bool(false)
  {
  }

  lemma {:induction false} ListFound(platform: Platform, limits: Limits, t: Bytes, depth: nat, n: nat)
    returns (s: Syntax)
    requires Begins(t, OPEN_ARRAY) && ReadArray(platform, limits, t[1..], depth, n + 1).Success?
    requires depth <= limits.maxDepth && n + 1 <= limits.maxElements
    ensures Stands(platform, limits, s, t, ReadArray(platform, limits, t[1..], depth, n + 1).value, depth, n)
    decreases |t|, 2
  {
    hide *;
    BeginsIs(t, OPEN_ARRAY);
    var inside := t[1..];
    ArrayRead(platform, limits, inside, depth, n + 1);
    var v := SkipTrivia(limits.comments, inside);
    BeginsIs(v, CLOSE_ARRAY);
    assert t == [OPEN_ARRAY] + inside;
    if Begins(v, CLOSE_ARRAY) {
      var gaps := GapsBefore(limits.comments, inside);
      assert v == [CLOSE_ARRAY] + v[1..];
      EmptyListStands(platform, limits, gaps, t, v[1..], depth, n);
      s := ListS([], false, gaps);
    } else {
      SkippedStays(limits.comments, inside);
      var items, trailing, last := ItemsFound(platform, limits, inside, v, depth, n + 1, []);
      s := ListS(items, trailing, last);
      ListStands(platform, limits, items, trailing, last, t,
                 ReadItems(platform, limits, v, depth, n + 1, []).value, depth, n);
    }
  }

  lemma ItemSucceeds(platform: Platform, limits: Limits, u: Bytes, depth: nat, n: nat, done: seq<Json>)
    requires ReadItems(platform, limits, u, depth, n, done).Success?
    ensures ReadValue(platform, limits, u, depth + 1, n).Success?
    ensures var p := ReadValue(platform, limits, u, depth + 1, n).value;
      && ReadSeparator(limits, p.rest, CLOSE_ARRAY, ExpectedCommaOrBracket).Success?
      && |p.rest| < |u|
  {
    hide ReadValue, ReadSeparator;
  }

  lemma StandingItem(platform: Platform, limits: Limits, item: Item, t: Bytes, p: Parsed, depth: nat, n: nat)
    requires AreGaps(limits.comments, item.before) && AreGaps(limits.comments, item.after)
    requires Stands(platform, limits, item.value, t, p, depth, n)
    ensures IsItem(DialectOf(platform, limits), item) && FitsLevels(item.value, limits.maxDepth - depth)
    ensures Meant(item.value) == p.value && p.elements == n + Count(item.value) <= limits.maxElements
    ensures PrintedItem(item) == PrintedGaps(item.before) + Printed(item.value) + PrintedGaps(item.after)
  {
    hide AreGaps, PrintedGaps, Printed, IsSyntax, Meant, Count, FitsLevels;
  }

  lemma ItemsAssembled(platform: Platform, limits: Limits, items: seq<Item>, levels: int)
    requires items != []
    ensures AreItems(DialectOf(platform, limits), items) <==>
            IsItem(DialectOf(platform, limits), items[0]) && AreItems(DialectOf(platform, limits), items[1..])
    ensures ItemsFit(items, levels) <==> FitsLevels(items[0].value, levels) && ItemsFit(items[1..], levels)
    ensures AreItems(DialectOf(platform, limits), []) && ItemsFit([], levels)
  {
    hide IsItem, FitsLevels;
  }

  lemma LastItemStands(platform: Platform, limits: Limits, item: Item, trailing: bool, last: seq<Gap>, w: Bytes,
                       rest: Bytes, p: Parsed, depth: nat, n: nat, done: seq<Json>)
    requires AreGaps(limits.comments, item.before) && AreGaps(limits.comments, item.after)
    requires Stands(platform, limits, item.value, Printed(item.value) + p.rest, p, depth + 1, n)
    requires w == PrintedGaps(item.before) + (Printed(item.value) + p.rest)
    requires p.rest == PrintedGaps(item.after) + Close(trailing, last, CLOSE_ARRAY, rest)
    requires AreGaps(limits.comments, last) && if trailing then limits.trailingCommas else last == []
    ensures ItemsStand(platform, limits, [item], trailing, last, w,
                       Parsed(Arr(done + [p.value]), rest, p.elements), depth, n, done)
  {
    hide IsItem, AreItems, AreGaps, PrintedGaps, Printed, PrintedItem, PrintedItems, IsSyntax, Meant, Count, FitsLevels;
    hide ItemsMeant, CountItems, Close, Stands, PrintedMoreItems, ItemsFit, DialectOf;
    var items := [item];
    assert items[1..] == [];
    StandingItem(platform, limits, item, Printed(item.value) + p.rest, p, depth + 1, n);
    ItemsUnfold(DialectOf(platform, limits), items, limits.maxDepth - depth - 1);
    ItemsAssembled(platform, limits, items, limits.maxDepth - depth - 1);
    assert PrintedItems(items) == PrintedItem(item) + [];
    assert PrintedItems(items) + Close(trailing, last, CLOSE_ARRAY, rest) == w;
    assert ItemsMeant(items) == [p.value] + [];
  }

  lemma MoreItemsStand(platform: Platform, limits: Limits, item: Item, more: seq<Item>, trailing: bool, last: seq<Gap>,
                       w: Bytes, after: Bytes, p: Parsed, q: Parsed, depth: nat, n: nat, done: seq<Json>)
    requires AreGaps(limits.comments, item.before) && AreGaps(limits.comments, item.after)
    requires Stands(platform, limits, item.value, Printed(item.value) + p.rest, p, depth + 1, n)
    requires w == PrintedGaps(item.before) + (Printed(item.value) + p.rest)
    requires p.rest == PrintedGaps(item.after) + ([COMMA] + after)
    requires ItemsStand(platform, limits, more, trailing, last, after, q, depth, p.elements, done + [p.value])
    ensures ItemsStand(platform, limits, [item] + more, trailing, last, w, q, depth, n, done)
  {
    hide IsItem, AreItems, AreGaps, PrintedGaps, Printed, PrintedItem, PrintedItems, IsSyntax, Meant, Count, FitsLevels;
    hide ItemsMeant, CountItems, Close, Stands, PrintedMoreItems, ItemsFit, DialectOf;
    var items, close := [item] + more, Close(trailing, last, CLOSE_ARRAY, q.rest);
    assert items[1..] == more && items[0] == item;
    StandingItem(platform, limits, item, Printed(item.value) + p.rest, p, depth + 1, n);
    ItemsUnfold(DialectOf(platform, limits), items, limits.maxDepth - depth - 1);
    ItemsAssembled(platform, limits, items, limits.maxDepth - depth - 1);
    assert PrintedItems(items) == PrintedItem(item) + ([COMMA] + PrintedItems(more));
    assert PrintedItems(items) + close == w;
    assert done + ([p.value] + ItemsMeant(more)) == (done + [p.value]) + ItemsMeant(more);
  }

  lemma {:induction false} ItemsFound(
      platform: Platform, limits: Limits, w: Bytes, u: Bytes, depth: nat, n: nat, done: seq<Json>)
    returns (items: seq<Item>, trailing: bool, last: seq<Gap>)
    requires ReadItems(platform, limits, u, depth, n, done).Success?
    requires SkipTrivia(limits.comments, w) == SkipTrivia(limits.comments, u)
    ensures ItemsStand(platform, limits, items, trailing, last, w,
                       ReadItems(platform, limits, u, depth, n, done).value, depth, n, done)
    decreases |u|, 4
  {
    hide *;
    ItemSucceeds(platform, limits, u, depth, n, done);
    var p := ReadValue(platform, limits, u, depth + 1, n).value;
    ItemRound(platform, limits, u, depth, n, done, p);
    var s := ValueFound(platform, limits, u, depth + 1, n);
    ValueLimits(platform, limits, u, depth + 1, n);
    var before := GapsBefore(limits.comments, w);
    TextOfValue(platform, limits, s, SkipTrivia(limits.comments, u), p, depth + 1, n);
    if ReadSeparator(limits, p.rest, CLOSE_ARRAY, ExpectedCommaOrBracket).value.0 {
      var gaps, after := CommaFound(limits, p.rest, CLOSE_ARRAY, ExpectedCommaOrBracket);
      var next := ReadSeparator(limits, p.rest, CLOSE_ARRAY, ExpectedCommaOrBracket).value.1;
      SkippedStays(limits.comments, after);
      var more;
      more, trailing, last := ItemsFound(platform, limits, after, next, depth, p.elements, done + [p.value]);
      items := [Item(before, s, gaps)] + more;
      MoreItemsStand(platform, limits, Item(before, s, gaps), more, trailing, last, w, after, p,
                     ReadItems(platform, limits, next, depth, p.elements, done + [p.value]).value, depth, n, done);
    } else {
      var gaps;
      gaps, trailing, last := CloseFound(limits, p.rest, CLOSE_ARRAY, ExpectedCommaOrBracket);
      items := [Item(before, s, gaps)];
      LastItemStands(platform, limits, items[0], trailing, last, w,
                     ReadSeparator(limits, p.rest, CLOSE_ARRAY, ExpectedCommaOrBracket).value.1, p, depth, n, done);
    }
  }

  lemma TextOfValue(platform: Platform, limits: Limits, s: Syntax, t: Bytes, p: Parsed, depth: nat, n: nat)
    requires Stands(platform, limits, s, t, p, depth, n)
    ensures t == Printed(s) + p.rest
  {
    hide IsSyntax, Printed, Meant, Count, FitsLevels;
  }

  // ----- Objects -----

  /** Members up to the closing brace of their object. */
  ghost predicate MembersStand(platform: Platform, limits: Limits, members: seq<Member>, trailing: bool,
                               last: seq<Gap>, w: Bytes, p: Parsed, depth: nat, n: nat, before: map<string, Json>) {
    && members != [] && AreMembers(DialectOf(platform, limits), members) && AreNew(members, before)
    && AreGaps(limits.comments, last) && (if trailing then limits.trailingCommas else last == [])
    && w == PrintedMembers(members) + Close(trailing, last, CLOSE_OBJECT, p.rest)
    && p.value == Obj(MembersMeant(members, before)) && p.elements == n + CountMembers(members) <= limits.maxElements
    && MembersFit(members, limits.maxDepth - depth - 1)
  }

  /** A name, its colon and the gaps around it. */
  lemma NameFound(limits: Limits, w: Bytes, u: Bytes) returns (gaps: seq<Gap>, name: seq<Piece>, after: seq<Gap>)
    requires ReadName(limits, u).Success? && SkipTrivia(limits.comments, w) == SkipTrivia(limits.comments, u)
    ensures AreGaps(limits.comments, gaps) && IsString(name) && AreGaps(limits.comments, after)
    ensures StringMeant(name) == ReadName(limits, u).value.0
    ensures w == PrintedGaps(gaps) + PrintedString(name) + PrintedGaps(after) + [COLON] + ReadName(limits, u).value.1
  {
    hide SkipTrivia, ReadChars, IsString, PrintedString, StringMeant, PrintedGaps, AreGaps;
    var t := SkipTrivia(limits.comments, u);
    gaps := GapsBefore(limits.comments, w);
    name := StringFound(t);
    var rest := ReadChars(t[1..], []).value.1;
    after := GapsBefore(limits.comments, rest);
    var v := SkipTrivia(limits.comments, rest);
    assert v == [COLON] + v[1..];
  }

  lemma MemberSucceeds(platform: Platform, limits: Limits, u: Bytes, depth: nat, n: nat, before: map<string, Json>)
    requires ReadMembers(platform, limits, u, depth, n, before).Success?
    ensures ReadName(limits, u).Success? && ReadName(limits, u).value.0 !in before
    ensures var afterName := ReadName(limits, u).value.1;
      && |afterName| < |u| && ReadValue(platform, limits, afterName, depth + 1, n).Success?
      && var p := ReadValue(platform, limits, afterName, depth + 1, n).value;
         ReadSeparator(limits, p.rest, CLOSE_OBJECT, ExpectedCommaOrBrace).Success? && |p.rest| < |u|
  {
    hide ReadValue, ReadSeparator, ReadName;
  }

  lemma MembersAssembled(platform: Platform, limits: Limits, members: seq<Member>, levels: int)
    requires members != []
    ensures AreMembers(DialectOf(platform, limits), members) <==>
            IsMember(DialectOf(platform, limits), members[0]) && AreMembers(DialectOf(platform, limits), members[1..])
    ensures MembersFit(members, levels) <==>
            FitsLevels(members[0].item.value, levels) && MembersFit(members[1..], levels)
    ensures AreMembers(DialectOf(platform, limits), []) && MembersFit([], levels)
  {
    hide IsMember, FitsLevels;
  }

  lemma StandingMember(dialect: Dialect, member: Member)
    requires AreGaps(dialect.comments, member.before) && AreGaps(dialect.comments, member.after)
    requires IsString(member.name)
    requires IsItem(dialect, member.item)
    ensures IsMember(dialect, member)
    ensures PrintedMember(member) == PrintedGaps(member.before) + PrintedString(member.name) +
                                     PrintedGaps(member.after) + [COLON] + PrintedItem(member.item)
  {
    hide IsItem, PrintedItem, IsString, PrintedString;
  }

  lemma NewWith(member: Member, more: seq<Member>, before: map<string, Json>, v: Json)
    requires StringMeant(member.name) !in before && AreNew(more, before[StringMeant(member.name) := v])
    ensures AreNew([member] + more, before)
  {
    hide StringMeant;
    var all := [member] + more;
    assert forall i | 0 < i < |all| :: all[i] == more[i - 1];
  }

  /** A member whose value stands, and what its object goes on with. */
  ghost predicate MemberStands(platform: Platform, limits: Limits, member: Member, w: Bytes, p: Parsed, depth: nat,
                               n: nat) {
    && IsMember(DialectOf(platform, limits), member) && FitsLevels(member.item.value, limits.maxDepth - depth - 1)
    && Meant(member.item.value) == p.value && p.elements == n + Count(member.item.value) <= limits.maxElements
    && w == PrintedMember(member)
  }

  lemma LastMemberStands(platform: Platform, limits: Limits, member: Member, trailing: bool, last: seq<Gap>, w: Bytes,
                         rest: Bytes, p: Parsed, depth: nat, n: nat, before: map<string, Json>)
    requires MemberStands(platform, limits, member, w, p, depth, n) && StringMeant(member.name) !in before
    requires AreGaps(limits.comments, last) && if trailing then limits.trailingCommas else last == []
    ensures MembersStand(platform, limits, [member], trailing, last, w + Close(trailing, last, CLOSE_OBJECT, rest),
                         Parsed(Obj(before[StringMeant(member.name) := p.value]), rest, p.elements), depth, n, before)
  {
    hide IsMember, AreMembers, AreGaps, PrintedMember, PrintedMembers, Meant, Count, FitsLevels, MembersFit;
    hide MembersMeant, CountMembers, Close, PrintedMoreMembers, StringMeant, DialectOf, AreNew;
    var members := [member];
    assert members[1..] == [];
    MembersUnfold(DialectOf(platform, limits), members, before, limits.maxDepth - depth - 1);
    MembersAssembled(platform, limits, members, limits.maxDepth - depth - 1);
    NoneNew(before[StringMeant(member.name) := p.value]);
    NewWith(member, [], before, p.value);
    assert [member] + [] == members;
    assert PrintedMembers(members) == PrintedMember(member) + [];
  }

  lemma NoneNew(before: map<string, Json>)
    ensures AreNew([], before)
  {
  }

  lemma MoreMembersStand(platform: Platform, limits: Limits, member: Member, more: seq<Member>, trailing: bool,
                         last: seq<Gap>, w: Bytes, after: Bytes, p: Parsed, q: Parsed, depth: nat, n: nat,
                         before: map<string, Json>)
    requires MemberStands(platform, limits, member, w, p, depth, n) && StringMeant(member.name) !in before
    requires MembersStand(platform, limits, more, trailing, last, after, q, depth, p.elements,
                          before[StringMeant(member.name) := p.value])
    ensures MembersStand(platform, limits, [member] + more, trailing, last, w + ([COMMA] + after), q, depth, n, before)
  {
    hide IsMember, AreMembers, AreGaps, PrintedMember, PrintedMembers, Meant, Count, FitsLevels, MembersFit;
    hide MembersMeant, CountMembers, Close, PrintedMoreMembers, StringMeant, DialectOf, AreNew;
    var members, close := [member] + more, Close(trailing, last, CLOSE_OBJECT, q.rest);
    assert members[1..] == more && members[0] == member;
    MembersUnfold(DialectOf(platform, limits), members, before, limits.maxDepth - depth - 1);
    MembersAssembled(platform, limits, members, limits.maxDepth - depth - 1);
    NewWith(member, more, before, p.value);
    assert PrintedMembers(members) == PrintedMember(member) + ([COMMA] + PrintedMembers(more));
    assert PrintedMembers(members) + close == w + ([COMMA] + after);
  }

  lemma {:induction false} MembersFound(
      platform: Platform, limits: Limits, w: Bytes, u: Bytes, depth: nat, n: nat, before: map<string, Json>)
    returns (members: seq<Member>, trailing: bool, last: seq<Gap>)
    requires ReadMembers(platform, limits, u, depth, n, before).Success?
    requires SkipTrivia(limits.comments, w) == SkipTrivia(limits.comments, u)
    ensures MembersStand(platform, limits, members, trailing, last, w,
                         ReadMembers(platform, limits, u, depth, n, before).value, depth, n, before)
    decreases |u|, 4
  {
    hide *;
    MemberSucceeds(platform, limits, u, depth, n, before);
    var name, afterName := ReadName(limits, u).value.0, ReadName(limits, u).value.1;
    var p := ReadValue(platform, limits, afterName, depth + 1, n).value;
    MemberRound(platform, limits, u, depth, n, before, name, afterName, p);
    var front, pieces, beforeColon := NameFound(limits, w, u);
    var s := ValueFound(platform, limits, afterName, depth + 1, n);
    ValueLimits(platform, limits, afterName, depth + 1, n);
    var beforeValue := GapsBefore(limits.comments, afterName);
    var t := SkipTrivia(limits.comments, afterName);
    TextOfValue(platform, limits, s, t, p, depth + 1, n);
    if ReadSeparator(limits, p.rest, CLOSE_OBJECT, ExpectedCommaOrBrace).value.0 {
      var gaps, after := CommaFound(limits, p.rest, CLOSE_OBJECT, ExpectedCommaOrBrace);
      var next := ReadSeparator(limits, p.rest, CLOSE_OBJECT, ExpectedCommaOrBrace).value.1;
      SkippedStays(limits.comments, after);
      var more;
      more, trailing, last :=
        MembersFound(platform, limits, after, next, depth, p.elements, before[name := p.value]);
      var member := Member(front, pieces, beforeColon, Item(beforeValue, s, gaps));
      MemberFound(platform, limits, member, t, p, depth, n);
      members := [member] + more;
      MoreMembersStand(platform, limits, member, more, trailing, last, PrintedMember(member), after, p,
                       ReadMembers(platform, limits, next, depth, p.elements, before[name := p.value]).value, depth, n,
                       before);
      assert w == PrintedMember(member) + ([COMMA] + after);
    } else {
      var gaps;
      gaps, trailing, last := CloseFound(limits, p.rest, CLOSE_OBJECT, ExpectedCommaOrBrace);
      var rest := ReadSeparator(limits, p.rest, CLOSE_OBJECT, ExpectedCommaOrBrace).value.1;
      var member := Member(front, pieces, beforeColon, Item(beforeValue, s, gaps));
      MemberFound(platform, limits, member, t, p, depth, n);
      members := [member];
      LastMemberStands(platform, limits, member, trailing, last, PrintedMember(member), rest, p, depth, n, before);
      assert w == PrintedMember(member) + Close(trailing, last, CLOSE_OBJECT, rest);
    }
  }

  lemma MemberFound(platform: Platform, limits: Limits, member: Member, t: Bytes, p: Parsed, depth: nat, n: nat)
    requires AreGaps(limits.comments, member.before) && IsString(member.name) && AreGaps(limits.comments, member.after)
    requires AreGaps(limits.comments, member.item.before) && AreGaps(limits.comments, member.item.after)
    requires Stands(platform, limits, member.item.value, t, p, depth + 1, n)
    ensures MemberStands(platform, limits, member, PrintedMember(member), p, depth, n)
    ensures PrintedMember(member) == PrintedGaps(member.before) + PrintedString(member.name) +
                                     PrintedGaps(member.after) + [COLON] + PrintedItem(member.item)
    ensures PrintedItem(member.item) == PrintedGaps(member.item.before) + Printed(member.item.value) +
                                        PrintedGaps(member.item.after)
  {
    hide Stands, AreGaps, IsString, PrintedMember, IsMember, IsItem, PrintedItem, FitsLevels, Meant, Count;
    hide PrintedString;
    hide PrintedGaps, Printed;
    DialectIs(platform, limits);
    StandingItem(platform, limits, member.item, t, p, depth + 1, n);
    StandingMember(DialectOf(platform, limits), member);
  }

  lemma ObjectStands(platform: Platform, limits: Limits, members: seq<Member>, trailing: bool, last: seq<Gap>, t: Bytes,
                     p: Parsed, depth: nat, n: nat)
    requires Begins(t, OPEN_OBJECT) && depth <= limits.maxDepth
    requires MembersStand(platform, limits, members, trailing, last, t[1..], p, depth, n + 1, map[])
    ensures Stands(platform, limits, ObjectS(members, trailing, last), t, p, depth, n)
  {
    hide AreMembers, AreGaps, PrintedMembers, PrintedLast, MembersMeant, CountMembers, MembersFit, AreDistinct;
    hide DialectOf, Begins;
    DialectIs(platform, limits);
    BeginsIs(t, OPEN_OBJECT);
    assert t == [OPEN_OBJECT] + t[1..];
    assert t == [OPEN_OBJECT] + PrintedMembers(members) + PrintedLast(trailing, last) + [CLOSE_OBJECT] + p.rest;
  }

  lemma EmptyObjectStands(platform: Platform, limits: Limits, gaps: seq<Gap>, t: Bytes, rest: Bytes, depth: nat, n: nat)
    requires AreGaps(limits.comments, gaps) && t == [OPEN_OBJECT] + PrintedGaps(gaps) + [CLOSE_OBJECT] + rest
    requires depth <= limits.maxDepth && n + 1 <= limits.maxElements
    ensures Stands(platform, limits, ObjectS([], false, gaps), t, Parsed(Obj(map[]), rest, n + 1), depth, n)
  {
    hide AreGaps, PrintedGaps;
    var s := ObjectS([], false, gaps);
    assert IsSyntax(DialectOf(platform, limits), s);
    assert Printed(s) == [OPEN_OBJECT] + [] + ([] + PrintedGaps(gaps)) + [CLOSE_OBJECT];
    assert t == Printed(s) + rest;
    assert MembersMeant([], map[]) == map[];
    assert CountMembers([]) == 0;
    assert MembersFit([], limits.maxDepth - depth - 1);
  }

  lemma {:induction false} ObjectFound(platform: Platform, limits: Limits, t: Bytes, depth: nat, n: nat)
    returns (s: Syntax)
    requires Begins(t, OPEN_OBJECT) && ReadObject(platform, limits, t[1..], depth, n + 1).Success?
    requires depth <= limits.maxDepth && n + 1 <= limits.maxElements
    ensures Stands(platform, limits, s, t, ReadObject(platform, limits, t[1..], depth, n + 1).value, depth, n)
    decreases |t|, 2
  {
    hide *;
    BeginsIs(t, OPEN_OBJECT);
    var inside := t[1..];
    ObjectRead(platform, limits, inside, depth, n + 1);
    var v := SkipTrivia(limits.comments, inside);
    BeginsIs(v, CLOSE_OBJECT);
    assert t == [OPEN_OBJECT] + inside;
    if Begins(v, CLOSE_OBJECT) {
      var gaps := GapsBefore(limits.comments, inside);
      assert v == [CLOSE_OBJECT] + v[1..];
      EmptyObjectStands(platform, limits, gaps, t, v[1..], depth, n);
      s := ObjectS([], false, gaps);
    } else {
      SkippedStays(limits.comments, inside);
      var members, trailing, last := MembersFound(platform, limits, inside, v, depth, n + 1, map[]);
      s := ObjectS(members, trailing, last);
      ObjectStands(platform, limits, members, trailing, last, t,
                   ReadMembers(platform, limits, v, depth, n + 1, map[]).value, depth, n);
    }
  }

  // ----- The theorem -----

  /** The document keeps within the limits. */
  predicate KeepsWithin(limits: Limits, d: Document) {
    && |PrintedDocument(d)| <= limits.maxBytes
    && FitsLevels(d.root, limits.maxDepth) && Count(d.root) <= limits.maxElements
  }

  /** The text is that of a document with this value. */
  ghost predicate IsTextOf(platform: Platform, limits: Limits, s: Bytes, v: Json, d: Document) {
    && IsDocument(DialectOf(platform, limits), d) && PrintedDocument(d) == s && Meant(d.root) == v
    && KeepsWithin(limits, d)
  }

  lemma DocumentParts(platform: Platform, limits: Limits, d: Document)
    requires IsDocument(DialectOf(platform, limits), d) && KeepsWithin(limits, d)
    ensures AreGaps(limits.comments, d.before) && IsSyntax(DialectOf(platform, limits), d.root)
    ensures AreGaps(limits.comments, d.after) && IsEnding(limits.comments, d.ending)
    ensures PrintedDocument(d) ==
            PrintedMark(d.mark) + PrintedGaps(d.before) + Printed(d.root) + PrintedGaps(d.after) +
            PrintedEnding(d.ending)
    ensures |PrintedDocument(d)| <= limits.maxBytes
    ensures FitsLevels(d.root, limits.maxDepth - 0) && 0 + Count(d.root) <= limits.maxElements
  {
    hide AreGaps, IsSyntax, IsEnding, PrintedGaps, Printed, PrintedEnding, PrintedMark, FitsLevels, Count;
  }

  /** The mark is skipped, and nothing else is taken for it. */
  lemma MarkSkipped(comments: bool, mark: bool, gaps: seq<Gap>, text: Bytes, after: Bytes)
    requires AreGaps(comments, gaps) && text != [] && text[0] < 0x80
    ensures var body := PrintedGaps(gaps) + (text + after); SkipMark(PrintedMark(mark) + body) == body
  {
    var body := PrintedGaps(gaps) + (text + after);
    if mark {
      assert (PrintedMark(mark) + body)[3..] == body;
    } else {
      assert PrintedMark(mark) + body == body;
      if gaps == [] { assert body[0] == text[0]; } else { assert body[0] == PrintedGap(gaps[0])[0]; }
    }
  }

  lemma EndingEndsNumber(comments: bool, ending: Ending)
    requires IsEnding(comments, ending)
    ensures JsonRoundTrip.NumberEnds(PrintedEnding(ending))
  {
  }

  lemma DocumentIs(platform: Platform, limits: Limits, s: Bytes, body: Bytes, p: Parsed)
    requires |s| <= limits.maxBytes && SkipMark(s) == body
    requires ReadValue(platform, limits, SkipTrivia(limits.comments, body), 0, 0) == Success(p)
    requires SkipTrivia(limits.comments, p.rest) == []
    ensures ReadDocument(platform, limits, s) == Success(p.value)
  {
    hide ReadValue, SkipTrivia, SkipMark;
  }

  lemma DocumentRead(platform: Platform, limits: Limits, d: Document)
    requires IsDocument(DialectOf(platform, limits), d) && KeepsWithin(limits, d)
    ensures ReadDocument(platform, limits, PrintedDocument(d)) == Success(Meant(d.root))
  {
    hide *;
    DocumentParts(platform, limits, d);
    var s, after := PrintedDocument(d), PrintedGaps(d.after) + PrintedEnding(d.ending);
    var body := PrintedGaps(d.before) + (Printed(d.root) + after);
    PrintedHead(DialectOf(platform, limits), d.root);
    MarkSkipped(limits.comments, d.mark, d.before, Printed(d.root), after);
    assert s == PrintedMark(d.mark) + body;
    GapsSkipped(limits.comments, d.before, Printed(d.root) + after);
    SolidStart(limits.comments, Printed(d.root), after);
    EndingEndsNumber(limits.comments, d.ending);
    GapsEndNumber(limits.comments, d.after, PrintedEnding(d.ending));
    SkippedStays(limits.comments, body);
    SyntaxRead(platform, limits, d.root, SkipTrivia(limits.comments, body), after, 0, 0);
    GapsSkipped(limits.comments, d.after, PrintedEnding(d.ending));
    EndingSkipped(limits.comments, d.ending);
    DocumentIs(platform, limits, s, body, Parsed(Meant(d.root), after, 0 + Count(d.root)));
  }

  lemma DocumentSucceeds(platform: Platform, limits: Limits, s: Bytes)
    requires ReadDocument(platform, limits, s).Success?
    ensures |s| <= limits.maxBytes
    ensures var r := ReadValue(platform, limits, SkipTrivia(limits.comments, SkipMark(s)), 0, 0);
      && r.Success? && ReadDocument(platform, limits, s) == Success(r.value.value)
      && SkipTrivia(limits.comments, r.value.rest) == []
  {
    hide ReadValue, SkipTrivia, SkipMark;
  }

  lemma MarkFound(s: Bytes) returns (mark: bool)
    ensures s == PrintedMark(mark) + SkipMark(s)
  {
    mark := BYTE_ORDER_MARK <= s;
    assert mark ==> s == BYTE_ORDER_MARK + s[3..];
  }

  lemma DocumentFound(platform: Platform, limits: Limits, s: Bytes) returns (d: Document)
    requires ReadDocument(platform, limits, s).Success?
    ensures IsTextOf(platform, limits, s, ReadDocument(platform, limits, s).value, d)
  {
    hide *;
    DocumentSucceeds(platform, limits, s);
    var mark := MarkFound(s);
    var body := SkipMark(s);
    var u := SkipTrivia(limits.comments, body);
    var p := ReadValue(platform, limits, u, 0, 0).value;
    SkippedStays(limits.comments, body);
    var root := ValueFound(platform, limits, u, 0, 0);
    ValueLimits(platform, limits, u, 0, 0);
    var before := GapsBefore(limits.comments, body);
    var after, ending := GapsFound(limits.comments, p.rest);
    d := Document(mark, before, root, after, ending);
    DocumentAssembled(platform, limits, s, d, body, u, p);
  }

  lemma DocumentAssembled(platform: Platform, limits: Limits, s: Bytes, d: Document, body: Bytes, u: Bytes, p: Parsed)
    requires s == PrintedMark(d.mark) + body && |s| <= limits.maxBytes
    requires AreGaps(limits.comments, d.before) && body == PrintedGaps(d.before) + u
    requires Stands(platform, limits, d.root, u, p, 0, 0)
    requires Splits(limits.comments, p.rest, d.after, d.ending, [])
    ensures IsTextOf(platform, limits, s, p.value, d)
  {
    hide AreGaps, IsSyntax, IsEnding, PrintedGaps, Printed, PrintedEnding, PrintedMark, FitsLevels, Count, Meant;
    assert PrintedDocument(d) == s;
  }

  /** A text is parsed to a value exactly when it is the text of a document that means the value and keeps within the
      limits. */
  lemma ParsesExactly(platform: Platform, limits: Limits, s: Bytes, v: Json)
    ensures ReadDocument(platform, limits, s) == Success(v) <==> exists d :: IsTextOf(platform, limits, s, v, d)
  {
    hide ReadDocument, IsDocument, PrintedDocument, Meant, KeepsWithin;
    if ReadDocument(platform, limits, s) == Success(v) {
      var d := DocumentFound(platform, limits, s);
    }
    if d :| IsTextOf(platform, limits, s, v, d) { DocumentRead(platform, limits, d); }
  }
}

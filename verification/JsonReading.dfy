/**
 Every text of the grammar is read as what it means (desktop/src/core/json/json.cpp): the first half of what
 JsonLanguage states.
 */
module JsonReading {
  import opened Wrappers
  import opened Utf8
  import opened Numbers
  import opened JsonValues
  import opened JsonText
  import opened JsonGrammar
  import JsonRoundTrip

  // ----- Gaps -----

  lemma {:induction false} LineSkipped(text: Bytes, s: Bytes)
    requires 10 !in text
    ensures SkipLine(text + ([10] + s)) == [10] + s
    ensures SkipLine(text) == []
  {
    if text != [] {
      assert (text + ([10] + s))[1..] == text[1..] + ([10] + s);
      LineSkipped(text[1..], s);
    } else {
      assert text + ([10] + s) == [10] + s;
    }
  }

  lemma {:induction false} BlockSkipped(text: Bytes, s: Bytes)
    requires !ClosesInside(text)
    ensures SkipBlock(text + ([0x2A, 0x2F] + s)) == s
    ensures SkipBlock(text) == []
  {
    var t := text + ([0x2A, 0x2F] + s);
    if text != [] {
      assert t[1..] == text[1..] + ([0x2A, 0x2F] + s);
      assert !ClosesInside(text[1..]) by {
        assert forall i | 0 <= i < |text[1..]| :: text[1..][i] == text[i + 1];
      }
      BlockSkipped(text[1..], s);
      assert |text| > 1 ==> text[1..][0] == text[1];
      assert !(t[0] == STAR && Begins(t[1..], SLASH));
      assert !(text[0] == STAR && Begins(text[1..], SLASH));
    } else {
      assert t == [0x2A, 0x2F] + s && t[1..] == [0x2F] + s && t[2..] == s;
    }
  }

  /** The first step of skip_trivia. */
  lemma TriviaStep(comments: bool, t: Bytes)
    requires t != []
    ensures IsBlank(t[0]) ==> SkipTrivia(comments, t) == SkipTrivia(comments, t[1..])
    ensures comments && |t| > 1 && t[0] == SLASH == t[1] ==>
            SkipTrivia(comments, t) == SkipTrivia(comments, SkipLine(t[2..]))
    ensures comments && |t| > 1 && t[0] == SLASH && t[1] == STAR ==>
            SkipTrivia(comments, t) == SkipTrivia(comments, SkipBlock(t[2..]))
  {
    hide SkipLine, SkipBlock;
  }

  lemma LineGap(comments: bool, text: Bytes, s: Bytes)
    requires comments && 10 !in text
    ensures SkipTrivia(comments, [0x2F, 0x2F] + text + [10] + s) == SkipTrivia(comments, s)
  {
    hide SkipTrivia, SkipLine;
    var t := [0x2F, 0x2F] + text + [10] + s;
    TriviaStep(comments, t);
    assert t[2..] == text + ([10] + s);
    LineSkipped(text, s);
    TriviaStep(comments, [10] + s);
    assert ([10] + s)[1..] == s;
  }

  lemma BlockGap(comments: bool, text: Bytes, s: Bytes)
    requires comments && !ClosesInside(text)
    ensures SkipTrivia(comments, [0x2F, 0x2A] + text + [0x2A, 0x2F] + s) == SkipTrivia(comments, s)
  {
    hide SkipTrivia, SkipBlock, ClosesInside;
    var t := [0x2F, 0x2A] + text + [0x2A, 0x2F] + s;
    TriviaStep(comments, t);
    assert t[2..] == text + ([0x2A, 0x2F] + s);
    BlockSkipped(text, s);
  }

  lemma BlankGap(comments: bool, b: Byte, s: Bytes)
    requires IsBlank(b)
    ensures SkipTrivia(comments, [b] + s) == SkipTrivia(comments, s)
  {
    hide SkipTrivia;
    TriviaStep(comments, [b] + s);
    assert ([b] + s)[1..] == s;
  }

  lemma GapSkipped(comments: bool, gap: Gap, s: Bytes)
    requires IsGap(comments, gap)
    ensures SkipTrivia(comments, PrintedGap(gap) + s) == SkipTrivia(comments, s)
  {
    hide SkipTrivia, ClosesInside;
    match gap {
      case Blank(b) => BlankGap(comments, b, s);
      case Line(text) => LineGap(comments, text, s);
      case Block(text) => BlockGap(comments, text, s);
    }
  }

  lemma {:induction false} GapsSkipped(comments: bool, gaps: seq<Gap>, s: Bytes)
    requires AreGaps(comments, gaps)
    ensures SkipTrivia(comments, PrintedGaps(gaps) + s) == SkipTrivia(comments, s)
    decreases gaps
  {
    hide SkipTrivia, IsGap, PrintedGap;
    if gaps == [] {
      assert PrintedGaps(gaps) + s == s;
    } else {
      var rest := PrintedGaps(gaps[1..]) + s;
      assert PrintedGaps(gaps) + s == PrintedGap(gaps[0]) + rest;
      GapSkipped(comments, gaps[0], rest);
      GapsSkipped(comments, gaps[1..], s);
    }
  }

  lemma EndingSkipped(comments: bool, ending: Ending)
    requires IsEnding(comments, ending)
    ensures SkipTrivia(comments, PrintedEnding(ending)) == []
  {
    var t := PrintedEnding(ending);
    match ending {
      case Closed =>
      case OpenLine(text) =>
        assert t[0] == SLASH && t[1] == SLASH && t[2..] == text;
        LineSkipped(text, []);
      case OpenBlock(text) =>
        assert t[0] == SLASH && t[1] == STAR && t[2..] == text;
        BlockSkipped(text, []);
    }
  }

  // ----- Strings -----

  lemma {:induction false} HexIsMeant(t: Bytes)
    ensures HexNumber(t) == if HexMeant(t) >= 0 then Some(HexMeant(t)) else None
  {
    if t != [] { HexIsMeant(t[..|t| - 1]); }
  }

  lemma CodeRead(hex: Bytes, rest: Bytes)
    requires |hex| == 4
    ensures CodeOf(hex) >= 0 ==> ReadHex4(hex + rest) == Success(CodeOf(hex))
    ensures CodeOf(hex) < 0 ==> ReadHex4(hex + rest).Failure?
  {
    assert (hex + rest)[..4] == hex;
    HexIsMeant(Trim(hex));
    hide Trim, HexMeant, HexNumber;
  }

  lemma PairPoint(high: int, low: int)
    requires 0xD800 <= high <= 0xDBFF && 0xDC00 <= low <= 0xDFFF
    ensures 0x10000 + (high - 0xD800) * 0x400 + (low - 0xDC00) == 65536 + 1024 * (high % 1024) + low % 1024
  {
  }

  /** What follows \\u in a pair. */
  lemma PairRead(high: Bytes, low: Bytes, rest: Bytes)
    requires IsPiece(Pair(high, low))
    ensures ReadUnicode(high + [0x5C, 0x75] + low + rest) == Success((PairMeant(CodeOf(high), CodeOf(low)), rest))
  {
    hide CodeOf, ReadHex4, IsScalar, PairMeant, ReadUnicode;
    var s := high + [0x5C, 0x75] + low + rest;
    var after := [0x5C, 0x75] + (low + rest);
    FourBytes(high);
    FourBytes(low);
    assert s == high + after && s[4..] == after && after[2..] == low + rest && after[6..] == rest;
    CodeRead(high, after);
    CodeRead(low, rest);
    BothCodes(s, CodeOf(high), CodeOf(low), after, rest);
  }

  lemma FourBytes(hex: Bytes)
    requires CodeOf(hex) >= 0
    ensures |hex| == 4
  {
  }

  /** A high half and the code behind it. */
  lemma BothCodes(s: Bytes, high: nat, low: nat, after: Bytes, rest: Bytes)
    requires ReadHex4(s) == Success(high) && IsHighHalf(high) && s[4..] == after
    requires |after| > 1 && after[0] == 0x5C && after[1] == 0x75 && ReadHex4(after[2..]) == Success(low)
    requires after[6..] == rest
    ensures ReadUnicode(s) == Success((PairMeant(high, low), rest))
  {
    hide ReadHex4;
    if IsLowHalf(low) { PairPoint(high, low); }
  }

  /** What follows \\u alone. */
  lemma CodeAlone(hex: Bytes, rest: Bytes)
    requires IsPiece(Code(hex)) && (IsHighHalf(CodeOf(hex)) ==> !([0x5C, 0x75] <= rest))
    ensures ReadUnicode(hex + rest).Success?
    ensures var r := ReadUnicode(hex + rest).value;
            r.1 == rest && (if IsScalar(r.0) then r.0 else REPLACEMENT) ==
                           (if IsScalar(CodeOf(hex)) then CodeOf(hex) else 0xFFFD)
  {
    assert (hex + rest)[4..] == rest;
    CodeRead(hex, rest);
    hide CodeOf, ReadHex4;
  }

  lemma RawRead(b: Byte, rest: Bytes, out: Bytes)
    requires b >= 0x20 && b != QUOTE && b != BACKSLASH
    ensures ReadChars([b] + rest, out) == ReadChars(rest, out + [b])
  {
    assert ([b] + rest)[1..] == rest;
  }

  lemma LetterRead(c: Byte, rest: Bytes, out: Bytes)
    requires LetterMeant(c) >= 0
    ensures ReadChars([0x5C, c] + rest, out) == ReadChars(rest, out + [LetterMeant(c)])
  {
    hide ReadUnicode;
    assert ([0x5C, c] + rest)[2..] == rest;
  }

  lemma PieceRead(piece: Piece, rest: Bytes, out: Bytes)
    requires IsPiece(piece)
    requires piece.Code? && IsHighHalf(CodeOf(piece.hex)) ==> !([0x5C, 0x75] <= rest)
    ensures ReadChars(PrintedPiece(piece) + rest, out) == ReadChars(rest, out + PieceMeant(piece))
  {
    hide Encode, CodeOf, ReadUnicode, ReadChars;
    match piece {
      case Raw(b) => RawRead(b, rest, out);
      case Letter(c) => LetterRead(c, rest, out);
      case Code(hex) =>
        CodeAlone(hex, rest);
        assert PrintedPiece(piece) + rest == [0x5C, 0x75] + (hex + rest);
        EscapeRead(hex + rest, out);
      case Pair(high, low) =>
        PairRead(high, low, rest);
        assert PrintedPiece(piece) + rest == [0x5C, 0x75] + (high + [0x5C, 0x75] + low + rest);
        EscapeRead(high + [0x5C, 0x75] + low + rest, out);
    }
  }

  /** The escape u in a string. */
  lemma EscapeRead(s: Bytes, out: Bytes)
    ensures ReadChars([0x5C, 0x75] + s, out) ==
            match ReadUnicode(s) case Failure(e) => Failure(e)
            case Success((cp, rest)) => ReadChars(rest, out + Encode(if IsScalar(cp) then cp else REPLACEMENT))
  {
    hide ReadUnicode, Encode;
    assert ([0x5C, 0x75] + s)[2..] == s;
  }

  lemma NextIsNoCode(pieces: seq<Piece>, rest: Bytes)
    requires pieces != [] ==> IsPiece(pieces[0]) && !IsUnicode(pieces[0])
    ensures !([0x5C, 0x75] <= PrintedPieces(pieces) + ([QUOTE] + rest))
  {
    var s := PrintedPieces(pieces) + ([QUOTE] + rest);
    if pieces == [] {
      assert s[0] == QUOTE;
    } else {
      PieceIsNoCode(pieces[0], PrintedPieces(pieces[1..]) + ([QUOTE] + rest));
      hide PrintedPiece, IsPiece;
      assert s == PrintedPiece(pieces[0]) + (PrintedPieces(pieces[1..]) + ([QUOTE] + rest));
    }
  }

  lemma PieceIsNoCode(piece: Piece, rest: Bytes)
    requires IsPiece(piece) && !IsUnicode(piece)
    ensures !([0x5C, 0x75] <= PrintedPiece(piece) + rest)
  {
    var s := PrintedPiece(piece) + rest;
    hide CodeOf;
    if piece.Raw? { assert s[0] == piece.b; } else { assert s[1] == piece.c; }
  }

  /** The inside of a string up to its quote. */
  lemma {:induction false} PiecesRead(pieces: seq<Piece>, rest: Bytes, out: Bytes)
    requires ArePieces(pieces)
    ensures ReadChars(PrintedPieces(pieces) + ([QUOTE] + rest), out) ==
            if WalkIsClean(out + PiecesMeant(pieces)) then Success((out + PiecesMeant(pieces), rest))
            else Failure(InvalidUtf8)
    decreases pieces
  {
    hide PrintedPiece, PieceMeant, IsPiece, ReadUnicode, WalkIsClean, Encode, CodeOf;
    if pieces == [] {
      var s := PrintedPieces(pieces) + ([QUOTE] + rest);
      assert s[0] == QUOTE && s[1..] == rest && out + PiecesMeant(pieces) == out;
    } else {
      var more := PrintedPieces(pieces[1..]) + ([QUOTE] + rest);
      assert PrintedPieces(pieces) + ([QUOTE] + rest) == PrintedPiece(pieces[0]) + more;
      if pieces[0].Code? && IsHighHalf(CodeOf(pieces[0].hex)) {
        if |pieces| > 1 { assert ArePieces(pieces[1..]) && pieces[1..][0] == pieces[1]; }
        NextIsNoCode(pieces[1..], rest);
      }
      PieceRead(pieces[0], more, out);
      PiecesRead(pieces[1..], rest, out + PieceMeant(pieces[0]));
      assert out + PiecesMeant(pieces) == (out + PieceMeant(pieces[0])) + PiecesMeant(pieces[1..]);
    }
  }

  lemma StringRead(pieces: seq<Piece>, rest: Bytes)
    requires IsString(pieces)
    ensures var s := PrintedString(pieces) + rest;
            s[0] == QUOTE && ReadChars(s[1..], []) == Success((PiecesMeant(pieces), rest))
  {
    hide ReadChars, PrintedPieces, PiecesMeant, ArePieces, IsUtf8, WalkIsClean;
    var s := PrintedString(pieces) + rest;
    assert s[1..] == PrintedPieces(pieces) + ([QUOTE] + rest);
    PiecesRead(pieces, rest, []);
    CleanWalkIsUtf8(PiecesMeant(pieces));
    assert [] + PiecesMeant(pieces) == PiecesMeant(pieces);
  }

  // ----- Numbers -----

  lemma {:induction false} RunStops(a: Bytes, rest: Bytes)
    requires AllDigits(a) && (rest != [] ==> !IsDigit(rest[0]))
    ensures DigitRun(a + rest) == |a|
  {
    if a == [] {
      assert a + rest == rest;
    } else {
      assert (a + rest)[1..] == a[1..] + rest;
      RunStops(a[1..], rest);
    }
  }

  lemma {:induction false} RunIsDigits(s: Bytes)
    ensures AllDigits(s[..DigitRun(s)]) && (DigitRun(s) < |s| ==> !IsDigit(s[DigitRun(s)]))
  {
    if s != [] && IsDigit(s[0]) {
      RunIsDigits(s[1..]);
      var n := DigitRun(s[1..]);
      assert s[..n + 1] == [s[0]] + s[1..][..n];
    }
  }

  lemma WholeScanned(whole: Bytes, rest: Bytes)
    requires IsWhole(whole) && (rest != [] ==> !IsDigit(rest[0]))
    ensures ScanInteger(whole + rest) == Success(|whole|)
  {
    RunStops(whole, rest);
    assert (whole + rest)[0] == whole[0];
    hide DigitRun;
  }

  lemma FractionScanned(fraction: Bytes, rest: Bytes)
    requires IsFraction(fraction) && (rest != [] ==> !IsDigit(rest[0]) && rest[0] != DOT)
    ensures ScanFraction(fraction + rest) == Success(|fraction|)
  {
    if fraction == [] {
      assert fraction + rest == rest;
    } else {
      assert (fraction + rest)[0] == DOT && (fraction + rest)[1..] == fraction[1..] + rest;
      RunStops(fraction[1..], rest);
    }
    hide DigitRun;
  }

  lemma ExponentScanned(exponent: Bytes)
    requires IsExponent(exponent)
    ensures ScanExponent(exponent) == Success(|exponent|)
  {
    if exponent != [] {
      var sign := if Begins(exponent[1..], PLUS) || Begins(exponent[1..], MINUS) then 1 else 0;
      assert exponent[1..] == exponent[1..] + [] && exponent[1 + sign..] == exponent[1 + sign..] + [];
      assert |exponent| > 1 && exponent[1] == exponent[1..][0];
      RunStops(exponent[1 + sign..], []);
    }
    hide DigitRun;
  }

  /** The scanner's three parts, one after the other. */
  lemma Assembled(t: Bytes, sign: nat, i: nat, f: nat)
    requires sign == (if Begins(t, MINUS) then 1 else 0) && sign + i + f <= |t|
    requires ScanInteger(t[sign..]) == Success(i) && ScanFraction(t[sign + i..]) == Success(f)
    ensures ScanNumber(t) == match ScanExponent(t[sign + i + f..]) case Failure(e) => Failure(e)
                             case Success(x) => Success(sign + i + f + x)
  {
    hide ScanInteger, ScanFraction, ScanExponent;
  }

  lemma NumberScanned(t: Bytes, sign: Bytes, whole: Bytes, fraction: Bytes, exponent: Bytes)
    requires IsNumberOf(t, sign, whole, fraction, exponent)
    ensures JsonRoundTrip.IsNumberText(t)
  {
    hide ScanInteger, ScanFraction, ScanExponent, ScanNumber, IsWhole, IsFraction, IsExponent, IsDigit;
    FirstBytes(whole, fraction, exponent);
    Cuts(sign, whole, fraction, exponent);
    var a := |sign|;
    WholeScanned(whole, fraction + exponent);
    FractionScanned(fraction, exponent);
    ExponentScanned(exponent);
    Assembled(t, a, |whole|, |fraction|);
  }

  lemma Cuts(sign: Bytes, whole: Bytes, fraction: Bytes, exponent: Bytes)
    requires whole != []
    ensures var t, a, f := sign + whole + fraction + exponent, |sign|, |sign| + |whole|;
      && t[a..] == whole + (fraction + exponent) && t[f..] == fraction + exponent
      && t[f + |fraction|..] == exponent && t[0] == if sign != [] then sign[0] else whole[0]
  {
  }

  lemma FirstBytes(whole: Bytes, fraction: Bytes, exponent: Bytes)
    requires IsWhole(whole) && IsFraction(fraction) && IsExponent(exponent)
    ensures whole != [] && whole[0] != MINUS
    ensures exponent != [] ==> !IsDigit(exponent[0]) && exponent[0] != DOT
    ensures fraction + exponent != [] ==> !IsDigit((fraction + exponent)[0])
  {
    var t := fraction + exponent;
    if fraction != [] { assert t[0] == fraction[0]; } else { assert t == exponent; }
  }

  lemma WholeOf(s: Bytes, n: nat)
    requires ScanInteger(s) == Success(n)
    ensures n <= |s| && IsWhole(s[..n])
  {
    RunIsDigits(s);
    if s[0] == ZERO { assert s[..1] == [ZERO]; }
  }

  lemma FractionOf(s: Bytes, n: nat)
    requires ScanFraction(s) == Success(n)
    ensures n <= |s| && IsFraction(s[..n])
  {
    if Begins(s, DOT) {
      RunIsDigits(s[1..]);
      assert s[..n][1..] == s[1..][..n - 1];
    }
  }

  lemma ExponentOf(s: Bytes, n: nat)
    requires ScanExponent(s) == Success(n)
    ensures n <= |s| && IsExponent(s[..n])
  {
    if Begins(s, 0x65) || Begins(s, 0x45) {
      var sign := if Begins(s[1..], PLUS) || Begins(s[1..], MINUS) then 1 else 0;
      RunIsDigits(s[1 + sign..]);
      assert s[..n][1 + sign..] == s[1 + sign..][..n - 1 - sign];
      assert s[..n][0] == s[0];
      if sign == 1 { assert s[..n][1] == s[1..][0]; }
    }
  }

  lemma NumberParts(t: Bytes)
    requires JsonRoundTrip.IsNumberText(t)
    ensures IsNumber(t)
  {
    hide ScanInteger, ScanFraction, ScanExponent, IsWhole, IsFraction, IsExponent;
    var sign := if Begins(t, MINUS) then 1 else 0;
    var i := ScanInteger(t[sign..]).value;
    var f := ScanFraction(t[sign + i..]).value;
    var x := ScanExponent(t[sign + i + f..]).value;
    hide ScanNumber, Begins;
    WholeOf(t[sign..], i);
    FractionOf(t[sign + i..], f);
    ExponentOf(t[sign + i + f..], x);
    assert IsSign(t[..sign]) by { SignOf(t); }
    Joined(t, sign, i, f);
    var w, fr, e := t[sign..][..i], t[sign + i..][..f], t[sign + i + f..];
    assert e[..x] == e;
    assert IsNumberOf(t, t[..sign], w, fr, e);
  }

  lemma SignOf(t: Bytes)
    ensures IsSign(t[..if Begins(t, MINUS) then 1 else 0])
  {
  }

  lemma Joined(t: Bytes, a: nat, i: nat, f: nat)
    requires a + i + f <= |t|
    ensures t == t[..a] + t[a..][..i] + t[a + i..][..f] + t[a + i + f..]
  {
    assert t[..a + i] == t[..a] + t[a..][..i];
    assert t[..a + i + f] == t[..a + i] + t[a + i..][..f];
    assert t == t[..a + i + f] + t[a + i + f..];
  }

  /** The scanner takes exactly the numbers of the grammar. */
  lemma NumberGrammar(t: Bytes)
    ensures JsonRoundTrip.IsNumberText(t) <==> IsNumber(t)
  {
    if JsonRoundTrip.IsNumberText(t) { NumberParts(t); }
    if sign, whole, fraction, exponent :| IsNumberOf(t, sign, whole, fraction, exponent) {
      NumberScanned(t, sign, whole, fraction, exponent);
    }
  }

  // ----- Values -----

  function DialectOf(platform: Platform, limits: Limits): Dialect {
    Dialect(limits.comments, limits.trailingCommas, platform.read)
  }

  /** The first byte of a value says which kind it is. */
  lemma PrintedHead(dialect: Dialect, s: Syntax)
    requires IsSyntax(dialect, s)
    ensures var t := Printed(s);
      && t != [] && JsonRoundTrip.IsSolid(t[0]) && t[0] < 0x80
      && t[0] != CLOSE_ARRAY && t[0] != CLOSE_OBJECT && t[0] != COMMA
      && (t[0] == OPEN_OBJECT <==> s.ObjectS?) && (t[0] == OPEN_ARRAY <==> s.ListS?) && (t[0] == QUOTE <==> s.TextS?)
      && (s.NumberS? ==> t[0] == MINUS || IsDigit(t[0]))
      && (s.NullS? ==> t == NULL_WORD) && (s.BoolS? ==> t == if s.b then TRUE_WORD else FALSE_WORD)
  {
    if s.NumberS? {
      var sign, whole, fraction, exponent :| IsNumberOf(s.t, sign, whole, fraction, exponent);
      FirstBytes(whole, fraction, exponent);
      hide IsFraction, IsExponent;
      Cuts(sign, whole, fraction, exponent);
    }
    hide IsString, AreItems, AreMembers, AreDistinct, PrintedItems, PrintedMembers, PrintedLast, IsNumber;
  }

  lemma SolidStart(comments: bool, t: Bytes, rest: Bytes)
    requires t != [] && JsonRoundTrip.IsSolid(t[0])
    ensures SkipTrivia(comments, t + rest) == t + rest
  {
    JsonRoundTrip.SolidStays(comments, t + rest);
  }

  lemma {:induction false} GapsEndNumber(comments: bool, gaps: seq<Gap>, s: Bytes)
    requires AreGaps(comments, gaps) && JsonRoundTrip.NumberEnds(s)
    ensures JsonRoundTrip.NumberEnds(PrintedGaps(gaps) + s)
  {
    if gaps != [] {
      assert (PrintedGaps(gaps) + s)[0] == PrintedGap(gaps[0])[0];
    } else {
      assert PrintedGaps(gaps) + s == s;
    }
  }

  /** parse_value after the blanks. */
  lemma ValueStarts(platform: Platform, limits: Limits, u: Bytes, t: Bytes, depth: nat, n: nat)
    requires SkipTrivia(limits.comments, u) == t && t != [] && depth <= limits.maxDepth && n + 1 <= limits.maxElements
    ensures t[0] == OPEN_OBJECT ==>
            ReadValue(platform, limits, u, depth, n) == ReadObject(platform, limits, t[1..], depth, n + 1)
    ensures t[0] == OPEN_ARRAY ==>
            ReadValue(platform, limits, u, depth, n) == ReadArray(platform, limits, t[1..], depth, n + 1)
    ensures t[0] == QUOTE ==>
            ReadValue(platform, limits, u, depth, n) == match ReadChars(t[1..], []) case Failure(e) => Failure(e)
              case Success(r) => Success(Parsed(Str(TextOf(r.0)), r.1, n + 1))
    ensures t[0] == 0x74 ==> ReadValue(platform, limits, u, depth, n) == ReadLiteral(TRUE_WORD, Bool(true), t, n + 1)
    ensures t[0] == 0x66 ==> ReadValue(platform, limits, u, depth, n) == ReadLiteral(FALSE_WORD, Bool(false), t, n + 1)
    ensures t[0] == 0x6E ==> ReadValue(platform, limits, u, depth, n) == ReadLiteral(NULL_WORD, Null, t, n + 1)
    ensures t[0] == MINUS || IsDigit(t[0]) ==>
            ReadValue(platform, limits, u, depth, n) == ReadNumber(platform, t, n + 1)
  {
    hide SkipTrivia, ReadObject, ReadArray, ReadChars, ReadLiteral, ReadNumber;
  }

  lemma NumberRead(platform: Platform, t: Bytes, x: real, rest: Bytes, n: nat)
    requires IsNumber(t) && |t| <= 64 && platform.read(t) == Some(x) && JsonRoundTrip.NumberEnds(rest)
    ensures ReadNumber(platform, t + rest, n) == Success(Parsed(Num(x), rest, n))
  {
    NumberGrammar(t);
    JsonRoundTrip.NumberOfConcat(t, rest);
    NumberIsTrim(t);
    hide ScanNumber, IsNumber, Trim;
    assert (t + rest)[..|t|] == t && (t + rest)[|t|..] == rest;
  }

  lemma NumberIsTrim(t: Bytes)
    requires IsNumber(t)
    ensures Trim(t) == t && t != []
  {
    var sign, whole, fraction, exponent :| IsNumberOf(t, sign, whole, fraction, exponent);
    AllVisible(sign, whole, fraction, exponent);
    hide IsNumber, IsNumberOf;
    PlainToTrim(t);
  }

  lemma AllVisible(sign: Bytes, whole: Bytes, fraction: Bytes, exponent: Bytes)
    requires IsSign(sign) && IsWhole(whole) && IsFraction(fraction) && IsExponent(exponent)
    ensures var t := sign + whole + fraction + exponent; t != [] && forall i | 0 <= i < |t| :: 0x20 < t[i] < 0x80
  {
    assert forall i | 0 < i < |fraction| :: fraction[i] == fraction[1..][i - 1];
    assert forall i | 0 < i < |exponent| :: exponent[i] == exponent[1..][i - 1];
    assert forall i | 1 < i < |exponent| :: exponent[i] == exponent[2..][i - 2];
  }

  // ----- Arrays and objects -----

  /** What follows the last item or member. */
  function Close(trailing: bool, last: seq<Gap>, bracket: Byte, rest: Bytes): Bytes {
    PrintedLast(trailing, last) + ([bracket] + rest)
  }

  lemma BracketStays(comments: bool, b: Byte, rest: Bytes)
    requires JsonRoundTrip.IsSolid(b)
    ensures SkipTrivia(comments, [b] + rest) == [b] + rest && Begins([b] + rest, b) && ([b] + rest)[1..] == rest
  {
    SolidStart(comments, [b], rest);
  }

  /** After the last one: the bracket, perhaps behind a comma. */
  lemma ClosingRead(limits: Limits, u: Bytes, trailing: bool, last: seq<Gap>, bracket: Byte, rest: Bytes,
                    missing: JsonError)
    requires bracket == CLOSE_ARRAY || bracket == CLOSE_OBJECT
    requires SkipTrivia(limits.comments, u) == SkipTrivia(limits.comments, Close(trailing, last, bracket, rest))
    requires AreGaps(limits.comments, last) && if trailing then limits.trailingCommas else last == []
    ensures ReadSeparator(limits, u, bracket, missing) == Success((false, rest))
  {
    hide SkipTrivia, AreGaps, PrintedGaps;
    BracketStays(limits.comments, bracket, rest);
    if trailing {
      var after := PrintedGaps(last) + ([bracket] + rest);
      assert Close(trailing, last, bracket, rest) == [COMMA] + after;
      BracketStays(limits.comments, COMMA, after);
      GapsSkipped(limits.comments, last, [bracket] + rest);
    } else {
      assert PrintedGaps(last) == [] by { NoGaps(); }
      assert Close(trailing, last, bracket, rest) == [bracket] + rest;
    }
  }

  lemma NoGaps()
    ensures PrintedGaps([]) == []
  {
  }

  /** Between two: a comma. */
  lemma CommaRead(limits: Limits, u: Bytes, next: Bytes, after: Bytes, bracket: Byte, missing: JsonError)
    requires SkipTrivia(limits.comments, u) == SkipTrivia(limits.comments, [COMMA] + after)
    requires SkipTrivia(limits.comments, after) == next && !Begins(next, bracket)
    ensures ReadSeparator(limits, u, bracket, missing) == Success((true, next))
  {
    hide SkipTrivia;
    BracketStays(limits.comments, COMMA, after);
  }

  lemma {:induction false} SkippedStays(comments: bool, s: Bytes)
    ensures SkipTrivia(comments, SkipTrivia(comments, s)) == SkipTrivia(comments, s)
    decreases |s|
  {
    hide SkipLine, SkipBlock;
    if s != [] {
      if IsBlank(s[0]) {
        SkippedStays(comments, s[1..]);
      } else if comments && s[0] == SLASH && |s| > 1 && s[1] == SLASH {
        SkippedStays(comments, SkipLine(s[2..]));
      } else if comments && s[0] == SLASH && |s| > 1 && s[1] == STAR {
        SkippedStays(comments, SkipBlock(s[2..]));
      }
    }
  }

  lemma DialectIs(platform: Platform, limits: Limits)
    ensures DialectOf(platform, limits) == Dialect(limits.comments, limits.trailingCommas, platform.read)
  {
  }

  lemma ItemsUnfold(dialect: Dialect, items: seq<Item>, levels: int)
    requires items != []
    ensures PrintedItems(items) == PrintedItem(items[0]) + PrintedMoreItems(items[1..])
    ensures AreItems(dialect, items) ==> AreItems(dialect, items[1..]) && IsItem(dialect, items[0])
    ensures ItemsFit(items, levels) ==> FitsLevels(items[0].value, levels) && ItemsFit(items[1..], levels)
    ensures CountItems(items) == Count(items[0].value) + CountItems(items[1..])
    ensures ItemsMeant(items) == [Meant(items[0].value)] + ItemsMeant(items[1..])
    ensures items[1..] == [] ==>
            PrintedMoreItems(items[1..]) == [] && CountItems(items[1..]) == 0 && ItemsMeant(items[1..]) == []
    ensures items[1..] != [] ==> PrintedMoreItems(items[1..]) == [COMMA] + PrintedItems(items[1..])
  {
    hide PrintedItem, IsItem, FitsLevels, Count, Meant;
    var more := items[1..];
    if more != [] {
      assert [COMMA] + PrintedItem(more[0]) + PrintedMoreItems(more[1..]) ==
             [COMMA] + (PrintedItem(more[0]) + PrintedMoreItems(more[1..]));
    }
  }

  lemma ItemParts(dialect: Dialect, item: Item)
    requires IsItem(dialect, item)
    ensures AreGaps(dialect.comments, item.before) && AreGaps(dialect.comments, item.after)
    ensures IsSyntax(dialect, item.value)
    ensures PrintedItem(item) == PrintedGaps(item.before) + Printed(item.value) + PrintedGaps(item.after)
  {
    hide IsSyntax, Printed;
  }

  /** What skip_trivia leaves of an item. */
  lemma ItemStarts(dialect: Dialect, item: Item, after: Bytes)
    requires IsItem(dialect, item)
    ensures var t := Printed(item.value) + (PrintedGaps(item.after) + after);
      && SkipTrivia(dialect.comments, PrintedItem(item) + after) == t
      && !Begins(t, CLOSE_ARRAY) && !Begins(t, CLOSE_OBJECT)
  {
    hide *;
    ItemParts(dialect, item);
    PrintedHead(dialect, item.value);
    var t := Printed(item.value) + (PrintedGaps(item.after) + after);
    assert PrintedItem(item) + after == PrintedGaps(item.before) + t;
    GapsSkipped(dialect.comments, item.before, t);
    SolidStart(dialect.comments, Printed(item.value), PrintedGaps(item.after) + after);
    assert t[0] == Printed(item.value)[0];
    BeginsIs(t, CLOSE_ARRAY);
    BeginsIs(t, CLOSE_OBJECT);
  }

  lemma BeginsIs(t: Bytes, b: Byte)
    ensures Begins(t, b) <==> t != [] && t[0] == b
  {
  }

  /** After an item comes a comma, a gap or the bracket: no part of a number. */
  lemma CloseEndsNumber(comments: bool, trailing: bool, last: seq<Gap>, bracket: Byte, rest: Bytes)
    requires AreGaps(comments, last) && (bracket == CLOSE_ARRAY || bracket == CLOSE_OBJECT)
    ensures JsonRoundTrip.NumberEnds(Close(trailing, last, bracket, rest))
  {
    if trailing {
      assert Close(trailing, last, bracket, rest)[0] == COMMA;
    } else {
      assert Close(trailing, last, bracket, rest) == PrintedGaps(last) + ([bracket] + rest);
      GapsEndNumber(comments, last, [bracket] + rest);
    }
  }

  lemma CommaEndsNumber(after: Bytes)
    ensures JsonRoundTrip.NumberEnds([COMMA] + after)
  {
  }

  /** One round of the loop of parse_array. */
  lemma ItemRound(platform: Platform, limits: Limits, u: Bytes, depth: nat, n: nat, done: seq<Json>, p: Parsed)
    requires ReadValue(platform, limits, u, depth + 1, n) == Success(p)
    ensures ReadItems(platform, limits, u, depth, n, done) ==
            match ReadSeparator(limits, p.rest, CLOSE_ARRAY, ExpectedCommaOrBracket)
            case Failure(e) => Failure(e)
            case Success((another, rest)) =>
              if another then ReadItems(platform, limits, rest, depth, p.elements, done + [p.value])
              else Success(Parsed(Arr(done + [p.value]), rest, p.elements))
  {
    hide ReadValue, ReadSeparator;
  }

  /** The items from one on, as the loop of parse_array sees them. */
  lemma {:induction false} ItemsRead(platform: Platform, limits: Limits, items: seq<Item>, trailing: bool,
                                     last: seq<Gap>, u: Bytes, rest: Bytes, depth: nat, n: nat, done: seq<Json>)
    requires items != [] && AreItems(DialectOf(platform, limits), items)
    requires AreGaps(limits.comments, last) && if trailing then limits.trailingCommas else last == []
    requires SkipTrivia(limits.comments, u) ==
             SkipTrivia(limits.comments, PrintedItems(items) + Close(trailing, last, CLOSE_ARRAY, rest))
    requires ItemsFit(items, limits.maxDepth - depth - 1) && n + CountItems(items) <= limits.maxElements
    ensures ReadItems(platform, limits, u, depth, n, done) ==
            Success(Parsed(Arr(done + ItemsMeant(items)), rest, n + CountItems(items)))
    decreases items, 0
  {
    hide *;
    var dialect, levels := DialectOf(platform, limits), limits.maxDepth - depth - 1;
    DialectIs(platform, limits);
    ItemsUnfold(dialect, items, levels);
    var item, more, close := items[0], items[1..], Close(trailing, last, CLOSE_ARRAY, rest);
    var after := PrintedMoreItems(more) + close;
    assert PrintedItems(items) + close == PrintedItem(item) + after;
    ItemParts(dialect, item);
    ItemStarts(dialect, item, after);
    if more == [] {
      assert after == close;
      CloseEndsNumber(limits.comments, trailing, last, CLOSE_ARRAY, rest);
    } else {
      assert after == [COMMA] + (PrintedItems(more) + close);
      CommaEndsNumber(PrintedItems(more) + close);
    }
    var mine := PrintedGaps(item.after) + after;
    GapsEndNumber(limits.comments, item.after, after);
    SyntaxRead(platform, limits, item.value, u, mine, depth + 1, n);
    GapsSkipped(limits.comments, item.after, after);
    var p := Parsed(Meant(item.value), mine, n + Count(item.value));
    ItemRound(platform, limits, u, depth, n, done, p);
    if more == [] {
      ClosingRead(limits, mine, trailing, last, CLOSE_ARRAY, rest, ExpectedCommaOrBracket);
      assert done + ([p.value] + []) == done + [p.value];
    } else {
      var tail := PrintedItems(more) + close;
      ItemsUnfold(dialect, more, levels);
      ItemStarts(dialect, more[0], PrintedMoreItems(more[1..]) + close);
      assert tail == PrintedItem(more[0]) + (PrintedMoreItems(more[1..]) + close);
      var next := SkipTrivia(limits.comments, tail);
      CommaRead(limits, mine, next, tail, CLOSE_ARRAY, ExpectedCommaOrBracket);
      SkippedStays(limits.comments, tail);
      ItemsRead(platform, limits, more, trailing, last, next, rest, depth, p.elements, done + [p.value]);
      assert done + ([p.value] + ItemsMeant(more)) == done + [p.value] + ItemsMeant(more);
    }
  }

  lemma MembersUnfold(dialect: Dialect, members: seq<Member>, before: map<string, Json>, levels: int)
    requires members != []
    ensures PrintedMembers(members) == PrintedMember(members[0]) + PrintedMoreMembers(members[1..])
    ensures AreMembers(dialect, members) ==> AreMembers(dialect, members[1..]) && IsMember(dialect, members[0])
    ensures MembersFit(members, levels) ==>
            FitsLevels(members[0].item.value, levels) && MembersFit(members[1..], levels)
    ensures CountMembers(members) == Count(members[0].item.value) + CountMembers(members[1..])
    ensures MembersMeant(members, before) ==
            MembersMeant(members[1..], before[StringMeant(members[0].name) := Meant(members[0].item.value)])
    ensures members[1..] == [] ==> PrintedMoreMembers(members[1..]) == [] && CountMembers(members[1..]) == 0
    ensures members[1..] == [] ==> forall m :: MembersMeant(members[1..], m) == m
    ensures members[1..] != [] ==> PrintedMoreMembers(members[1..]) == [COMMA] + PrintedMembers(members[1..])
  {
    hide PrintedMember, IsMember, FitsLevels, Count, Meant, StringMeant;
    var more := members[1..];
    if more != [] {
      assert [COMMA] + PrintedMember(more[0]) + PrintedMoreMembers(more[1..]) ==
             [COMMA] + (PrintedMember(more[0]) + PrintedMoreMembers(more[1..]));
    }
  }

  lemma MemberParts(dialect: Dialect, member: Member)
    requires IsMember(dialect, member)
    ensures AreGaps(dialect.comments, member.before) && IsString(member.name) && AreGaps(dialect.comments, member.after)
    ensures IsItem(dialect, member.item)
    ensures PrintedMember(member) == PrintedGaps(member.before) + PrintedString(member.name) +
                                     PrintedGaps(member.after) + [COLON] + PrintedItem(member.item)
  {
    hide IsItem, PrintedItem, IsString, PrintedString;
  }

  /** What skip_trivia leaves of a member. */
  lemma MemberStarts(dialect: Dialect, member: Member, after: Bytes)
    requires IsMember(dialect, member)
    ensures var t := PrintedString(member.name) +
                     (PrintedGaps(member.after) + ([COLON] + (PrintedItem(member.item) + after)));
      && SkipTrivia(dialect.comments, PrintedMember(member) + after) == t
      && !Begins(t, CLOSE_OBJECT)
  {
    hide *;
    MemberParts(dialect, member);
    var tail := PrintedGaps(member.after) + ([COLON] + (PrintedItem(member.item) + after));
    var t := PrintedString(member.name) + tail;
    assert PrintedMember(member) + after == PrintedGaps(member.before) + t;
    GapsSkipped(dialect.comments, member.before, t);
    StringStarts(member.name);
    SolidStart(dialect.comments, PrintedString(member.name), tail);
    assert t[0] == QUOTE;
    BeginsIs(t, CLOSE_OBJECT);
  }

  lemma StringStarts(pieces: seq<Piece>)
    ensures PrintedString(pieces) != [] && PrintedString(pieces)[0] == QUOTE != CLOSE_OBJECT
    ensures JsonRoundTrip.IsSolid(QUOTE)
  {
  }

  /** A name and its colon. */
  lemma NameRead(limits: Limits, u: Bytes, name: seq<Piece>, gaps: seq<Gap>, after: Bytes)
    requires IsString(name) && AreGaps(limits.comments, gaps)
    requires SkipTrivia(limits.comments, u) == PrintedString(name) + (PrintedGaps(gaps) + ([COLON] + after))
    ensures ReadName(limits, u) == Success((StringMeant(name), after))
  {
    var rest := PrintedGaps(gaps) + ([COLON] + after);
    StringRead(name, rest);
    hide SkipTrivia, ReadChars, PrintedString, PrintedGaps, IsString, AreGaps, PiecesMeant;
    GapsSkipped(limits.comments, gaps, [COLON] + after);
    BracketStays(limits.comments, COLON, after);
  }

  /** One round of the loop of parse_object. */
  lemma MemberRound(platform: Platform, limits: Limits, u: Bytes, depth: nat, n: nat, before: map<string, Json>,
                    name: string, afterName: Bytes, p: Parsed)
    requires ReadName(limits, u) == Success((name, afterName)) && name !in before
    requires ReadValue(platform, limits, afterName, depth + 1, n) == Success(p)
    ensures ReadMembers(platform, limits, u, depth, n, before) ==
            match ReadSeparator(limits, p.rest, CLOSE_OBJECT, ExpectedCommaOrBrace)
            case Failure(e) => Failure(e)
            case Success((another, rest)) =>
              if another then ReadMembers(platform, limits, rest, depth, p.elements, before[name := p.value])
              else Success(Parsed(Obj(before[name := p.value]), rest, p.elements))
  {
    hide ReadValue, ReadSeparator, ReadName;
  }

  /** None of the names is there yet, and none comes twice. */
  ghost predicate AreNew(members: seq<Member>, before: map<string, Json>) {
    AreDistinct(members) && forall i | 0 <= i < |members| :: StringMeant(members[i].name) !in before
  }

  lemma NewNames(members: seq<Member>, before: map<string, Json>, v: Json)
    requires members != [] && AreNew(members, before)
    ensures StringMeant(members[0].name) !in before
    ensures AreNew(members[1..], before[StringMeant(members[0].name) := v])
  {
    hide StringMeant;
    var more := members[1..];
    assert forall i | 0 <= i < |more| :: more[i] == members[i + 1];
  }

  /** The members from one on, as the loop of parse_object sees them. */
  lemma {:induction false} MembersRead(
      platform: Platform, limits: Limits, members: seq<Member>, trailing: bool, last: seq<Gap>, u: Bytes, rest: Bytes,
      depth: nat, n: nat, before: map<string, Json>)
    requires members != [] && AreMembers(DialectOf(platform, limits), members) && AreNew(members, before)
    requires AreGaps(limits.comments, last) && if trailing then limits.trailingCommas else last == []
    requires SkipTrivia(limits.comments, u) ==
             SkipTrivia(limits.comments, PrintedMembers(members) + Close(trailing, last, CLOSE_OBJECT, rest))
    requires MembersFit(members, limits.maxDepth - depth - 1) && n + CountMembers(members) <= limits.maxElements
    ensures ReadMembers(platform, limits, u, depth, n, before) ==
            Success(Parsed(Obj(MembersMeant(members, before)), rest, n + CountMembers(members)))
    decreases members, 0
  {
    hide *;
    var dialect, levels := DialectOf(platform, limits), limits.maxDepth - depth - 1;
    DialectIs(platform, limits);
    MembersUnfold(dialect, members, before, levels);
    var member, more, close := members[0], members[1..], Close(trailing, last, CLOSE_OBJECT, rest);
    var item, name := member.item, StringMeant(member.name);
    var after := PrintedMoreMembers(more) + close;
    assert PrintedMembers(members) + close == PrintedMember(member) + after;
    MemberParts(dialect, member);
    MemberStarts(dialect, member, after);
    NameRead(limits, u, member.name, member.after, PrintedItem(item) + after);
    ItemParts(dialect, item);
    ItemStarts(dialect, item, after);
    if more == [] {
      assert after == close;
      CloseEndsNumber(limits.comments, trailing, last, CLOSE_OBJECT, rest);
    } else {
      assert after == [COMMA] + (PrintedMembers(more) + close);
      CommaEndsNumber(PrintedMembers(more) + close);
    }
    var mine := PrintedGaps(item.after) + after;
    GapsEndNumber(limits.comments, item.after, after);
    SyntaxRead(platform, limits, item.value, PrintedItem(item) + after, mine, depth + 1, n);
    GapsSkipped(limits.comments, item.after, after);
    var p := Parsed(Meant(item.value), mine, n + Count(item.value));
    NewNames(members, before, p.value);
    MemberRound(platform, limits, u, depth, n, before, name, PrintedItem(item) + after, p);
    if more == [] {
      ClosingRead(limits, mine, trailing, last, CLOSE_OBJECT, rest, ExpectedCommaOrBrace);
    } else {
      var tail := PrintedMembers(more) + close;
      MembersUnfold(dialect, more, before, levels);
      MemberStarts(dialect, more[0], PrintedMoreMembers(more[1..]) + close);
      assert tail == PrintedMember(more[0]) + (PrintedMoreMembers(more[1..]) + close);
      var next := SkipTrivia(limits.comments, tail);
      CommaRead(limits, mine, next, tail, CLOSE_OBJECT, ExpectedCommaOrBrace);
      SkippedStays(limits.comments, tail);
      MembersRead(platform, limits, more, trailing, last, next, rest, depth, p.elements, before[name := p.value]);
    }
  }

  // ----- A whole value -----

  lemma LiteralRead(word: Bytes, v: Json, rest: Bytes, n: nat)
    ensures ReadLiteral(word, v, word + rest, n) == Success(Parsed(v, rest, n))
  {
    assert (word + rest)[|word|..] == rest;
  }

  lemma ListParts(dialect: Dialect, s: Syntax, levels: int)
    requires s.ListS? && IsSyntax(dialect, s) && FitsLevels(s, levels)
    ensures AreItems(dialect, s.items) && IsLast(dialect, s.items == [], s.trailing, s.last)
    ensures Printed(s) == [OPEN_ARRAY] + PrintedItems(s.items) + PrintedLast(s.trailing, s.last) + [CLOSE_ARRAY]
    ensures ItemsFit(s.items, levels - 1) && Count(s) == 1 + CountItems(s.items)
    ensures Meant(s) == Arr(ItemsMeant(s.items))
    ensures s.items == [] ==> PrintedItems(s.items) == [] && ItemsMeant(s.items) == [] && CountItems(s.items) == 0
  {
    hide PrintedLast, IsLast;
  }

  lemma LastIs(dialect: Dialect, none: bool, trailing: bool, last: seq<Gap>)
    requires IsLast(dialect, none, trailing, last)
    ensures AreGaps(dialect.comments, last)
    ensures none ==> !trailing && PrintedLast(trailing, last) == PrintedGaps(last)
    ensures !none ==> if trailing then dialect.trailing else last == []
  {
    assert [] + PrintedGaps(last) == PrintedGaps(last);
    hide PrintedGaps, AreGaps;
  }

  lemma ArrayRead(platform: Platform, limits: Limits, u: Bytes, depth: nat, n: nat)
    ensures Begins(SkipTrivia(limits.comments, u), CLOSE_ARRAY) ==>
            ReadArray(platform, limits, u, depth, n) ==
            Success(Parsed(Arr([]), SkipTrivia(limits.comments, u)[1..], n))
    ensures !Begins(SkipTrivia(limits.comments, u), CLOSE_ARRAY) ==>
            ReadArray(platform, limits, u, depth, n) ==
            ReadItems(platform, limits, SkipTrivia(limits.comments, u), depth, n, [])
  {
    hide SkipTrivia, ReadItems;
  }

  lemma {:induction false} ListRead(platform: Platform, limits: Limits, s: Syntax, rest: Bytes, depth: nat, n: nat)
    requires s.ListS? && IsSyntax(DialectOf(platform, limits), s)
    requires FitsLevels(s, limits.maxDepth - depth) && n + Count(s) <= limits.maxElements
    ensures var t := Printed(s) + rest;
            ReadArray(platform, limits, t[1..], depth, n + 1) == Success(Parsed(Meant(s), rest, n + Count(s)))
    decreases s, 0
  {
    hide *;
    var dialect, items, comments := DialectOf(platform, limits), s.items, limits.comments;
    DialectIs(platform, limits);
    ListParts(dialect, s, limits.maxDepth - depth);
    LastIs(dialect, items == [], s.trailing, s.last);
    var t := Printed(s) + rest;
    var inside := t[1..];
    CloseIs(s.trailing, s.last, CLOSE_ARRAY, rest);
    assert inside == PrintedItems(items) + Close(s.trailing, s.last, CLOSE_ARRAY, rest);
    ArrayRead(platform, limits, inside, depth, n + 1);
    if items == [] {
      assert inside == PrintedGaps(s.last) + ([CLOSE_ARRAY] + rest);
      GapsSkipped(comments, s.last, [CLOSE_ARRAY] + rest);
      SolidBrackets();
      BracketStays(comments, CLOSE_ARRAY, rest);
    } else {
      ItemsUnfold(dialect, items, limits.maxDepth - depth - 1);
      var after := PrintedMoreItems(items[1..]) + Close(s.trailing, s.last, CLOSE_ARRAY, rest);
      assert inside == PrintedItem(items[0]) + after;
      ItemStarts(dialect, items[0], after);
      SkippedStays(comments, inside);
      ItemsRead(platform, limits, items, s.trailing, s.last, SkipTrivia(comments, inside), rest, depth, n + 1, []);
      assert [] + ItemsMeant(items) == ItemsMeant(items);
    }
  }

  lemma SolidBrackets()
    ensures JsonRoundTrip.IsSolid(CLOSE_ARRAY) && JsonRoundTrip.IsSolid(CLOSE_OBJECT)
  {
  }

  lemma CloseIs(trailing: bool, last: seq<Gap>, bracket: Byte, rest: Bytes)
    ensures Close(trailing, last, bracket, rest) == PrintedLast(trailing, last) + ([bracket] + rest)
  {
  }

  lemma ObjectParts(dialect: Dialect, s: Syntax, levels: int)
    requires s.ObjectS? && IsSyntax(dialect, s) && FitsLevels(s, levels)
    ensures AreMembers(dialect, s.members) && AreDistinct(s.members) && AreNew(s.members, map[])
    ensures IsLast(dialect, s.members == [], s.trailing, s.last)
    ensures Printed(s) == [OPEN_OBJECT] + PrintedMembers(s.members) + PrintedLast(s.trailing, s.last) + [CLOSE_OBJECT]
    ensures MembersFit(s.members, levels - 1) && Count(s) == 1 + CountMembers(s.members)
    ensures Meant(s) == Obj(MembersMeant(s.members, map[]))
    ensures s.members == [] ==> PrintedMembers(s.members) == [] && CountMembers(s.members) == 0
    ensures s.members == [] ==> MembersMeant(s.members, map[]) == map[]
  {
    hide PrintedLast, IsLast;
  }

  lemma ObjectRead(platform: Platform, limits: Limits, u: Bytes, depth: nat, n: nat)
    ensures Begins(SkipTrivia(limits.comments, u), CLOSE_OBJECT) ==>
            ReadObject(platform, limits, u, depth, n) ==
            Success(Parsed(Obj(map[]), SkipTrivia(limits.comments, u)[1..], n))
    ensures !Begins(SkipTrivia(limits.comments, u), CLOSE_OBJECT) ==>
            ReadObject(platform, limits, u, depth, n) ==
            ReadMembers(platform, limits, SkipTrivia(limits.comments, u), depth, n, map[])
  {
    hide SkipTrivia, ReadMembers;
  }

  lemma {:induction false} MapRead(platform: Platform, limits: Limits, s: Syntax, rest: Bytes, depth: nat, n: nat)
    requires s.ObjectS? && IsSyntax(DialectOf(platform, limits), s)
    requires FitsLevels(s, limits.maxDepth - depth) && n + Count(s) <= limits.maxElements
    ensures var t := Printed(s) + rest;
            ReadObject(platform, limits, t[1..], depth, n + 1) == Success(Parsed(Meant(s), rest, n + Count(s)))
    decreases s, 0
  {
    hide *;
    var dialect, members, comments := DialectOf(platform, limits), s.members, limits.comments;
    DialectIs(platform, limits);
    ObjectParts(dialect, s, limits.maxDepth - depth);
    LastIs(dialect, members == [], s.trailing, s.last);
    var t := Printed(s) + rest;
    var inside := t[1..];
    CloseIs(s.trailing, s.last, CLOSE_OBJECT, rest);
    assert inside == PrintedMembers(members) + Close(s.trailing, s.last, CLOSE_OBJECT, rest);
    ObjectRead(platform, limits, inside, depth, n + 1);
    if members == [] {
      assert inside == PrintedGaps(s.last) + ([CLOSE_OBJECT] + rest);
      GapsSkipped(comments, s.last, [CLOSE_OBJECT] + rest);
      SolidBrackets();
      BracketStays(comments, CLOSE_OBJECT, rest);
    } else {
      MembersUnfold(dialect, members, map[], limits.maxDepth - depth - 1);
      var after := PrintedMoreMembers(members[1..]) + Close(s.trailing, s.last, CLOSE_OBJECT, rest);
      assert inside == PrintedMember(members[0]) + after;
      MemberStarts(dialect, members[0], after);
      SkippedStays(comments, inside);
      var start := SkipTrivia(comments, inside);
      MembersRead(platform, limits, members, s.trailing, s.last, start, rest, depth, n + 1, map[]);
    }
  }

  /** Every value of the grammar is read as what it means, in any surroundings that do not go on with a number. */
  lemma {:induction false} SyntaxRead(
      platform: Platform, limits: Limits, s: Syntax, u: Bytes, rest: Bytes, depth: nat, n: nat)
    requires IsSyntax(DialectOf(platform, limits), s) && JsonRoundTrip.NumberEnds(rest)
    requires SkipTrivia(limits.comments, u) == Printed(s) + rest
    requires FitsLevels(s, limits.maxDepth - depth) && n + Count(s) <= limits.maxElements
    ensures ReadValue(platform, limits, u, depth, n) == Success(Parsed(Meant(s), rest, n + Count(s)))
    decreases s, 1
  {
    hide *;
    var t := Printed(s) + rest;
    PrintedHead(DialectOf(platform, limits), s);
    assert t[0] == Printed(s)[0];
    LeastSize(s, limits.maxDepth - depth);
    ValueStarts(platform, limits, u, t, depth, n);
    match s {
      case ListS(_, _, _) => ListRead(platform, limits, s, rest, depth, n);
      case ObjectS(_, _, _) => MapRead(platform, limits, s, rest, depth, n);
      case _ => ScalarRead(platform, limits, s, u, rest, depth, n);
    }
  }

  lemma LeastSize(s: Syntax, levels: int)
    requires FitsLevels(s, levels)
    ensures levels >= 0 && Count(s) >= 1
  {
  }

  lemma ScalarRead(platform: Platform, limits: Limits, s: Syntax, u: Bytes, rest: Bytes, depth: nat, n: nat)
    requires !s.ListS? && !s.ObjectS? && IsSyntax(DialectOf(platform, limits), s) && JsonRoundTrip.NumberEnds(rest)
    requires SkipTrivia(limits.comments, u) == Printed(s) + rest
    requires depth <= limits.maxDepth && n + 1 <= limits.maxElements
    ensures ReadValue(platform, limits, u, depth, n) == Success(Parsed(Meant(s), rest, n + Count(s)))
  {
    hide ReadValue, SkipTrivia, ReadNumber, ReadLiteral, ReadChars, IsNumber, IsString, PiecesMeant, PrintedString;
    hide JsonRoundTrip.NumberEnds, ReadObject, ReadArray;
    var t := Printed(s) + rest;
    PrintedHead(DialectOf(platform, limits), s);
    assert t[0] == Printed(s)[0];
    ValueStarts(platform, limits, u, t, depth, n);
    match s {
      case NullS => LiteralRead(NULL_WORD, Null, rest, n + 1);
      case BoolS(b) => LiteralRead(if b then TRUE_WORD else FALSE_WORD, Bool(b), rest, n + 1);
      case NumberS(text, x) => NumberRead(platform, text, x, rest, n + 1);
      case TextS(pieces) => StringRead(pieces, rest);
    }
  }
}

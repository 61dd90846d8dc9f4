/**
 Single characters in JSON text (desktop/src/core/json/json.cpp): what an escape is read as, how a character and an
 integer are written, and the faults of a string.
 */
module JsonEscapes {
  import opened Wrappers
  import opened Utf8
  import opened Numbers
  import opened Doubles
  import opened JsonValues
  import opened JsonText
  import opened JsonGrammar
  import opened JsonReading
  import opened JsonLanguage

  // ----- Reading an escape -----

  /** Four hexadecimal digits, in capital or small letters, that make up a 16-bit code. */
  predicate IsHexOf(t: Bytes, code: int) {
    && |t| == 4 && 0 <= code <= 0xFFFF
    && HexDigitValue(t[0]) == code / 4096 && HexDigitValue(t[1]) == code / 256 % 16
    && HexDigitValue(t[2]) == code / 16 % 16 && HexDigitValue(t[3]) == code % 16
  }

  lemma Nibbles(code: int)
    requires 0 <= code <= 0xFFFF
    ensures code == 16 * (16 * (16 * (code / 4096) + code / 256 % 16) + code / 16 % 16) + code % 16
  {
  }

  lemma HexSnoc(t: Bytes, b: Byte, high: int, low: int)
    requires HexMeant(t) == high >= 0 && HexDigitValue(b) == low >= 0
    ensures HexMeant(t + [b]) == 16 * high + low
  {
    assert (t + [b])[..|t|] == t;
    hide HexDigitValue;
  }

  lemma FourDigits(t: Bytes, code: int)
    requires IsHexOf(t, code)
    ensures CodeOf(t) == code
  {
    PlainToTrim(t);
    Nibbles(code);
    hide Trim, HexDigitValue;
    assert t == [] + [t[0]] + [t[1]] + [t[2]] + [t[3]];
    assert HexMeant([]) == 0;
    hide HexMeant;
    HexSnoc([], t[0], 0, code / 4096);
    HexSnoc([] + [t[0]], t[1], code / 4096, code / 256 % 16);
    HexSnoc([] + [t[0]] + [t[1]], t[2], 16 * (code / 4096) + code / 256 % 16, code / 16 % 16);
    var high := 16 * (16 * (code / 4096) + code / 256 % 16) + code / 16 % 16;
    HexSnoc([] + [t[0]] + [t[1]] + [t[2]], t[3], high, code % 16);
  }

  /** A string of one piece, as a document. */
  lemma OnePiece(platform: Platform, limits: Limits, piece: Piece)
    requires IsPiece(piece) && IsUtf8(PieceMeant(piece)) && limits.maxElements >= 1
    requires |PrintedPiece(piece)| + 2 <= limits.maxBytes
    ensures ReadDocument(platform, limits, [34] + PrintedPiece(piece) + [34]) == Success(Str(TextOf(PieceMeant(piece))))
  {
    hide CodeOf, Encode, IsUtf8, ReadDocument, PrintedPiece, PieceMeant, IsPiece;
    var pieces := [piece];
    OnePieceString(piece);
    var d := Document(false, [], TextS(pieces), [], Closed);
    hide IsString, PrintedString, StringMeant;
    assert Meant(d.root) == Str(StringMeant(pieces));
    assert PrintedGaps([]) == [] && PrintedMark(false) == [] && PrintedEnding(Closed) == [];
    assert PrintedDocument(d) == [] + [] + PrintedString(pieces) + [] + [];
    assert PrintedDocument(d) == PrintedString(pieces);
    DocumentRead(platform, limits, d);
  }

  lemma OnePieceString(piece: Piece)
    requires IsPiece(piece) && IsUtf8(PieceMeant(piece))
    ensures IsString([piece]) && StringMeant([piece]) == TextOf(PieceMeant(piece))
    ensures PrintedString([piece]) == [34] + PrintedPiece(piece) + [34]
  {
    hide CodeOf, IsUtf8, PrintedPiece, PieceMeant, IsPiece;
    var pieces := [piece];
    assert pieces[1..] == [];
    assert PrintedPieces([]) == [] && PiecesMeant([]) == [] && ArePieces([]);
    assert ArePieces(pieces);
    assert PrintedPieces(pieces) == PrintedPiece(piece) + [];
    assert PiecesMeant(pieces) == PieceMeant(piece) + [] == PieceMeant(piece);
  }

  lemma EncodedIsUtf8(cp: int)
    requires IsScalar(cp)
    ensures IsUtf8(Encode(cp))
  {
    var parts := [Encode(cp)];
    assert parts[1..] == [];
    assert Flatten(parts) == Encode(cp) + [];
    assert AllSequences(parts);
  }

  /** A character above U+FFFF is read from its two halves: ten bits of what it has above 0x10000 in each. */
  lemma PairIsRead(platform: Platform, limits: Limits, cp: int, high: Bytes, low: Bytes)
    requires 0x10000 <= cp <= 0x10FFFF && limits.maxBytes >= 14 && limits.maxElements >= 1
    requires IsHexOf(high, 0xD800 + (cp - 0x10000) / 0x400) && IsHexOf(low, 0xDC00 + (cp - 0x10000) % 0x400)
    ensures ReadDocument(platform, limits, [34, 92, 117] + high + [92, 117] + low + [34]) ==
            Success(Str(TextOf(Encode(cp))))
  {
    hide *;
    FourDigits(high, 0xD800 + (cp - 0x10000) / 0x400);
    FourDigits(low, 0xDC00 + (cp - 0x10000) % 0x400);
    Halves(cp);
    EncodedIsUtf8(cp);
    LengthOfHex(high, low);
    PairIs(high, low, cp);
    OnePiece(platform, limits, Pair(high, low));
    assert [34] + PrintedPiece(Pair(high, low)) + [34] == [34, 92, 117] + high + [92, 117] + low + [34];
  }

  lemma PairIs(high: Bytes, low: Bytes, cp: int)
    requires IsHighHalf(CodeOf(high)) && IsLowHalf(CodeOf(low)) && PairMeant(CodeOf(high), CodeOf(low)) == cp
    ensures IsPiece(Pair(high, low)) && PieceMeant(Pair(high, low)) == Encode(cp)
    ensures PrintedPiece(Pair(high, low)) == [92, 117] + high + [92, 117] + low
  {
    hide CodeOf, Encode, PairMeant;
  }

  lemma LengthOfHex(high: Bytes, low: Bytes)
    requires CodeOf(high) >= 0 && CodeOf(low) >= 0
    ensures |high| == 4 && |low| == 4
  {
  }

  lemma Halves(cp: int)
    requires 0x10000 <= cp <= 0x10FFFF
    ensures var high, low := 0xD800 + (cp - 0x10000) / 0x400, 0xDC00 + (cp - 0x10000) % 0x400;
            IsHighHalf(high) && IsLowHalf(low) && PairMeant(high, low) == cp
  {
  }

  /** A code that is no half is read as its character, half a pair as U+FFFD. */
  lemma CodeIsRead(platform: Platform, limits: Limits, code: int, hex: Bytes)
    requires IsHexOf(hex, code) && limits.maxBytes >= 8 && limits.maxElements >= 1
    ensures ReadDocument(platform, limits, [34, 92, 117] + hex + [34]) ==
            Success(Str(TextOf(Encode(if 0xD800 <= code <= 0xDFFF then 0xFFFD else code))))
  {
    hide *;
    FourDigits(hex, code);
    HexRange(hex, code);
    CodeIs(hex, code);
    EncodedIsUtf8(if 0xD800 <= code <= 0xDFFF then 0xFFFD else code);
    LengthOfHex(hex, hex);
    OnePiece(platform, limits, Code(hex));
    assert [34] + PrintedPiece(Code(hex)) + [34] == [34, 92, 117] + hex + [34];
  }

  lemma HexRange(hex: Bytes, code: int)
    requires IsHexOf(hex, code)
    ensures 0 <= code <= 0xFFFF
  {
    hide HexDigitValue;
  }

  lemma CodeIs(hex: Bytes, code: int)
    requires CodeOf(hex) == code && 0 <= code <= 0xFFFF
    ensures IsScalar(if 0xD800 <= code <= 0xDFFF then 0xFFFD else code)
    ensures IsPiece(Code(hex)) && PieceMeant(Code(hex)) == Encode(if 0xD800 <= code <= 0xDFFF then 0xFFFD else code)
    ensures PrintedPiece(Code(hex)) == [92, 117] + hex
  {
    hide CodeOf, Encode;
  }

  // ----- Writing -----

  /** How a character is written: seven have a letter or themselves behind a backslash, other control characters a
      code of four digits, and all others their bytes. */
  lemma WrittenCharacter(cp: int)
    requires IsScalar(cp)
    ensures EscapePoint(cp) ==
            match cp
            case 34 => [92, 34] case 92 => [92, 92]
            case 8 => [92, 98] case 9 => [92, 116] case 10 => [92, 110] case 12 => [92, 102] case 13 => [92, 114]
            case _ =>
              if cp >= 32 then Encode(cp)
              else if cp < 10 then [92, 117, 48, 48, 48, 48 + cp]
              else if cp < 16 then [92, 117, 48, 48, 48, 97 + cp - 10]
              else if cp < 26 then [92, 117, 48, 48, 49, 48 + cp - 16]
              else [92, 117, 48, 48, 49, 97 + cp - 26]
  {
    hide Encode;
  }

  /** Integers of up to fifteen digits are written in decimal, everything else is left to the C library. */
  lemma WrittenNumber(platform: Platform, x: real)
    ensures FormatNumber(platform, x) ==
            if x == x.Floor as real && -1000000000000000.0 < x < 1000000000000000.0 then Decimal(x.Floor)
            else platform.format(x)
  {
    if x == x.Floor as real { TruncateOfInt(x.Floor); }
    hide Decimal;
  }

  // ----- What is wrong with a string -----

  /** After some pieces: what the rest of the string is refused for. */
  predicate IsFault(rest: Bytes, e: JsonError) {
    if rest == [] then e == UnterminatedString
    else if rest[0] < 32 then e == ControlCharacter
    else if rest[0] != 92 then false
    else if |rest| == 1 then e == UnterminatedEscape
    else if rest[1] == 117 then if |rest| < 6 then e == TruncatedHex else CodeOf(rest[2..6]) < 0 && e == InvalidHex
    else LetterMeant(rest[1]) < 0 && e == InvalidEscape
  }

  lemma FaultIsFound(rest: Bytes, out: Bytes, e: JsonError)
    requires IsFault(rest, e)
    ensures ReadChars(rest, out) == Failure(e)
  {
    if |rest| >= 6 && rest[0] == 92 && rest[1] == 117 {
      assert rest[2..6] == rest[2..][..4];
      BadHex(rest[2..]);
    }
    hide CodeOf, ReadHex4, Encode;
  }

  lemma BadHex(s: Bytes)
    requires |s| >= 4 && CodeOf(s[..4]) < 0
    ensures ReadHex4(s) == Failure(InvalidHex)
  {
    HexIsMeant(Trim(s[..4]));
    hide Trim, HexMeant, HexNumber;
  }

  /** Wherever the fault comes in the string, it is what is reported. */
  lemma {:induction false} StringFault(pieces: seq<Piece>, rest: Bytes, out: Bytes, e: JsonError)
    requires ArePieces(pieces) && IsFault(rest, e)
    requires pieces != [] && IsUnicode(pieces[|pieces| - 1]) ==> !([92, 117] <= rest)
    ensures ReadChars(PrintedPieces(pieces) + rest, out) == Failure(e)
    decreases pieces
  {
    hide PrintedPiece, PieceMeant, IsPiece, ReadUnicode, CodeOf, ReadChars, IsFault;
    if pieces == [] {
      assert PrintedPieces(pieces) + rest == rest;
      FaultIsFound(rest, out, e);
    } else {
      var more := PrintedPieces(pieces[1..]) + rest;
      assert PrintedPieces(pieces) + rest == PrintedPiece(pieces[0]) + more;
      if pieces[0].Code? && IsHighHalf(CodeOf(pieces[0].hex)) {
        if |pieces| > 1 {
          assert ArePieces(pieces[1..]) && pieces[1..][0] == pieces[1];
          PieceIsNoCode(pieces[1], PrintedPieces(pieces[1..][1..]) + rest);
          assert more == PrintedPiece(pieces[1]) + (PrintedPieces(pieces[1..][1..]) + rest);
        } else {
          assert pieces[1..] == [] && more == rest;
        }
      }
      PieceRead(pieces[0], more, out);
      StringFault(pieces[1..], rest, out + PieceMeant(pieces[0]), e);
    }
  }
}

/**
 Why a text is refused (desktop/src/core/json/json.cpp): the fault that is reported where the parser stands, once gaps
 are skipped.  Faults inside strings are in JsonEscapes.
 */
module JsonFaults {
  import opened Wrappers
  import opened Utf8
  import opened Numbers
  import opened JsonValues
  import opened JsonText
  import opened JsonGrammar
  import opened JsonReading
  import opened JsonLanguage

  predicate StartsWithDigit(t: Bytes) {
    t != [] && 48 <= t[0] <= 57
  }

  /** A number that breaks off: without a digit, with a zero too many, without a digit behind its point or in its
      exponent. */
  lemma NumberFault(sign: Bytes, whole: Bytes, fraction: Bytes, rest: Bytes)
    requires IsSign(sign) && IsWhole(whole) && IsFraction(fraction)
    ensures !StartsWithDigit(rest) && !(sign == [] && Begins(rest, 45)) ==>
            ScanNumber(sign + rest) == Failure(ExpectedValue)
    ensures StartsWithDigit(rest) ==> ScanNumber(sign + ([48] + rest)) == Failure(LeadingZero)
    ensures !StartsWithDigit(rest) ==> ScanNumber(sign + (whole + ([46] + rest))) == Failure(ExpectedFraction)
    ensures !StartsWithDigit(rest) && !Begins(rest, 43) && !Begins(rest, 45) ==>
            && ScanNumber(sign + (whole + (fraction + ([101] + rest)))) == Failure(MalformedExponent)
            && ScanNumber(sign + (whole + (fraction + ([69] + rest)))) == Failure(MalformedExponent)
    ensures !StartsWithDigit(rest) ==>
            && ScanNumber(sign + (whole + (fraction + ([101, 43] + rest)))) == Failure(MalformedExponent)
            && ScanNumber(sign + (whole + (fraction + ([69, 45] + rest)))) == Failure(MalformedExponent)
  {
    hide *;
    NoDigit(sign, rest);
    TwoZeros(sign, rest);
    NoFraction(sign, whole, rest);
    NoExponent(sign, whole, fraction, [101], rest);
    NoExponent(sign, whole, fraction, [69], rest);
    NoExponent(sign, whole, fraction, [101, 43], rest);
    NoExponent(sign, whole, fraction, [69, 45], rest);
  }

  lemma RunIsZero(rest: Bytes)
    requires !StartsWithDigit(rest)
    ensures DigitRun(rest) == 0
  {
  }

  lemma NoDigit(sign: Bytes, rest: Bytes)
    requires IsSign(sign)
    ensures !StartsWithDigit(rest) && !(sign == [] && Begins(rest, 45)) ==>
            ScanNumber(sign + rest) == Failure(ExpectedValue)
  {
    if !StartsWithDigit(rest) && !(sign == [] && Begins(rest, 45)) {
      RunIsZero(rest);
      hide DigitRun, ScanFraction, ScanExponent;
      var t := sign + rest;
      if sign == [] { assert t == rest; } else { assert t[1..] == rest && t[0] == 45; }
    }
  }

  lemma TwoZeros(sign: Bytes, rest: Bytes)
    requires IsSign(sign)
    ensures StartsWithDigit(rest) ==> ScanNumber(sign + ([48] + rest)) == Failure(LeadingZero)
  {
    if StartsWithDigit(rest) {
      var t := [48] + rest;
      assert t[1..] == rest;
      assert DigitRun(t) >= 2;
      hide DigitRun, ScanFraction, ScanExponent;
      if sign == [] { assert sign + t == t; } else { assert (sign + t)[1..] == t && (sign + t)[0] == 45; }
    }
  }

  /** What is left of a number after its sign and whole part. */
  lemma AfterWhole(sign: Bytes, whole: Bytes, rest: Bytes)
    requires IsSign(sign) && IsWhole(whole) && (rest != [] ==> !IsDigit(rest[0]))
    ensures var t := sign + (whole + rest);
      && |sign| == (if Begins(t, MINUS) then 1 else 0) && t[|sign|..] == whole + rest
      && ScanInteger(t[|sign|..]) == Success(|whole|) && t[|sign| + |whole|..] == rest
  {
    WholeScanned(whole, rest);
    hide ScanInteger;
    var t := sign + (whole + rest);
    assert t[0] == if sign == [] then whole[0] else 45;
  }

  lemma NoFraction(sign: Bytes, whole: Bytes, rest: Bytes)
    requires IsSign(sign) && IsWhole(whole)
    ensures !StartsWithDigit(rest) ==> ScanNumber(sign + (whole + ([46] + rest))) == Failure(ExpectedFraction)
  {
    if !StartsWithDigit(rest) {
      AfterWhole(sign, whole, [46] + rest);
      RunIsZero(rest);
      assert ([46] + rest)[1..] == rest;
      assert ScanFraction([46] + rest) == Failure(ExpectedFraction);
      hide ScanInteger, ScanFraction, ScanExponent, IsWhole;
    }
  }

  lemma NoExponent(sign: Bytes, whole: Bytes, fraction: Bytes, mark: Bytes, rest: Bytes)
    requires IsSign(sign) && IsWhole(whole) && IsFraction(fraction)
    requires mark in {[101], [69], [101, 43], [69, 45]}
    ensures !StartsWithDigit(rest) && (|mark| == 1 ==> !Begins(rest, 43) && !Begins(rest, 45)) ==>
            ScanNumber(sign + (whole + (fraction + (mark + rest)))) == Failure(MalformedExponent)
  {
    hide *;
    if !StartsWithDigit(rest) && (|mark| == 1 ==> !Begins(rest, 43) && !Begins(rest, 45)) {
      var tail := mark + rest;
      MarkAlone(mark, rest);
      TailStarts(fraction, mark, rest);
      AfterWhole(sign, whole, fraction + tail);
      FractionScanned(fraction, tail);
      var t := sign + (whole + (fraction + tail));
      Cut(sign, whole, fraction, tail);
      Assembled(t, |sign|, |whole|, |fraction|);
    }
  }

  lemma Cut(sign: Bytes, whole: Bytes, fraction: Bytes, tail: Bytes)
    ensures (sign + (whole + (fraction + tail)))[|sign| + |whole| + |fraction|..] == tail
  {
  }

  lemma TailStarts(fraction: Bytes, mark: Bytes, rest: Bytes)
    requires IsFraction(fraction) && mark in {[101], [69], [101, 43], [69, 45]}
    ensures var tail := mark + rest;
      && tail != [] && !IsDigit(tail[0]) && tail[0] != DOT
      && fraction + tail != [] && !IsDigit((fraction + tail)[0])
  {
    var tail := mark + rest;
    assert tail[0] == mark[0];
    if fraction == [] { assert fraction + tail == tail; } else { assert (fraction + tail)[0] == fraction[0]; }
  }

  lemma MarkAlone(mark: Bytes, rest: Bytes)
    requires mark in {[101], [69], [101, 43], [69, 45]} && !StartsWithDigit(rest)
    requires |mark| == 1 ==> !Begins(rest, 43) && !Begins(rest, 45)
    ensures ScanExponent(mark + rest) == Failure(MalformedExponent)
  {
    RunIsZero(rest);
    hide DigitRun;
    var tail := mark + rest;
    if |mark| == 1 { assert tail[1..] == rest; } else { assert tail[1..] == mark[1..] + rest && tail[2..] == rest; }
  }

  /** Where a value is expected. */
  lemma ValueFault(platform: Platform, limits: Limits, u: Bytes, depth: nat, n: nat)
    ensures var r, t := ReadValue(platform, limits, u, depth, n), SkipTrivia(limits.comments, u);
      && (depth > limits.maxDepth ==> r == Failure(TooDeep))
      && (depth <= limits.maxDepth && n >= limits.maxElements ==> r == Failure(TooManyValues))
      && (depth <= limits.maxDepth && n < limits.maxElements ==>
            && (t == [] ==> r == Failure(UnexpectedEnd))
            && (Begins(t, 116) && !([116, 114, 117, 101] <= t) ==> r == Failure(InvalidLiteral))
            && (Begins(t, 102) && !([102, 97, 108, 115, 101] <= t) ==> r == Failure(InvalidLiteral))
            && (Begins(t, 110) && !([110, 117, 108, 108] <= t) ==> r == Failure(InvalidLiteral)))
  {
    hide SkipTrivia, ReadObject, ReadArray, ReadChars, ReadNumber;
  }

  /** After an item or a member: neither a comma nor the bracket, or a comma before the bracket where that is not
      allowed. */
  lemma SeparatorFault(limits: Limits, u: Bytes, gaps: seq<Gap>, rest: Bytes, close: Byte, missing: JsonError)
    requires SkipTrivia(limits.comments, u) == [44] + PrintedGaps(gaps) + ([close] + rest) ||
             (!Begins(SkipTrivia(limits.comments, u), 44) && !Begins(SkipTrivia(limits.comments, u), close))
    requires AreGaps(limits.comments, gaps) && (close == 93 || close == 125)
    ensures var r := ReadSeparator(limits, u, close, missing);
            if !Begins(SkipTrivia(limits.comments, u), 44) then r == Failure(missing)
            else r == if limits.trailingCommas then Success((false, rest)) else Failure(TrailingComma)
  {
    hide SkipTrivia, PrintedGaps, AreGaps;
    if Begins(SkipTrivia(limits.comments, u), 44) {
      var t := SkipTrivia(limits.comments, u);
      assert t[1..] == PrintedGaps(gaps) + ([close] + rest);
      GapsSkipped(limits.comments, gaps, [close] + rest);
      BracketStays(limits.comments, close, rest);
    }
  }

  /** Where a member is expected: no name, or no colon behind it. */
  lemma MemberFault(platform: Platform, limits: Limits, u: Bytes, depth: nat, n: nat, before: map<string, Json>,
                    name: seq<Piece>, gaps: seq<Gap>, rest: Bytes)
    requires IsString(name) && AreGaps(limits.comments, gaps)
    ensures !Begins(SkipTrivia(limits.comments, u), 34) ==>
            ReadMembers(platform, limits, u, depth, n, before) == Failure(ExpectedName)
    ensures SkipTrivia(limits.comments, u) == PrintedString(name) + (PrintedGaps(gaps) + rest) ==>
            !Begins(SkipTrivia(limits.comments, rest), 58) ==>
            ReadMembers(platform, limits, u, depth, n, before) == Failure(ExpectedColon)
  {
    hide *;
    NoName(platform, limits, u, depth, n, before);
    if SkipTrivia(limits.comments, u) == PrintedString(name) + (PrintedGaps(gaps) + rest) {
      GapsSkipped(limits.comments, gaps, rest);
      NoColon(platform, limits, u, depth, n, before, name, PrintedGaps(gaps) + rest);
    }
  }

  /** A name that was there before is refused, once its value has been read. */
  lemma TakenNameFault(platform: Platform, limits: Limits, u: Bytes, depth: nat, n: nat, before: map<string, Json>,
                       name: seq<Piece>, gaps: seq<Gap>, rest: Bytes)
    requires IsString(name) && AreGaps(limits.comments, gaps) && StringMeant(name) in before
    requires SkipTrivia(limits.comments, u) == PrintedString(name) + (PrintedGaps(gaps) + ([58] + rest))
    requires ReadValue(platform, limits, rest, depth + 1, n).Success?
    ensures ReadMembers(platform, limits, u, depth, n, before) == Failure(DuplicateName(StringMeant(name)))
  {
    hide *;
    Colon();
    NameRead(limits, u, name, gaps, rest);
    TakenName(platform, limits, u, depth, n, before, StringMeant(name), rest);
  }

  lemma Colon()
    ensures COLON == 58
  {
  }

  lemma NoName(platform: Platform, limits: Limits, u: Bytes, depth: nat, n: nat, before: map<string, Json>)
    ensures !Begins(SkipTrivia(limits.comments, u), 34) ==>
            ReadMembers(platform, limits, u, depth, n, before) == Failure(ExpectedName)
  {
    hide SkipTrivia, ReadValue, ReadSeparator, ReadChars;
  }

  lemma NoColon(platform: Platform, limits: Limits, u: Bytes, depth: nat, n: nat, before: map<string, Json>,
                name: seq<Piece>, after: Bytes)
    requires IsString(name) && SkipTrivia(limits.comments, u) == PrintedString(name) + after
    ensures !Begins(SkipTrivia(limits.comments, after), 58) ==>
            ReadMembers(platform, limits, u, depth, n, before) == Failure(ExpectedColon)
  {
    StringRead(name, after);
    hide SkipTrivia, ReadValue, ReadSeparator, ReadChars, IsString, PrintedString, PiecesMeant;
  }

  lemma TakenName(platform: Platform, limits: Limits, u: Bytes, depth: nat, n: nat, before: map<string, Json>,
                  name: string, rest: Bytes)
    requires ReadName(limits, u) == Success((name, rest)) && name in before
    requires ReadValue(platform, limits, rest, depth + 1, n).Success?
    ensures ReadMembers(platform, limits, u, depth, n, before) == Failure(DuplicateName(name))
  {
    hide ReadName, ReadValue, ReadSeparator;
  }

  /** Around the document: too many bytes, or something behind its value. */
  lemma DocumentFault(platform: Platform, limits: Limits, s: Bytes)
    ensures ReadDocument(platform, limits, s) == Failure(TooLarge) <== |s| > limits.maxBytes
    ensures var r := ReadValue(platform, limits, SkipTrivia(limits.comments, SkipMark(s)), 0, 0);
            |s| <= limits.maxBytes ==>
              && (r.Failure? ==> ReadDocument(platform, limits, s) == Failure(r.error))
              && (r.Success? && SkipTrivia(limits.comments, r.value.rest) != [] ==>
                    ReadDocument(platform, limits, s) == Failure(TrailingContent))
  {
    hide ReadValue, SkipTrivia, SkipMark;
  }
}

/**
 What is written is read back: for values whose texts are well-formed and whose numbers the C library prints
 faithfully, parsing a written value gives the value exactly when it keeps within the parser's limits.
 */
module JsonRoundTrip {
  import opened Wrappers
  import opened Ordering
  import opened Utf8
  import opened Numbers
  import opened Doubles
  import opened JsonValues
  import opened JsonText

  // ----- Strings -----

  /** Bytes that stand for themselves inside a string. */
  lemma {:induction false} RawBytes(m: Bytes, t: Bytes, out: Bytes)
    requires forall i | 0 <= i < |m| :: m[i] >= 0x20 && m[i] != QUOTE && m[i] != BACKSLASH
    ensures ReadChars(m + t, out) == ReadChars(t, out + m)
  {
    if m == [] {
      assert m + t == t && out + m == out;
    } else {
      var s := m + t;
      assert s[0] == m[0] && s[1..] == m[1..] + t;
      RawBytes(m[1..], t, out + [m[0]]);
      assert (out + [m[0]]) + m[1..] == out + m;
    }
  }

  lemma EncodedBytes(cp: int)
    requires IsScalar(cp)
    ensures cp < 0x80 ==> Encode(cp) == [cp]
    ensures cp >= 0x80 ==> forall i | 0 <= i < |Encode(cp)| :: Encode(cp)[i] >= 0x80
  {
  }

  lemma LetterEscape(b: Byte, c: Byte, t: Bytes, out: Bytes)
    requires b != LETTER_U && Unescaped(b) == Some(c)
    ensures ReadChars([BACKSLASH, b] + t, out) == ReadChars(t, out + [c])
  {
    var s := [BACKSLASH, b] + t;
    assert s[0] == BACKSLASH && s[1] == b && s[2..] == t;
  }

  lemma ControlEscape(cp: int, t: Bytes, out: Bytes)
    requires 0 <= cp < 0x20
    ensures ReadChars([BACKSLASH, LETTER_U, ZERO, ZERO, HexDigit(cp / 16), HexDigit(cp % 16)] + t, out) ==
            ReadChars(t, out + [cp])
  {
    var high, low := HexDigit(cp / 16), HexDigit(cp % 16);
    var s := [BACKSLASH, LETTER_U, ZERO, ZERO, high, low] + t;
    assert s[0] == BACKSLASH && s[1] == LETTER_U && s[2..] == [ZERO, ZERO, high, low] + t;
    HexRoundTrip(cp, t);
    assert Encode(cp) == [cp];
    hide ReadUnicode;
    assert IsScalar(cp);
  }

  lemma HexRoundTrip(cp: int, t: Bytes)
    requires 0 <= cp < 0x20
    ensures ReadUnicode([ZERO, ZERO, HexDigit(cp / 16), HexDigit(cp % 16)] + t) == Success((cp, t))
  {
    var hex: Bytes := [ZERO, ZERO, HexDigit(cp / 16), HexDigit(cp % 16)];
    var s := hex + t;
    assert s[..4] == hex && s[4..] == t;
    PlainToTrim(hex);
    assert hex[..3] == [ZERO, ZERO, hex[2]] && hex[..3][..2] == [ZERO, ZERO];
    assert hex[..3][..2][..1] == [ZERO] && hex[..3][..2][..1][..0] == [];
    assert HexNumber([]) == Some(0) && HexNumber([ZERO]) == Some(0) && HexNumber([ZERO, ZERO]) == Some(0);
    assert HexNumber(hex[..3]) == Some(cp / 16);
    assert HexNumber(hex) == Some(cp / 16 * 16 + cp % 16);
  }

  /** Escaping a code point and reading it gives its encoding. */
  lemma PointRoundTrip(cp: int, t: Bytes, out: Bytes)
    requires IsScalar(cp)
    ensures ReadChars(EscapePoint(cp) + t, out) == ReadChars(t, out + Encode(cp))
  {
    EncodedBytes(cp);
    hide ReadChars, Encode, HexDigit;
    if cp == 0x22 { LetterEscape(QUOTE, QUOTE, t, out); }
    else if cp == 0x5C { LetterEscape(BACKSLASH, BACKSLASH, t, out); }
    else if cp == 0x08 { LetterEscape(0x62, 0x08, t, out); }
    else if cp == 0x0C { LetterEscape(0x66, 0x0C, t, out); }
    else if cp == 0x0A { LetterEscape(0x6E, 0x0A, t, out); }
    else if cp == 0x0D { LetterEscape(0x72, 0x0D, t, out); }
    else if cp == 0x09 { LetterEscape(0x74, 0x09, t, out); }
    else if cp < 0x20 { ControlEscape(cp, t, out); }
    else { RawBytes(Encode(cp), t, out); }
  }

  lemma {:induction false} PointsRoundTrip(cps: seq<int>, t: Bytes, out: Bytes)
    requires forall i | 0 <= i < |cps| :: IsScalar(cps[i])
    ensures ReadChars(EscapeAll(cps) + t, out) == ReadChars(t, out + EncodeAll(cps))
  {
    hide ReadChars, EscapePoint, Encode;
    if cps == [] {
      assert [] + t == t && out + [] == out;
    } else {
      var rest := EscapeAll(cps[1..]) + t;
      assert EscapeAll(cps) + t == EscapePoint(cps[0]) + rest;
      PointRoundTrip(cps[0], rest, out);
      PointsRoundTrip(cps[1..], t, out + Encode(cps[0]));
      assert (out + Encode(cps[0])) + EncodeAll(cps[1..]) == out + EncodeAll(cps);
    }
  }

  /** Any string comes back sanitised, and a well-formed one unchanged. */
  lemma StringRoundTrip(s: Bytes, t: Bytes)
    ensures ReadChars(EscapeAll(CodePoints(s)) + ([QUOTE] + t), []) == Success((EncodeAll(CodePoints(s)), t))
    ensures IsUtf8(s) ==> EncodeAll(CodePoints(s)) == s
  {
    var m := EncodeAll(CodePoints(s));
    SanitizeMeaning(s);
    CleanWalkIsUtf8(m);
    PointsRoundTrip(CodePoints(s), [QUOTE] + t, []);
    hide WalkIsClean, EscapeAll, EncodeAll, CodePoints, IsUtf8;
    assert [] + m == m && ([QUOTE] + t)[1..] == t;
  }

  /** A string among other text. */
  lemma TextRoundTrip(text: string, t: Bytes)
    requires IsText(text)
    ensures Escape(BytesOf(text)) + t != [] && (Escape(BytesOf(text)) + t)[0] == QUOTE
    ensures ReadChars((Escape(BytesOf(text)) + t)[1..], []) == Success((BytesOf(text), t))
    ensures TextOf(BytesOf(text)) == text
  {
    TextOfBytes(text);
    TextIsUtf8(text);
    hide *;
    StringRoundTrip(BytesOf(text), t);
    Quoted(EscapeAll(CodePoints(BytesOf(text))), t);
    EscapeIsQuoted(BytesOf(text));
  }

  lemma TextIsUtf8(text: string)
    requires IsText(text)
    ensures IsUtf8(BytesOf(text))
  {
  }

  lemma EscapeIsQuoted(s: Bytes)
    ensures Escape(s) == [QUOTE] + EscapeAll(CodePoints(s)) + [QUOTE]
  {
  }

  lemma Quoted(body: Bytes, t: Bytes)
    ensures var s := [QUOTE] + body + [QUOTE] + t; s != [] && s[0] == QUOTE && s[1..] == body + ([QUOTE] + t)
  {
  }

  // ----- Numbers -----

  /** What may follow a number without being taken for part of it. */
  predicate NumberEnds(rest: Bytes) {
    rest == [] || !(IsDigit(rest[0]) || rest[0] == DOT || rest[0] == 0x65 || rest[0] == 0x45)
  }

  lemma {:induction false} DigitRunOfConcat(a: Bytes, rest: Bytes)
    requires NumberEnds(rest)
    ensures DigitRun(a + rest) == DigitRun(a)
  {
    if a != [] {
      assert (a + rest)[0] == a[0] && (a + rest)[1..] == a[1..] + rest;
      DigitRunOfConcat(a[1..], rest);
    } else {
      assert a + rest == rest;
    }
  }

  lemma IntegerOfConcat(a: Bytes, rest: Bytes)
    requires NumberEnds(rest) && ScanInteger(a).Success?
    ensures ScanInteger(a + rest) == ScanInteger(a)
  {
    DigitRunOfConcat(a, rest);
    assert (a + rest)[0] == a[0];
  }

  lemma FractionOfConcat(a: Bytes, rest: Bytes)
    requires NumberEnds(rest)
    ensures ScanFraction(a + rest) == ScanFraction(a)
  {
    hide DigitRun;
    if a != [] {
      assert (a + rest)[0] == a[0] && (a + rest)[1..] == a[1..] + rest;
      DigitRunOfConcat(a[1..], rest);
    } else {
      assert a + rest == rest;
    }
  }

  lemma ExponentOfConcat(a: Bytes, rest: Bytes)
    requires NumberEnds(rest) && ScanExponent(a).Success?
    ensures ScanExponent(a + rest) == ScanExponent(a)
  {
    if a != [] {
      assert DigitRun([]) == 0;
      hide DigitRun;
      var b := a[1..];
      assert (a + rest)[0] == a[0] && (a + rest)[1..] == b + rest;
      if b != [] {
        assert (b + rest)[0] == b[0];
        var sign := if Begins(b, PLUS) || Begins(b, MINUS) then 1 else 0;
        assert a[1 + sign..] == b[sign..];
        assert (a + rest)[1 + sign..] == b[sign..] + rest;
        DigitRunOfConcat(b[sign..], rest);
      }
    } else {
      assert a + rest == rest;
    }
  }

  /** A number is read up to its end. */
  lemma NumberOfConcat(t: Bytes, rest: Bytes)
    requires NumberEnds(rest) && IsNumberText(t)
    ensures ScanNumber(t + rest) == Success(|t|)
  {
    hide ScanInteger, ScanFraction, ScanExponent;
    var s := t + rest;
    assert t[0] == s[0];
    var sign := if Begins(t, MINUS) then 1 else 0;
    var i := ScanInteger(t[sign..]).value;
    var f := ScanFraction(t[sign + i..]).value;
    assert s[sign..] == t[sign..] + rest;
    assert s[sign + i..] == t[sign + i..] + rest;
    assert s[sign + i + f..] == t[sign + i + f..] + rest;
    IntegerOfConcat(t[sign..], rest);
    FractionOfConcat(t[sign + i..], rest);
    ExponentOfConcat(t[sign + i + f..], rest);
  }

  predicate IsNumberText(t: Bytes) {
    ScanNumber(t) == Success(|t|)
  }

  lemma {:induction false} DigitsFirst(n: nat)
    ensures n > 0 ==> DecimalDigits(n)[0] != ZERO
    ensures n < 10 ==> |DecimalDigits(n)| == 1
  {
    if n >= 10 { DigitsFirst(n / 10); }
  }

  lemma {:induction false} RunOfDigits(s: Bytes)
    requires AllDigits(s)
    ensures DigitRun(s) == |s|
  {
    if s != [] { RunOfDigits(s[1..]); }
  }

  /** The decimal text of an integer is a JSON number. */
  lemma DecimalIsNumber(n: int)
    ensures IsNumberText(Decimal(n)) && |Decimal(n)| > 0
    ensures forall i | 0 <= i < |Decimal(n)| :: 0x20 < Decimal(n)[i] < 0x80
  {
    var digits := DecimalDigits(if n < 0 then -n else n);
    DigitsFirst(if n < 0 then -n else n);
    RunOfDigits(digits);
    assert IsDigit(digits[0]);
    var t := Decimal(n);
    var sign := if n < 0 then 1 else 0;
    assert t[sign..] == digits && t[sign + |digits|..] == [];
    hide DecimalDigits, DigitRun;
    assert ScanFraction([]) == Success(0) && ScanExponent([]) == Success(0);
    assert ScanInteger(digits) == Success(|digits|);
  }

  /** The C library reads back what is printed of this number. */
  predicate Survives(platform: Platform, x: real) {
    IsNumberText(FormatNumber(platform, x)) && ReadDouble(platform, FormatNumber(platform, x)) == Some(x)
  }

  ghost predicate NumbersSurvive(platform: Platform, v: Json) {
    match v
    case Num(n) => Survives(platform, n)
    case Arr(items) => forall i | 0 <= i < |items| :: NumbersSurvive(platform, items[i])
    case Obj(members) => forall key | key in members :: NumbersSurvive(platform, members[key])
    case _ => true
  }

  // ----- Values -----

  /** A byte that is neither blank nor the start of a comment. */
  predicate IsSolid(b: Byte) {
    !IsBlank(b) && b != SLASH
  }

  lemma SolidStays(comments: bool, s: Bytes)
    requires s != [] ==> IsSolid(s[0])
    ensures SkipTrivia(comments, s) == s
  {
  }

  /** What a written value begins with. */
  lemma DumpHead(platform: Platform, v: Json)
    requires NumbersSurvive(platform, v)
    ensures var t := Dump(platform, v);
      && t != [] && t[0] < 0x80 && IsSolid(t[0]) && t[0] != CLOSE_ARRAY && t[0] != CLOSE_OBJECT && t[0] != COMMA
      && (t[0] == OPEN_OBJECT <==> v.Obj?) && (t[0] == OPEN_ARRAY <==> v.Arr?) && (t[0] == QUOTE <==> v.Str?)
      && (v.Num? ==> IsDigit(t[0]) || t[0] == MINUS)
  {
    if v.Num? {
      hide FormatNumber, ReadDouble, ScanFraction, ScanExponent;
      var t := FormatNumber(platform, v.n);
      assert ScanNumber(t).Success?;
      assert t[0] == MINUS || DigitRun(t[0..]) > 0;
      assert t[0..] == t;
    }
  }

  /** Reading gives exactly this when `fits` holds, and an error otherwise. */
  ghost predicate ReadsAs(r: Result<Parsed, JsonError>, v: Json, rest: Bytes, elements: nat, fits: bool) {
    if fits then r == Success(Parsed(v, rest, elements)) else r.Failure?
  }

  ghost predicate Within(limits: Limits, v: Json, depth: nat, n: nat) {
    FitsDepth(v, limits.maxDepth - depth) && n + Elements(v) <= limits.maxElements
  }

  /** A written value is read back in any surroundings, at any depth and with any number of values before it. */
  lemma {:induction false} ValueRoundTrip(
      platform: Platform, limits: Limits, v: Json, rest: Bytes, depth: nat, n: nat)
    requires AllTexts(v) && NumbersSurvive(platform, v) && NumberEnds(rest)
    ensures ReadsAs(ReadValue(platform, limits, Dump(platform, v) + rest, depth, n), v, rest, n + Elements(v),
                    Within(limits, v, depth, n))
    decreases v, 2
  {
    hide ReadValue, Dump, AllTexts, NumbersSurvive, Within, Elements;
    if depth > limits.maxDepth || n + 1 > limits.maxElements {
      LimitExceeded(platform, limits, v, Dump(platform, v) + rest, depth, n);
    } else if v.Arr? {
      ArrayRoundTrip(platform, limits, v, rest, depth, n);
    } else if v.Obj? {
      ObjectRoundTrip(platform, limits, v, rest, depth, n);
    } else {
      ScalarRoundTrip(platform, limits, v, rest, depth, n);
    }
  }

  lemma LimitExceeded(platform: Platform, limits: Limits, v: Json, s: Bytes, depth: nat, n: nat)
    requires depth > limits.maxDepth || n + 1 > limits.maxElements
    ensures ReadValue(platform, limits, s, depth, n).Failure? && !Within(limits, v, depth, n)
  {
  }

  lemma ScalarRoundTrip(platform: Platform, limits: Limits, v: Json, rest: Bytes, depth: nat, n: nat)
    requires !v.Arr? && !v.Obj? && AllTexts(v) && NumbersSurvive(platform, v) && NumberEnds(rest)
    requires depth <= limits.maxDepth && n + 1 <= limits.maxElements
    ensures Within(limits, v, depth, n) && Elements(v) == 1
    ensures ReadValue(platform, limits, Dump(platform, v) + rest, depth, n) == Success(Parsed(v, rest, n + 1))
  {
    var t := Dump(platform, v);
    var s := t + rest;
    DumpHead(platform, v);
    SolidStays(limits.comments, s);
    if v.Str? {
      TextRoundTrip(v.s, rest);
      hide SkipTrivia, ReadChars, Escape, BytesOf, TextOf, IsText;
      StringStarts(platform, limits, s, depth, n);
    } else if v.Num? {
      hide SkipTrivia, Survives, FormatNumber, ReadNumber;
      NumberRoundTrip(platform, v.n, rest, n + 1);
      NumberStarts(platform, limits, s, depth, n);
    } else {
      hide SkipTrivia;
      WordStarts(platform, limits, v, s, rest, depth, n);
    }
  }

  lemma StringStarts(platform: Platform, limits: Limits, s: Bytes, depth: nat, n: nat)
    requires depth <= limits.maxDepth && n + 1 <= limits.maxElements && Begins(s, QUOTE)
    ensures ReadValue(platform, limits, s, depth, n) ==
            match ReadChars(s[1..], [])
            case Failure(e) => Failure(e)
            case Success((m, rest)) => Success(Parsed(Str(TextOf(m)), rest, n + 1))
  {
    SolidStays(limits.comments, s);
    hide ReadChars, TextOf;
  }

  lemma NumberStarts(platform: Platform, limits: Limits, s: Bytes, depth: nat, n: nat)
    requires depth <= limits.maxDepth && n + 1 <= limits.maxElements
    requires s != [] && (IsDigit(s[0]) || s[0] == MINUS)
    ensures ReadValue(platform, limits, s, depth, n) == ReadNumber(platform, s, n + 1)
  {
    SolidStays(limits.comments, s);
    hide ReadNumber;
  }

  lemma WordStarts(platform: Platform, limits: Limits, v: Json, s: Bytes, rest: Bytes, depth: nat, n: nat)
    requires depth <= limits.maxDepth && n + 1 <= limits.maxElements
    requires (v.Null? || v.Bool?) && s == Dump(platform, v) + rest
    ensures ReadValue(platform, limits, s, depth, n) == Success(Parsed(v, rest, n + 1))
  {
    var word := Dump(platform, v);
    SolidStays(limits.comments, s);
    assert word <= s && s[|word|..] == rest && s[0] == word[0];
    hide SkipTrivia;
  }

  lemma NumberRoundTrip(platform: Platform, x: real, rest: Bytes, n: nat)
    requires Survives(platform, x) && NumberEnds(rest)
    ensures ReadNumber(platform, FormatNumber(platform, x) + rest, n) == Success(Parsed(Num(x), rest, n))
  {
    var t := FormatNumber(platform, x);
    NumberOfConcat(t, rest);
    hide FormatNumber, ReadDouble, ScanNumber;
    assert (t + rest)[..|t|] == t && (t + rest)[|t|..] == rest;
  }

  // ----- Arrays -----

  lemma {:induction false} ArrayRoundTrip(
      platform: Platform, limits: Limits, v: Json, rest: Bytes, depth: nat, n: nat)
    requires v.Arr? && AllTexts(v) && NumbersSurvive(platform, v)
    requires depth <= limits.maxDepth && n + 1 <= limits.maxElements
    ensures ReadsAs(ReadValue(platform, limits, Dump(platform, v) + rest, depth, n), v, rest, n + Elements(v),
                    Within(limits, v, depth, n))
    decreases v, 1
  {
    hide *;
    var items := v.items;
    var close := [CLOSE_ARRAY] + rest;
    ArrayWithin(limits, v, depth, n);
    ArrayText(platform, v, rest);
    if items == [] {
      EmptyArray(platform, limits, Dump(platform, v) + rest, depth, n, rest);
    } else {
      EachItem(platform, v);
      ItemsHead(platform, items, close);
      ArrayStarts(platform, limits, Dump(platform, v) + rest, DumpItems(platform, items) + close, depth, n);
      ItemsRoundTrip(platform, limits, items, rest, depth, n + 1, []);
      assert [] + items == items;
    }
  }

  lemma EachItem(platform: Platform, v: Json)
    requires v.Arr? && AllTexts(v) && NumbersSurvive(platform, v)
    ensures ItemsWritable(platform, v.items)
  {
  }

  ghost predicate ItemsWritable(platform: Platform, items: seq<Json>) {
    forall i | 0 <= i < |items| :: AllTexts(items[i]) && NumbersSurvive(platform, items[i])
  }

  lemma FirstItem(platform: Platform, items: seq<Json>)
    requires ItemsWritable(platform, items) && items != []
    ensures AllTexts(items[0]) && NumbersSurvive(platform, items[0]) && ItemsWritable(platform, items[1..])
  {
  }

  lemma ArrayText(platform: Platform, v: Json, rest: Bytes)
    requires v.Arr?
    ensures Dump(platform, v) + rest == [OPEN_ARRAY] + (DumpItems(platform, v.items) + ([CLOSE_ARRAY] + rest))
    ensures v.items == [] ==> Dump(platform, v) + rest == [OPEN_ARRAY] + ([CLOSE_ARRAY] + rest)
  {
  }

  lemma ArrayWithin(limits: Limits, v: Json, depth: nat, n: nat)
    requires v.Arr? && depth <= limits.maxDepth && n + 1 <= limits.maxElements
    ensures Within(limits, v, depth, n) <==> ItemsWithin(limits, v.items, depth, n + 1)
    ensures Elements(v) == 1 + ItemElements(v.items)
    ensures v.items == [] ==> ItemElements(v.items) == 0 && ItemsWithin(limits, v.items, depth, n + 1)
  {
  }

  lemma EmptyArray(platform: Platform, limits: Limits, s: Bytes, depth: nat, n: nat, rest: Bytes)
    requires depth <= limits.maxDepth && n + 1 <= limits.maxElements
    requires s == [OPEN_ARRAY] + ([CLOSE_ARRAY] + rest)
    ensures ReadsAs(ReadValue(platform, limits, s, depth, n), Arr([]), rest, n + 1, true)
  {
    SolidStays(limits.comments, s);
    SolidStays(limits.comments, [CLOSE_ARRAY] + rest);
  }

  lemma ArrayStarts(platform: Platform, limits: Limits, s: Bytes, body: Bytes, depth: nat, n: nat)
    requires depth <= limits.maxDepth && n + 1 <= limits.maxElements
    requires s == [OPEN_ARRAY] + body && IsItemHead(body)
    ensures ReadValue(platform, limits, s, depth, n) == ReadItems(platform, limits, body, depth, n + 1, [])
  {
    SolidStays(limits.comments, s);
    SolidStays(limits.comments, body);
    hide ReadItems;
  }

  /** A text that begins with a value. */
  ghost predicate IsItemHead(s: Bytes) {
    s != [] && IsSolid(s[0]) && s[0] != CLOSE_ARRAY
  }

  lemma ItemsHead(platform: Platform, items: seq<Json>, close: Bytes)
    requires items != [] && ItemsWritable(platform, items)
    ensures IsItemHead(DumpItems(platform, items) + close)
  {
    DumpHead(platform, items[0]);
    hide Dump;
    assert DumpItems(platform, items)[0] == Dump(platform, items[0])[0];
  }

  /** The last item of an array. */
  lemma LastItem(platform: Platform, limits: Limits, s: Bytes, depth: nat, n: nat, done: seq<Json>,
                 v: Json, rest: Bytes, elements: nat, fits: bool)
    requires ReadsAs(ReadValue(platform, limits, s, depth + 1, n), v, [CLOSE_ARRAY] + rest, elements, fits)
    ensures ReadsAs(ReadItems(platform, limits, s, depth, n, done), Arr(done + [v]), rest, elements, fits)
  {
    hide ReadValue;
    SolidStays(limits.comments, [CLOSE_ARRAY] + rest);
  }

  /** An item that another one follows. */
  lemma NextItem(platform: Platform, limits: Limits, s: Bytes, depth: nat, n: nat, done: seq<Json>,
                 v: Json, tail: Bytes, elements: nat, fits: bool)
    requires ReadsAs(ReadValue(platform, limits, s, depth + 1, n), v, [COMMA] + tail, elements, fits)
    requires IsItemHead(tail)
    ensures if fits then ReadItems(platform, limits, s, depth, n, done) ==
                         ReadItems(platform, limits, tail, depth, elements, done + [v])
            else ReadItems(platform, limits, s, depth, n, done).Failure?
  {
    hide ReadValue;
    SolidStays(limits.comments, [COMMA] + tail);
    SolidStays(limits.comments, tail);
    assert ([COMMA] + tail)[1..] == tail;
  }

  ghost predicate AllFit(items: seq<Json>, depth: int) {
    forall i | 0 <= i < |items| :: FitsDepth(items[i], depth)
  }

  ghost predicate ItemsWithin(limits: Limits, items: seq<Json>, depth: nat, n: nat) {
    && AllFit(items, limits.maxDepth - depth - 1)
    && n + ItemElements(items) <= limits.maxElements
  }

  lemma {:induction false} ItemsRoundTrip(
      platform: Platform, limits: Limits, items: seq<Json>, rest: Bytes, depth: nat, n: nat, done: seq<Json>)
    requires items != [] && ItemsWritable(platform, items)
    ensures ReadsAs(ReadItems(platform, limits, DumpItems(platform, items) + ([CLOSE_ARRAY] + rest), depth, n, done),
                    Arr(done + items), rest, n + ItemElements(items), ItemsWithin(limits, items, depth, n))
    decreases items, 0
  {
    hide *;
    var first, others, close := items[0], items[1..], [CLOSE_ARRAY] + rest;
    FirstItem(platform, items);
    ItemsUnfold(limits, items, depth, n);
    var fits := Within(limits, first, depth + 1, n);
    var after := n + Elements(first);
    var s := DumpItems(platform, items) + close;
    if |items| == 1 {
      ItemsText(platform, items, close, s);
      CloseEndsNumber(close);
      ValueRoundTrip(platform, limits, first, close, depth + 1, n);
      LastItem(platform, limits, s, depth, n, done, first, rest, after, fits);
      assert items == [first];
    } else {
      var tail := DumpItems(platform, others) + close;
      ItemsText(platform, items, close, s);
      CloseEndsNumber([COMMA] + tail);
      ValueRoundTrip(platform, limits, first, [COMMA] + tail, depth + 1, n);
      ItemsHead(platform, others, close);
      NextItem(platform, limits, s, depth, n, done, first, tail, after, fits);
      ItemsRoundTrip(platform, limits, others, rest, depth, after, done + [first]);
      assert done + items == (done + [first]) + others;
      Continued(ReadItems(platform, limits, s, depth, n, done),
                ReadItems(platform, limits, tail, depth, after, done + [first]),
                Arr(done + items), rest, n + ItemElements(items), fits,
                ItemsWithin(limits, others, depth, after));
    }
  }

  lemma ItemsText(platform: Platform, items: seq<Json>, close: Bytes, s: Bytes)
    requires items != [] && s == DumpItems(platform, items) + close
    ensures s == Dump(platform, items[0]) +
                 if |items| == 1 then close else [COMMA] + (DumpItems(platform, items[1..]) + close)
  {
    hide Dump;
  }

  lemma ItemsUnfold(limits: Limits, items: seq<Json>, depth: nat, n: nat)
    requires items != []
    ensures ItemElements(items) == Elements(items[0]) + ItemElements(items[1..])
    ensures |items| == 1 ==> ItemElements(items) == Elements(items[0])
    ensures |items| == 1 ==> (ItemsWithin(limits, items, depth, n) <==> Within(limits, items[0], depth + 1, n))
    ensures ItemsWithin(limits, items, depth, n) <==>
            Within(limits, items[0], depth + 1, n) &&
            ItemsWithin(limits, items[1..], depth, n + Elements(items[0]))
  {
    hide Elements, FitsDepth, AllFit;
    ItemsFit(items, limits.maxDepth - depth - 1);
    ItemsCount(items);
    hide ItemElements;
  }

  lemma ItemsCount(items: seq<Json>)
    requires items != []
    ensures ItemElements(items) == Elements(items[0]) + ItemElements(items[1..])
    ensures |items| == 1 ==> ItemElements(items[1..]) == 0
  {
    hide Elements;
    if |items| == 1 { assert items[1..] == []; }
  }

  lemma ItemsFit(items: seq<Json>, depth: int)
    requires items != []
    ensures AllFit(items, depth) <==> FitsDepth(items[0], depth) && AllFit(items[1..], depth)
    ensures |items| == 1 ==> AllFit(items[1..], depth)
  {
    hide FitsDepth;
    var rest := items[1..];
    if FitsDepth(items[0], depth) && AllFit(rest, depth) {
      forall i | 0 <= i < |items| ensures FitsDepth(items[i], depth) {
        if i > 0 { assert items[i] == rest[i - 1]; }
      }
    }
  }

  // ----- Objects -----

  lemma {:induction false} ObjectRoundTrip(
      platform: Platform, limits: Limits, v: Json, rest: Bytes, depth: nat, n: nat)
    requires v.Obj? && AllTexts(v) && NumbersSurvive(platform, v)
    requires depth <= limits.maxDepth && n + 1 <= limits.maxElements
    ensures ReadsAs(ReadValue(platform, limits, Dump(platform, v) + rest, depth, n), v, rest, n + Elements(v),
                    Within(limits, v, depth, n))
    decreases v, 1
  {
    hide *;
    var keys := SortedKeys(v.members.Keys);
    ObjectWithin(limits, v, keys, depth, n);
    AllListed(v, keys);
    ObjectText(platform, v, rest);
    PartOfAll(v, keys);
    if keys == [] {
      EmptyObject(platform, limits, Dump(platform, v) + rest, depth, n, rest);
    } else {
      var body := DumpMembers(platform, v, keys) + ([CLOSE_OBJECT] + rest);
      MembersHead(platform, v, keys, [CLOSE_OBJECT] + rest);
      ObjectStarts(platform, limits, Dump(platform, v) + rest, body, depth, n);
      MembersRoundTrip(platform, limits, v, keys, rest, depth, n + 1, map[]);
    }
  }

  lemma ObjectText(platform: Platform, v: Json, rest: Bytes)
    requires v.Obj?
    ensures var keys := SortedKeys(v.members.Keys);
            var body := DumpMembers(platform, v, keys) + ([CLOSE_OBJECT] + rest);
            && Dump(platform, v) + rest == [OPEN_OBJECT] + body
            && (keys == [] ==> Dump(platform, v) + rest == [OPEN_OBJECT] + ([CLOSE_OBJECT] + rest))
  {
    var keys := SortedKeys(v.members.Keys);
    AllListed(v, keys);
    assert keys == [] ==> DumpMembers(platform, v, keys) == [];
    assert Dump(platform, v) == [OPEN_OBJECT] + DumpMembers(platform, v, keys) + [CLOSE_OBJECT];
    hide Dump, DumpMembers, Lists, Names, HasNames;
    Regroup(DumpMembers(platform, v, keys), rest);
  }

  lemma Regroup(body: Bytes, rest: Bytes)
    ensures ([OPEN_OBJECT] + body + [CLOSE_OBJECT]) + rest == [OPEN_OBJECT] + (body + ([CLOSE_OBJECT] + rest))
    ensures body == [] ==> body + ([CLOSE_OBJECT] + rest) == [CLOSE_OBJECT] + rest
  {
  }

  /** Names of members, none twice. */
  ghost predicate Names(v: Json, keys: seq<string>) {
    && HasNames(v, keys)
    && forall i, j | 0 <= i < j < |keys| :: keys[i] != keys[j]
  }

  /** The members under these names. */
  ghost function Part(v: Json, keys: seq<string>): map<string, Json>
    requires HasNames(v, keys)
  {
    map k | k in keys :: v.members[k]
  }

  lemma PartOfAll(v: Json, keys: seq<string>)
    requires HasNames(v, keys) && forall k :: k in keys <==> k in v.members
    ensures Obj(map[] + Part(v, keys)) == v
    ensures keys == [] ==> v == Obj(map[])
  {
    assert map[] + Part(v, keys) == v.members;
    if keys == [] { assert forall k :: k !in v.members; }
  }

  lemma AllListed(v: Json, keys: seq<string>)
    requires v.Obj? && keys == SortedKeys(v.members.Keys)
    ensures Names(v, keys) && Apart(keys, map[]) && HasNames(v, keys) && forall k :: k in keys <==> k in v.members
  {
    forall i, j | 0 <= i < j < |keys| ensures keys[i] != keys[j] {
      LessIsStrict(keys[i], keys[j]);
    }
  }

  ghost predicate MembersWithin(limits: Limits, v: Json, keys: seq<string>, depth: nat, n: nat)
    requires HasNames(v, keys)
  {
    && (forall k | k in keys :: FitsDepth(v.members[k], limits.maxDepth - depth - 1))
    && n + MemberElements(v, keys) <= limits.maxElements
  }

  lemma ObjectWithin(limits: Limits, v: Json, keys: seq<string>, depth: nat, n: nat)
    requires v.Obj? && depth <= limits.maxDepth && n + 1 <= limits.maxElements
    requires keys == SortedKeys(v.members.Keys)
    ensures Within(limits, v, depth, n) <==> MembersWithin(limits, v, keys, depth, n + 1)
    ensures Elements(v) == 1 + MemberElements(v, keys)
    ensures keys == [] ==> MemberElements(v, keys) == 0 && MembersWithin(limits, v, keys, depth, n + 1)
  {
  }

  lemma EmptyObject(platform: Platform, limits: Limits, s: Bytes, depth: nat, n: nat, rest: Bytes)
    requires depth <= limits.maxDepth && n + 1 <= limits.maxElements
    requires s == [OPEN_OBJECT] + ([CLOSE_OBJECT] + rest)
    ensures ReadsAs(ReadValue(platform, limits, s, depth, n), Obj(map[]), rest, n + 1, true)
  {
    SolidStays(limits.comments, s);
    SolidStays(limits.comments, [CLOSE_OBJECT] + rest);
  }

  lemma ObjectStarts(platform: Platform, limits: Limits, s: Bytes, body: Bytes, depth: nat, n: nat)
    requires depth <= limits.maxDepth && n + 1 <= limits.maxElements
    requires s == [OPEN_OBJECT] + body && Begins(body, QUOTE)
    ensures ReadValue(platform, limits, s, depth, n) == ReadMembers(platform, limits, body, depth, n + 1, map[])
  {
    SolidStays(limits.comments, s);
    SolidStays(limits.comments, body);
    hide ReadMembers;
  }

  lemma MembersHead(platform: Platform, v: Json, keys: seq<string>, close: Bytes)
    requires Names(v, keys) && keys != []
    ensures HasNames(v, keys) && Begins(DumpMembers(platform, v, keys) + close, QUOTE)
  {
    hide Dump, EscapeAll, BytesOf, CodePoints;
    assert Begins(DumpMember(platform, v, keys[0]), QUOTE);
  }

  /** A written name is read back. */
  lemma NameRoundTrip(limits: Limits, key: string, t: Bytes)
    requires IsText(key)
    ensures ReadName(limits, Escape(BytesOf(key)) + ([COLON] + t)) == Success((key, t))
  {
    var s := Escape(BytesOf(key)) + ([COLON] + t);
    TextRoundTrip(key, [COLON] + t);
    hide ReadChars, Escape, BytesOf, TextOf, IsText;
    SolidStays(limits.comments, s);
    SolidStays(limits.comments, [COLON] + t);
    assert ([COLON] + t)[1..] == t;
  }

  /** The last member of an object. */
  lemma LastMember(platform: Platform, limits: Limits, s: Bytes, afterName: Bytes, depth: nat, n: nat,
                   done: map<string, Json>, key: string, v: Json, rest: Bytes, elements: nat, fits: bool)
    requires ReadName(limits, s) == Success((key, afterName)) && key !in done
    requires ReadsAs(ReadValue(platform, limits, afterName, depth + 1, n), v, [CLOSE_OBJECT] + rest, elements, fits)
    ensures ReadsAs(ReadMembers(platform, limits, s, depth, n, done), Obj(done[key := v]), rest, elements, fits)
  {
    hide ReadValue, ReadName;
    SolidStays(limits.comments, [CLOSE_OBJECT] + rest);
  }

  /** A member that another one follows. */
  lemma NextMember(platform: Platform, limits: Limits, s: Bytes, afterName: Bytes, depth: nat, n: nat,
                   done: map<string, Json>, key: string, v: Json, tail: Bytes, elements: nat, fits: bool)
    requires ReadName(limits, s) == Success((key, afterName)) && key !in done
    requires ReadsAs(ReadValue(platform, limits, afterName, depth + 1, n), v, [COMMA] + tail, elements, fits)
    requires Begins(tail, QUOTE)
    ensures if fits then ReadMembers(platform, limits, s, depth, n, done) ==
                         ReadMembers(platform, limits, tail, depth, elements, done[key := v])
            else ReadMembers(platform, limits, s, depth, n, done).Failure?
  {
    hide ReadValue, ReadName;
    SolidStays(limits.comments, [COMMA] + tail);
    SolidStays(limits.comments, tail);
    assert ([COMMA] + tail)[1..] == tail;
  }

  lemma {:induction false} MembersRoundTrip(
      platform: Platform, limits: Limits, v: Json, keys: seq<string>, rest: Bytes, depth: nat, n: nat,
      done: map<string, Json>)
    requires AllTexts(v) && NumbersSurvive(platform, v) && Names(v, keys) && keys != [] && Apart(keys, done)
    ensures HasNames(v, keys)
    ensures ReadsAs(ReadMembers(platform, limits, DumpMembers(platform, v, keys) + ([CLOSE_OBJECT] + rest),
                                depth, n, done),
                    Obj(done + Part(v, keys)), rest, n + MemberElements(v, keys),
                    MembersWithin(limits, v, keys, depth, n))
    decreases v, 0, |keys|
  {
    hide *;
    var key, others, close := keys[0], keys[1..], [CLOSE_OBJECT] + rest;
    MemberOf(platform, v, keys, done);
    var member := v.members[key];
    MembersUnfold(limits, v, keys, depth, n, done);
    var fits := Within(limits, member, depth + 1, n);
    var after := n + Elements(member);
    var s := DumpMembers(platform, v, keys) + close;
    if |keys| == 1 {
      var text := Dump(platform, member) + close;
      MembersText(platform, v, keys, close, text);
      NameRoundTrip(limits, key, text);
      CloseEndsNumber(close);
      ValueRoundTrip(platform, limits, member, close, depth + 1, n);
      LastMember(platform, limits, s, text, depth, n, done, key, member, rest, after, fits);
    } else {
      var tail := DumpMembers(platform, v, others) + close;
      var text := Dump(platform, member) + ([COMMA] + tail);
      MembersText(platform, v, keys, close, text);
      NameRoundTrip(limits, key, text);
      CloseEndsNumber([COMMA] + tail);
      ValueRoundTrip(platform, limits, member, [COMMA] + tail, depth + 1, n);
      MembersHead(platform, v, others, close);
      NextMember(platform, limits, s, text, depth, n, done, key, member, tail, after, fits);
      MembersRoundTrip(platform, limits, v, others, rest, depth, after, done[key := member]);
      Continued(ReadMembers(platform, limits, s, depth, n, done),
                ReadMembers(platform, limits, tail, depth, after, done[key := member]),
                Obj(done + Part(v, keys)), rest, n + MemberElements(v, keys), fits,
                MembersWithin(limits, v, others, depth, after));
    }
  }

  lemma Continued(r: Result<Parsed, JsonError>, more: Result<Parsed, JsonError>, v: Json, rest: Bytes, elements: nat,
                  fits: bool, moreFits: bool)
    requires if fits then r == more else r.Failure?
    requires ReadsAs(more, v, rest, elements, moreFits)
    ensures ReadsAs(r, v, rest, elements, fits && moreFits)
  {
  }

  ghost predicate Apart(keys: seq<string>, done: map<string, Json>) {
    forall k | k in keys :: k !in done
  }

  lemma CloseEndsNumber(rest: Bytes)
    requires rest != [] && (rest[0] == COMMA || rest[0] == CLOSE_OBJECT || rest[0] == CLOSE_ARRAY)
    ensures NumberEnds(rest)
  {
  }

  lemma MemberOf(platform: Platform, v: Json, keys: seq<string>, done: map<string, Json>)
    requires AllTexts(v) && NumbersSurvive(platform, v) && Names(v, keys) && keys != [] && Apart(keys, done)
    ensures HasNames(v, keys) && HasNames(v, keys[1..]) && keys[0] in v.members && keys[0] !in done
    ensures IsText(keys[0]) && AllTexts(v.members[keys[0]]) && NumbersSurvive(platform, v.members[keys[0]])
    ensures v.members[keys[0]] < v
  {
  }

  lemma MembersText(platform: Platform, v: Json, keys: seq<string>, close: Bytes, text: Bytes)
    requires HasNames(v, keys) && keys != [] && HasNames(v, keys[1..]) && keys[0] in v.members
    requires text == Dump(platform, v.members[keys[0]]) +
                     if |keys| == 1 then close else [COMMA] + (DumpMembers(platform, v, keys[1..]) + close)
    ensures DumpMembers(platform, v, keys) + close == Escape(BytesOf(keys[0])) + ([COLON] + text)
  {
    hide Dump, Escape, BytesOf;
  }

  lemma MembersUnfold(limits: Limits, v: Json, keys: seq<string>, depth: nat, n: nat, done: map<string, Json>)
    requires Names(v, keys) && keys != [] && Apart(keys, done)
    requires HasNames(v, keys) && HasNames(v, keys[1..]) && keys[0] in v.members
    ensures var member, others := v.members[keys[0]], keys[1..];
      && Names(v, others) && Apart(others, done[keys[0] := member])
      && MemberElements(v, keys) == Elements(member) + MemberElements(v, others)
      && (|keys| == 1 ==> MemberElements(v, keys) == Elements(member))
      && (|keys| == 1 ==> (MembersWithin(limits, v, keys, depth, n) <==> Within(limits, member, depth + 1, n)))
      && (MembersWithin(limits, v, keys, depth, n) <==>
          Within(limits, member, depth + 1, n) && MembersWithin(limits, v, others, depth, n + Elements(member)))
      && done + Part(v, keys) == done[keys[0] := member] + Part(v, others)
      && (|keys| == 1 ==> done + Part(v, keys) == done[keys[0] := member])
  {
    NamesUnfold(v, keys);
    ElementsUnfold(v, keys);
    PartUnfold(v, keys, done);
    hide Elements, FitsDepth, MemberElements, Names, Part;
  }

  lemma NamesUnfold(v: Json, keys: seq<string>)
    requires Names(v, keys) && keys != []
    ensures Names(v, keys[1..]) && keys[0] !in keys[1..]
    ensures forall k :: k in keys <==> k == keys[0] || k in keys[1..]
  {
    assert keys == [keys[0]] + keys[1..];
  }

  lemma ElementsUnfold(v: Json, keys: seq<string>)
    requires HasNames(v, keys) && keys != [] && HasNames(v, keys[1..])
    ensures keys[0] in v.members
    ensures MemberElements(v, keys) == Elements(v.members[keys[0]]) + MemberElements(v, keys[1..])
    ensures |keys| == 1 ==> keys[1..] == [] && MemberElements(v, keys[1..]) == 0
  {
    hide Elements;
  }

  lemma PartUnfold(v: Json, keys: seq<string>, done: map<string, Json>)
    requires HasNames(v, keys) && keys != [] && HasNames(v, keys[1..]) && keys[0] in v.members
    requires forall k :: k in keys <==> k == keys[0] || k in keys[1..]
    ensures done + Part(v, keys) == done[keys[0] := v.members[keys[0]]] + Part(v, keys[1..])
    ensures |keys| == 1 ==> done + Part(v, keys) == done[keys[0] := v.members[keys[0]]]
  {
  }

  // ----- What a parser may return -----

  /** strtod returns doubles. */
  ghost predicate ReadsDoubles(platform: Platform) {
    forall t :: platform.read(t).Some? ==> IsDouble(platform.read(t).value)
  }

  ghost predicate IsDocument(platform: Platform, v: Json, depth: int) {
    AllTexts(v) && FitsDepth(v, depth) && (ReadsDoubles(platform) ==> AllDoubles(v))
  }

  lemma {:induction false} ValueIsDocument(platform: Platform, limits: Limits, s: Bytes, depth: nat, n: nat)
    requires ReadValue(platform, limits, s, depth, n).Success?
    ensures IsDocument(platform, ReadValue(platform, limits, s, depth, n).value.value, limits.maxDepth - depth)
    decreases |s|, 2
  {
    var t := SkipTrivia(limits.comments, s);
    hide SkipTrivia, ReadItems, ReadMembers, ReadNumber, ReadChars;
    if t[0] == OPEN_OBJECT {
      var u := SkipTrivia(limits.comments, t[1..]);
      if !Begins(u, CLOSE_OBJECT) { MembersAreDocument(platform, limits, u, depth, n + 1, map[]); }
    } else if t[0] == OPEN_ARRAY {
      var u := SkipTrivia(limits.comments, t[1..]);
      if !Begins(u, CLOSE_ARRAY) { ItemsAreDocument(platform, limits, u, depth, n + 1, []); }
    } else if t[0] == QUOTE {
      CharsAreText(t[1..], []);
      hide IsText;
    } else {
      NumberIsDocument(platform, t, n + 1);
    }
  }

  lemma NumberIsDocument(platform: Platform, s: Bytes, n: nat)
    ensures ReadNumber(platform, s, n).Success? ==> ReadNumber(platform, s, n).value.value.Num?
    ensures ReadNumber(platform, s, n).Success? && ReadsDoubles(platform) ==>
              IsDouble(ReadNumber(platform, s, n).value.value.n)
  {
    hide IsDouble, Trim, ScanNumber;
  }

  lemma {:induction false} CharsAreText(s: Bytes, out: Bytes)
    requires ReadChars(s, out).Success?
    ensures IsText(TextOf(ReadChars(s, out).value.0))
    decreases |s|
  {
    hide IsText, ReadUnicode, WalkIsClean, Unescaped, Encode;
    if s[0] == QUOTE {
      CleanWalkIsUtf8(out);
      BytesOfText(out);
    } else if s[0] != BACKSLASH {
      CharsAreText(s[1..], out + [s[0]]);
    } else if s[1] == LETTER_U {
      var cp, rest := ReadUnicode(s[2..]).value.0, ReadUnicode(s[2..]).value.1;
      CharsAreText(rest, out + Encode(if IsScalar(cp) then cp else REPLACEMENT));
    } else {
      CharsAreText(s[2..], out + [Unescaped(s[1]).value]);
    }
  }

  lemma {:induction false} ItemsAreDocument(
      platform: Platform, limits: Limits, s: Bytes, depth: nat, n: nat, items: seq<Json>)
    requires ReadItems(platform, limits, s, depth, n, items).Success? && depth <= limits.maxDepth
    requires forall i | 0 <= i < |items| :: IsDocument(platform, items[i], limits.maxDepth - depth - 1)
    ensures IsDocument(platform, ReadItems(platform, limits, s, depth, n, items).value.value, limits.maxDepth - depth)
    decreases |s|, 3
  {
    ValueIsDocument(platform, limits, s, depth + 1, n);
    hide ReadValue, SkipTrivia;
    var p := ReadValue(platform, limits, s, depth + 1, n).value;
    var more := items + [p.value];
    ArrayIsDocument(platform, more, limits.maxDepth - depth);
    hide IsDocument;
    var t := SkipTrivia(limits.comments, p.rest);
    if Begins(t, COMMA) {
      var u := SkipTrivia(limits.comments, t[1..]);
      if !Begins(u, CLOSE_ARRAY) { ItemsAreDocument(platform, limits, u, depth, p.elements, more); }
    }
  }

  lemma ArrayIsDocument(platform: Platform, items: seq<Json>, depth: int)
    requires depth >= 0 && forall i | 0 <= i < |items| :: IsDocument(platform, items[i], depth - 1)
    ensures IsDocument(platform, Arr(items), depth)
  {
    hide ReadsDoubles;
  }

  ghost predicate MembersAre(platform: Platform, members: map<string, Json>, depth: int) {
    forall key | key in members :: IsText(key) && IsDocument(platform, members[key], depth)
  }

  lemma ObjectIsDocument(platform: Platform, members: map<string, Json>, depth: int)
    requires depth >= 0 && MembersAre(platform, members, depth - 1)
    ensures IsDocument(platform, Obj(members), depth)
  {
    hide ReadsDoubles, IsText;
  }

  lemma NameIsShorter(limits: Limits, s: Bytes)
    requires ReadName(limits, s).Success?
    ensures |ReadName(limits, s).value.1| < |s|
  {
  }

  lemma MoreMembers(platform: Platform, members: map<string, Json>, name: string, v: Json, depth: int)
    requires MembersAre(platform, members, depth) && IsText(name) && IsDocument(platform, v, depth)
    ensures MembersAre(platform, members[name := v], depth)
  {
    hide IsDocument, IsText;
  }

  lemma NameIsText(limits: Limits, s: Bytes)
    requires ReadName(limits, s).Success?
    ensures IsText(ReadName(limits, s).value.0)
  {
    hide SkipTrivia, ReadChars, IsText, TextOf;
    CharsAreText(SkipTrivia(limits.comments, s)[1..], []);
  }

  lemma {:induction false} MembersAreDocument(
      platform: Platform, limits: Limits, s: Bytes, depth: nat, n: nat, members: map<string, Json>)
    requires ReadMembers(platform, limits, s, depth, n, members).Success? && depth <= limits.maxDepth
    requires MembersAre(platform, members, limits.maxDepth - depth - 1)
    ensures IsDocument(platform, ReadMembers(platform, limits, s, depth, n, members).value.value,
                       limits.maxDepth - depth)
    decreases |s|, 3
  {
    hide *;
    var rest, name, p := NextMembers(platform, limits, s, depth, n, members);
    NameIsText(limits, s);
    NameIsShorter(limits, s);
    ValueIsDocument(platform, limits, ReadName(limits, s).value.1, depth + 1, n);
    var more := members[name := p.value];
    MoreMembers(platform, members, name, p.value, limits.maxDepth - depth - 1);
    ObjectIsDocument(platform, more, limits.maxDepth - depth);
    if rest.Some? { MembersAreDocument(platform, limits, rest.value, depth, p.elements, more); }
  }

  /** One round of the members' loop: the member read, and where the next round begins if there is one. */
  lemma NextMembers(platform: Platform, limits: Limits, s: Bytes, depth: nat, n: nat, members: map<string, Json>)
    returns (rest: Option<Bytes>, name: string, p: Parsed)
    requires ReadMembers(platform, limits, s, depth, n, members).Success?
    ensures ReadName(limits, s).Success? && name == ReadName(limits, s).value.0
    ensures ReadValue(platform, limits, ReadName(limits, s).value.1, depth + 1, n) == Success(p)
    ensures rest.Some? ==> |rest.value| < |s|
    ensures rest.Some? ==>
              ReadMembers(platform, limits, s, depth, n, members) ==
              ReadMembers(platform, limits, rest.value, depth, p.elements, members[name := p.value])
    ensures rest.None? ==>
              ReadMembers(platform, limits, s, depth, n, members).value.value == Obj(members[name := p.value])
  {
    hide ReadValue, SkipTrivia, ReadName;
    name := ReadName(limits, s).value.0;
    p := ReadValue(platform, limits, ReadName(limits, s).value.1, depth + 1, n).value;
    var t := SkipTrivia(limits.comments, p.rest);
    rest := if Begins(t, COMMA) && !Begins(SkipTrivia(limits.comments, t[1..]), CLOSE_OBJECT)
            then Some(SkipTrivia(limits.comments, t[1..])) else None;
  }

  /** Whatever text is parsed, the value holds well-formed text only, keeps the nesting limit, and its numbers
      are doubles. */
  lemma ParsedIsDocument(platform: Platform, limits: Limits, s: Bytes)
    requires ReadDocument(platform, limits, s).Success?
    ensures IsDocument(platform, ReadDocument(platform, limits, s).value, limits.maxDepth)
  {
    hide SkipTrivia, ReadValue, IsDocument;
    ValueIsDocument(platform, limits, SkipTrivia(limits.comments, SkipMark(s)), 0, 0);
  }

  // ----- The theorem -----

  /** The written value keeps within the parser's limits. */
  ghost predicate KeepsLimits(platform: Platform, limits: Limits, v: Json) {
    && FitsDepth(v, limits.maxDepth) && Elements(v) <= limits.maxElements
    && |Dump(platform, v)| <= limits.maxBytes
  }

  /** parse(dump(v)) is v exactly when the texts in v are well-formed and v keeps within the limits; with
      well-formed texts it is v or an error. */
  lemma ParseOfDump(platform: Platform, limits: Limits, v: Json)
    requires NumbersSurvive(platform, v)
    ensures ReadDocument(platform, limits, Dump(platform, v)) == Success(v) <==>
            AllTexts(v) && KeepsLimits(platform, limits, v)
    ensures AllTexts(v) && ReadDocument(platform, limits, Dump(platform, v)).Success? ==>
              ReadDocument(platform, limits, Dump(platform, v)) == Success(v)
  {
    if AllTexts(v) {
      ParseOfDumpedTexts(platform, limits, v);
    } else if ReadDocument(platform, limits, Dump(platform, v)) == Success(v) {
      hide ReadDocument, KeepsLimits, AllTexts;
      ParsedIsDocument(platform, limits, Dump(platform, v));
    }
  }

  lemma ParseOfDumpedTexts(platform: Platform, limits: Limits, v: Json)
    requires NumbersSurvive(platform, v) && AllTexts(v)
    ensures var r := ReadDocument(platform, limits, Dump(platform, v));
            if KeepsLimits(platform, limits, v) then r == Success(v) else r.Failure?
  {
    hide SkipTrivia, ReadValue, FitsDepth, Elements, Dump, AllTexts, NumbersSurvive;
    var s := Dump(platform, v);
    DumpHead(platform, v);
    TextStarts(limits, s);
    assert s + [] == s;
    ValueRoundTrip(platform, limits, v, [], 0, 0);
  }

  lemma TextStarts(limits: Limits, s: Bytes)
    requires s != [] && s[0] < 0x80 && IsSolid(s[0])
    ensures SkipTrivia(limits.comments, SkipMark(s)) == s && SkipTrivia(limits.comments, []) == []
  {
    SolidStays(limits.comments, s);
    SolidStays(limits.comments, []);
    hide SkipTrivia;
  }
}

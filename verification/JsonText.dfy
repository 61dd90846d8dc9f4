/**
 JSON text (desktop/src/core/json/json.cpp): the writer without indentation and the hardened parser.

 `Dump` says what is written and `ReadValue`, `ReadItems`, `ReadMembers` and `ReadChars` what is read from the
 rest of the input, each a reading of one function of the source; the class `Parser` in JsonParser is the
 source's own, which moves a position.  What they are to each other is proved in JsonRoundTrip.

 Printing a number with %.17g and strtod are the C library's: the parameter `Platform`.
 */
module JsonText {
  import opened Wrappers
  import opened Utf8
  import opened Numbers
  import opened Doubles
  import opened JsonValues

  const QUOTE: Byte := 0x22
  const BACKSLASH: Byte := 0x5C
  const SLASH: Byte := 0x2F
  const STAR: Byte := 0x2A
  const NEWLINE: Byte := 0x0A
  const COMMA: Byte := 0x2C
  const COLON: Byte := 0x3A
  const DOT: Byte := 0x2E
  const OPEN_ARRAY: Byte := 0x5B
  const CLOSE_ARRAY: Byte := 0x5D
  const OPEN_OBJECT: Byte := 0x7B
  const CLOSE_OBJECT: Byte := 0x7D
  const LETTER_U: Byte := 0x75

  /** The words null, true and false. */
  const NULL_WORD: Bytes := [0x6E, 0x75, 0x6C, 0x6C]
  const TRUE_WORD: Bytes := [0x74, 0x72, 0x75, 0x65]
  const FALSE_WORD: Bytes := [0x66, 0x61, 0x6C, 0x73, 0x65]

  /** The C library's printing of a double by %.17g, and strtod; None stands for ERANGE or a rest not read. */
  datatype Platform = Platform(format: real -> Bytes, read: Bytes -> Option<real>)

  datatype Limits = Limits(
    maxBytes: nat, maxDepth: nat, maxElements: nat, comments: bool, trailingCommas: bool)

  const DEFAULT_LIMITS := Limits(0x80_0000, 64, 200_000, true, true)

  datatype JsonError =
    | TooLarge | TooDeep | TooManyValues | TrailingContent | UnexpectedEnd | InvalidLiteral
    | ExpectedName | ExpectedColon | DuplicateName(name: string) | TrailingComma
    | ExpectedCommaOrBrace | ExpectedCommaOrBracket
    | UnterminatedString | InvalidUtf8 | ControlCharacter | UnterminatedEscape | InvalidEscape
    | TruncatedHex | InvalidHex
    | ExpectedValue | LeadingZero | ExpectedFraction | MalformedExponent | OutOfRange

  predicate Begins(s: Bytes, b: Byte) {
    s != [] && s[0] == b
  }

  // ----- Writing -----

  function HexDigit(x: nat): Byte
    requires x < 16
  {
    if x < 10 then ZERO + x else 0x61 + (x - 10)
  }

  /** How one code point is written inside a string. */
  function EscapePoint(cp: int): Bytes
    requires IsScalar(cp)
  {
    if cp == 0x22 then [BACKSLASH, QUOTE]
    else if cp == 0x5C then [BACKSLASH, BACKSLASH]
    else if cp == 0x08 then [BACKSLASH, 0x62]
    else if cp == 0x0C then [BACKSLASH, 0x66]
    else if cp == 0x0A then [BACKSLASH, 0x6E]
    else if cp == 0x0D then [BACKSLASH, 0x72]
    else if cp == 0x09 then [BACKSLASH, 0x74]
    else if cp < 0x20 then [BACKSLASH, LETTER_U, ZERO, ZERO, HexDigit(cp / 16), HexDigit(cp % 16)]
    else Encode(cp)
  }

  function EscapeAll(cps: seq<int>): Bytes
    requires forall i | 0 <= i < |cps| :: IsScalar(cps[i])
  {
    if cps == [] then [] else EscapePoint(cps[0]) + EscapeAll(cps[1..])
  }

  /** escape. */
  function Escape(s: Bytes): Bytes {
    [QUOTE] + EscapeAll(CodePoints(s)) + [QUOTE]
  }

  const DECIMAL_BOUND := 1_000_000_000_000_000

  /** format_number. */
  function FormatNumber(platform: Platform, x: real): Bytes {
    if x == Truncate(x) as real && -DECIMAL_BOUND < Truncate(x) < DECIMAL_BOUND then Decimal(Truncate(x))
    else platform.format(x)
  }

  /** dump_into without indentation. */
  ghost function Dump(platform: Platform, v: Json): Bytes
    decreases v, 1
  {
    match v
    case Null => NULL_WORD
    case Bool(b) => if b then TRUE_WORD else FALSE_WORD
    case Num(n) => FormatNumber(platform, n)
    case Str(s) => Escape(BytesOf(s))
    case Arr(items) => [OPEN_ARRAY] + DumpItems(platform, items) + [CLOSE_ARRAY]
    case Obj(members) => [OPEN_OBJECT] + DumpMembers(platform, v, SortedKeys(members.Keys)) + [CLOSE_OBJECT]
  }

  ghost function DumpItems(platform: Platform, items: seq<Json>): Bytes
    decreases items, 0
  {
    if items == [] then []
    else if |items| == 1 then Dump(platform, items[0])
    else Dump(platform, items[0]) + [COMMA] + DumpItems(platform, items[1..])
  }

  ghost function DumpMember(platform: Platform, v: Json, key: string): Bytes
    requires v.Obj? && key in v.members
    decreases v, 0, 0
  {
    Escape(BytesOf(key)) + [COLON] + Dump(platform, v.members[key])
  }

  ghost function DumpMembers(platform: Platform, v: Json, keys: seq<string>): Bytes
    requires HasNames(v, keys)
    decreases v, 0, |keys| + 1
  {
    if keys == [] then []
    else if |keys| == 1 then DumpMember(platform, v, keys[0])
    else DumpMember(platform, v, keys[0]) + [COMMA] + DumpMembers(platform, v, keys[1..])
  }

  // ----- Between the values -----

  predicate IsBlank(b: Byte) {
    b == 0x20 || b == 0x09 || b == NEWLINE || b == 0x0D
  }

  /** What a line comment leaves: its newline and what follows. */
  function SkipLine(s: Bytes): (rest: Bytes)
    ensures |rest| <= |s|
  {
    if s == [] || s[0] == NEWLINE then s else SkipLine(s[1..])
  }

  /** What a block comment leaves; an unterminated one takes everything. */
  function SkipBlock(s: Bytes): (rest: Bytes)
    ensures |rest| <= |s|
  {
    if s == [] then [] else if s[0] == STAR && Begins(s[1..], SLASH) then s[2..] else SkipBlock(s[1..])
  }

  /** skip_trivia, but for the byte-order mark. */
  function SkipTrivia(comments: bool, s: Bytes): (rest: Bytes)
    ensures |rest| <= |s|
    decreases |s|
  {
    if s == [] then s
    else if IsBlank(s[0]) then SkipTrivia(comments, s[1..])
    else if comments && s[0] == SLASH && |s| > 1 && s[1] == SLASH then SkipTrivia(comments, SkipLine(s[2..]))
    else if comments && s[0] == SLASH && |s| > 1 && s[1] == STAR then SkipTrivia(comments, SkipBlock(s[2..]))
    else s
  }

  const BYTE_ORDER_MARK: Bytes := [0xEF, 0xBB, 0xBF]

  /** A byte-order mark is tolerated at the very start only. */
  function SkipMark(s: Bytes): Bytes {
    if BYTE_ORDER_MARK <= s then s[3..] else s
  }

  // ----- Strings -----

  function HexValue(b: Byte): Option<nat> {
    if ZERO <= b <= NINE then Some(b - ZERO)
    else if 0x61 <= b <= 0x66 then Some(b - 0x61 + 10)
    else if 0x41 <= b <= 0x46 then Some(b - 0x41 + 10)
    else None
  }

  function HexNumber(t: Bytes): Option<nat> {
    if t == [] then Some(0)
    else match (HexNumber(t[..|t| - 1]), HexValue(t[|t| - 1]))
      case (Some(high), Some(low)) => Some(high * 16 + low)
      case _ => None
  }

  /** parse_hex4: text::parse_hex trims the four bytes first. */
  function ReadHex4(s: Bytes): (r: Result<nat, JsonError>)
    ensures r.Success? ==> |s| >= 4
  {
    if |s| < 4 then Failure(TruncatedHex)
    else
      var t := Trim(s[..4]);
      if t == [] then Failure(InvalidHex)
      else match HexNumber(t) case None => Failure(InvalidHex) case Some(v) => Success(v)
  }

  /** What follows \u: a code point and the rest.  A surrogate without its partner reads as U+FFFD. */
  function ReadUnicode(s: Bytes): (r: Result<(nat, Bytes), JsonError>)
    ensures r.Success? ==> |r.value.1| < |s|
  {
    match ReadHex4(s)
    case Failure(e) => Failure(e)
    case Success(code) =>
      var rest := s[4..];
      if 0xD800 <= code <= 0xDBFF then
        if |rest| > 1 && rest[0] == BACKSLASH && rest[1] == LETTER_U then
          match ReadHex4(rest[2..])
          case Failure(e) => Failure(e)
          case Success(low) =>
            Success((if 0xDC00 <= low <= 0xDFFF then 0x10000 + (code - 0xD800) * 0x400 + (low - 0xDC00)
                     else REPLACEMENT,
                     rest[6..]))
        else Success((REPLACEMENT, rest))
      else Success((if 0xDC00 <= code <= 0xDFFF then REPLACEMENT else code, rest))
  }

  /** The byte an escape of one letter stands for. */
  function Unescaped(b: Byte): Option<Byte> {
    if b == QUOTE || b == BACKSLASH || b == SLASH then Some(b)
    else if b == 0x62 then Some(0x08)
    else if b == 0x66 then Some(0x0C)
    else if b == 0x6E then Some(NEWLINE)
    else if b == 0x72 then Some(0x0D)
    else if b == 0x74 then Some(0x09)
    else None
  }

  /** parse_string after the opening quote: the bytes of the string and the rest. */
  function ReadChars(s: Bytes, out: Bytes): (r: Result<(Bytes, Bytes), JsonError>)
    ensures r.Success? ==> |r.value.1| < |s|
    decreases |s|
  {
    if s == [] then Failure(UnterminatedString)
    else if s[0] == QUOTE then if WalkIsClean(out) then Success((out, s[1..])) else Failure(InvalidUtf8)
    else if s[0] != BACKSLASH then
      if s[0] < 0x20 then Failure(ControlCharacter) else ReadChars(s[1..], out + [s[0]])
    else if |s| == 1 then Failure(UnterminatedEscape)
    else if s[1] == LETTER_U then
      match ReadUnicode(s[2..])
      case Failure(e) => Failure(e)
      case Success((cp, rest)) => ReadChars(rest, out + Encode(if IsScalar(cp) then cp else REPLACEMENT))
    else match Unescaped(s[1])
      case None => Failure(InvalidEscape)
      case Some(b) => ReadChars(s[2..], out + [b])
  }

  // ----- Numbers -----

  /** How many digits the text begins with. */
  function DigitRun(s: Bytes): (n: nat)
    ensures n <= |s|
  {
    if s == [] || !IsDigit(s[0]) then 0 else 1 + DigitRun(s[1..])
  }

  /** The length of the integer part, after a sign. */
  function ScanInteger(s: Bytes): (r: Result<nat, JsonError>)
    ensures r.Success? ==> 0 < r.value <= |s|
  {
    if DigitRun(s) == 0 then Failure(ExpectedValue)
    else if s[0] == ZERO then if DigitRun(s) > 1 then Failure(LeadingZero) else Success(1)
    else Success(DigitRun(s))
  }

  function ScanFraction(s: Bytes): (r: Result<nat, JsonError>)
    ensures r.Success? ==> r.value <= |s|
  {
    if !Begins(s, DOT) then Success(0)
    else if DigitRun(s[1..]) == 0 then Failure(ExpectedFraction)
    else Success(1 + DigitRun(s[1..]))
  }

  function ScanExponent(s: Bytes): (r: Result<nat, JsonError>)
    ensures r.Success? ==> r.value <= |s|
  {
    if !Begins(s, 0x65) && !Begins(s, 0x45) then Success(0)
    else
      var sign := if Begins(s[1..], PLUS) || Begins(s[1..], MINUS) then 1 else 0;
      var digits := DigitRun(s[1 + sign..]);
      if digits == 0 then Failure(MalformedExponent) else Success(1 + sign + digits)
  }

  /** The length of the number the text begins with. */
  function ScanNumber(s: Bytes): (r: Result<nat, JsonError>)
    ensures r.Success? ==> 0 < r.value <= |s|
  {
    var sign := if Begins(s, MINUS) then 1 else 0;
    match ScanInteger(s[sign..])
    case Failure(e) => Failure(e)
    case Success(i) =>
      var a := sign + i;
      match ScanFraction(s[a..])
      case Failure(e) => Failure(e)
      case Success(f) =>
        match ScanExponent(s[a + f..])
        case Failure(e) => Failure(e)
        case Success(x) => Success(a + f + x)
  }

  /** parse_double, which trims and refuses more than 64 bytes. */
  function ReadDouble(platform: Platform, t: Bytes): Option<real> {
    var u := Trim(t);
    if u == [] || |u| > 64 then None else platform.read(u)
  }

  // ----- Values -----

  /** A value, what is left of the input and how many values have been counted. */
  datatype Parsed = Parsed(value: Json, rest: Bytes, elements: nat)

  /** parse_value. */
  function ReadValue(platform: Platform, limits: Limits, s: Bytes, depth: nat, n: nat): (r: Result<Parsed, JsonError>)
    ensures r.Success? ==> |r.value.rest| < |s|
    decreases |s|, 2
  {
    var t := SkipTrivia(limits.comments, s);
    if depth > limits.maxDepth then Failure(TooDeep)
    else if n + 1 > limits.maxElements then Failure(TooManyValues)
    else if t == [] then Failure(UnexpectedEnd)
    else if t[0] == OPEN_OBJECT then ReadObject(platform, limits, t[1..], depth, n + 1)
    else if t[0] == OPEN_ARRAY then ReadArray(platform, limits, t[1..], depth, n + 1)
    else if t[0] == QUOTE then
      match ReadChars(t[1..], [])
      case Failure(e) => Failure(e)
      case Success((m, rest)) => Success(Parsed(Str(TextOf(m)), rest, n + 1))
    else if t[0] == TRUE_WORD[0] then ReadLiteral(TRUE_WORD, Bool(true), t, n + 1)
    else if t[0] == FALSE_WORD[0] then ReadLiteral(FALSE_WORD, Bool(false), t, n + 1)
    else if t[0] == NULL_WORD[0] then ReadLiteral(NULL_WORD, Null, t, n + 1)
    else ReadNumber(platform, t, n + 1)
  }

  /** parse_literal. */
  function ReadLiteral(word: Bytes, v: Json, s: Bytes, n: nat): Result<Parsed, JsonError> {
    if word <= s then Success(Parsed(v, s[|word|..], n)) else Failure(InvalidLiteral)
  }

  /** parse_number. */
  function ReadNumber(platform: Platform, s: Bytes, n: nat): Result<Parsed, JsonError> {
    match ScanNumber(s)
    case Failure(e) => Failure(e)
    case Success(length) =>
      match ReadDouble(platform, s[..length])
      case None => Failure(OutOfRange)
      case Some(x) => Success(Parsed(Num(x), s[length..], n))
  }

  /** What follows an item or a member: whether another one comes, and the rest. */
  function ReadSeparator(limits: Limits, s: Bytes, close: Byte, missing: JsonError)
    : (r: Result<(bool, Bytes), JsonError>)
    ensures r.Success? ==> |r.value.1| < |s|
  {
    var t := SkipTrivia(limits.comments, s);
    if Begins(t, COMMA) then
      var u := SkipTrivia(limits.comments, t[1..]);
      if !Begins(u, close) then Success((true, u))
      else if limits.trailingCommas then Success((false, u[1..]))
      else Failure(TrailingComma)
    else if Begins(t, close) then Success((false, t[1..]))
    else Failure(missing)
  }

  /** parse_array after the bracket. */
  function ReadArray(platform: Platform, limits: Limits, s: Bytes, depth: nat, n: nat): (r: Result<Parsed, JsonError>)
    ensures r.Success? ==> |r.value.rest| < |s|
    decreases |s|, 4
  {
    var t := SkipTrivia(limits.comments, s);
    if Begins(t, CLOSE_ARRAY) then Success(Parsed(Arr([]), t[1..], n))
    else ReadItems(platform, limits, t, depth, n, [])
  }

  /** The loop of parse_array, with the items so far. */
  function ReadItems(platform: Platform, limits: Limits, s: Bytes, depth: nat, n: nat, items: seq<Json>)
    : (r: Result<Parsed, JsonError>)
    ensures r.Success? ==> |r.value.rest| < |s|
    decreases |s|, 3
  {
    match ReadValue(platform, limits, s, depth + 1, n)
    case Failure(e) => Failure(e)
    case Success(p) =>
      var more := items + [p.value];
      match ReadSeparator(limits, p.rest, CLOSE_ARRAY, ExpectedCommaOrBracket)
      case Failure(e) => Failure(e)
      case Success((another, rest)) =>
        if another then ReadItems(platform, limits, rest, depth, p.elements, more)
        else Success(Parsed(Arr(more), rest, p.elements))
  }

  /** parse_object after the brace. */
  function ReadObject(platform: Platform, limits: Limits, s: Bytes, depth: nat, n: nat): (r: Result<Parsed, JsonError>)
    ensures r.Success? ==> |r.value.rest| < |s|
    decreases |s|, 4
  {
    var t := SkipTrivia(limits.comments, s);
    if Begins(t, CLOSE_OBJECT) then Success(Parsed(Obj(map[]), t[1..], n))
    else ReadMembers(platform, limits, t, depth, n, map[])
  }

  /** A member's name and its colon: the name and what follows. */
  function ReadName(limits: Limits, s: Bytes): (r: Result<(string, Bytes), JsonError>)
    ensures r.Success? ==> |r.value.1| < |s|
  {
    var t := SkipTrivia(limits.comments, s);
    if !Begins(t, QUOTE) then Failure(ExpectedName)
    else match ReadChars(t[1..], [])
      case Failure(e) => Failure(e)
      case Success((m, rest)) =>
        var u := SkipTrivia(limits.comments, rest);
        if Begins(u, COLON) then Success((TextOf(m), u[1..])) else Failure(ExpectedColon)
  }

  /** The loop of parse_object, with the members so far. */
  function ReadMembers(platform: Platform, limits: Limits, s: Bytes, depth: nat, n: nat, members: map<string, Json>)
    : (r: Result<Parsed, JsonError>)
    ensures r.Success? ==> |r.value.rest| < |s|
    decreases |s|, 3
  {
    match ReadName(limits, s)
    case Failure(e) => Failure(e)
    case Success((name, afterName)) =>
      match ReadValue(platform, limits, afterName, depth + 1, n)
      case Failure(e) => Failure(e)
      case Success(p) =>
        if name in members then Failure(DuplicateName(name))
        else
          var more := members[name := p.value];
          match ReadSeparator(limits, p.rest, CLOSE_OBJECT, ExpectedCommaOrBrace)
          case Failure(e) => Failure(e)
          case Success((another, rest)) =>
            if another then ReadMembers(platform, limits, rest, depth, p.elements, more)
            else Success(Parsed(Obj(more), rest, p.elements))
  }

  /** parse. */
  function ReadDocument(platform: Platform, limits: Limits, s: Bytes): Result<Json, JsonError> {
    if |s| > limits.maxBytes then Failure(TooLarge)
    else match ReadValue(platform, limits, SkipTrivia(limits.comments, SkipMark(s)), 0, 0)
      case Failure(e) => Failure(e)
      case Success(p) =>
        if SkipTrivia(limits.comments, p.rest) == [] then Success(p.value) else Failure(TrailingContent)
  }
}

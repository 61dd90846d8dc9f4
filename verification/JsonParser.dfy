/**
 The source's JSON writer and parser (desktop/src/core/json/json.cpp): loops that append to a text, and an
 object that moves a position through its input.
 */
module JsonParser {
  import opened Wrappers
  import opened Ordering
  import opened Utf8
  import opened Numbers
  import opened JsonValues
  import opened JsonText

  // ----- Writing -----

  /** escape. */
  method EscapeText(s: Bytes) returns (out: Bytes)
    ensures out == Escape(s)
  {
    hide HeadPoint, StepLength, LeadLength, EscapePoint;
    out := [QUOTE];
    var pos := 0;
    assert s[0..] == s;
    while pos < |s|
      invariant pos <= |s|
      invariant out + EscapeAll(CodePoints(s[pos..])) == [QUOTE] + EscapeAll(CodePoints(s))
    {
      ghost var rest := s[pos..];
      var cp, next := DecodeUtf8(s, pos);
      EscapeStep(rest);
      assert rest[StepLength(rest)..] == s[next..];
      var piece := WritePoint(cp);
      out := out + piece;
      pos := next;
    }
    out := out + [QUOTE];
  }

  lemma EscapeStep(s: Bytes)
    requires s != []
    ensures IsScalar(HeadPoint(s))
    ensures EscapeAll(CodePoints(s)) == EscapePoint(HeadPoint(s)) + EscapeAll(CodePoints(s[StepLength(s)..]))
  {
    hide StepLength, LeadLength, EscapePoint;
    assert CodePoints(s)[0] == HeadPoint(s) && CodePoints(s)[1..] == CodePoints(s[StepLength(s)..]);
  }

  /** The switch of escape. */
  method WritePoint(cp: int) returns (piece: Bytes)
    requires IsScalar(cp)
    ensures piece == EscapePoint(cp)
  {
    if cp == 0x22 { piece := [BACKSLASH, QUOTE]; }
    else if cp == 0x5C { piece := [BACKSLASH, BACKSLASH]; }
    else if cp == 0x08 { piece := [BACKSLASH, 0x62]; }
    else if cp == 0x0C { piece := [BACKSLASH, 0x66]; }
    else if cp == 0x0A { piece := [BACKSLASH, 0x6E]; }
    else if cp == 0x0D { piece := [BACKSLASH, 0x72]; }
    else if cp == 0x09 { piece := [BACKSLASH, 0x74]; }
    else if cp < 0x20 {
      piece := [BACKSLASH, LETTER_U, ZERO, ZERO];
      piece := piece + [HexDigit(cp / 16)] + [HexDigit(cp % 16)];
    } else {
      hide Encode;
      piece := EncodeUtf8(cp, []);
    }
  }

  /** dump_into without indentation. */
  method DumpInto(platform: Platform, v: Json, text: Bytes) returns (out: Bytes)
    ensures out == text + Dump(platform, v)
    decreases v, 2
  {
    match v {
      case Null => out := text + NULL_WORD;
      case Bool(b) => out := text + if b then TRUE_WORD else FALSE_WORD;
      case Num(n) => out := text + FormatNumber(platform, n);
      case Str(s) =>
        var t := EscapeText(BytesOf(s));
        out := text + t;
      case Arr(items) => out := DumpArray(platform, v, text);
      case Obj(members) => out := DumpObject(platform, v, text);
    }
  }

  method DumpArray(platform: Platform, v: Json, text: Bytes) returns (out: Bytes)
    requires v.Arr?
    ensures out == text + Dump(platform, v)
    decreases v, 1
  {
    hide Dump, DumpItems, LeftToDump;
    var items := v.items;
    ArrayDump(platform, v);
    out := text + [OPEN_ARRAY];
    ghost var whole := out + DumpItems(platform, items);
    for i := 0 to |items|
      invariant out + LeftToDump(platform, items, i) == whole
    {
      LeftStep(platform, items, i);
      if i > 0 { out := out + [COMMA]; }
      out := DumpInto(platform, items[i], out);
    }
    assert out + [] == out;
    out := out + [CLOSE_ARRAY];
  }

  lemma ArrayDump(platform: Platform, v: Json)
    requires v.Arr?
    ensures Dump(platform, v) == [OPEN_ARRAY] + DumpItems(platform, v.items) + [CLOSE_ARRAY]
    ensures LeftToDump(platform, v.items, 0) == DumpItems(platform, v.items)
    ensures LeftToDump(platform, v.items, |v.items|) == []
  {
    assert v.items[0..] == v.items;
  }

  /** What is still to be written from the i-th item on. */
  ghost function LeftToDump(platform: Platform, items: seq<Json>, i: nat): Bytes
    requires i <= |items|
  {
    if i == |items| then [] else (if i > 0 then [COMMA] else []) + DumpItems(platform, items[i..])
  }

  lemma LeftStep(platform: Platform, items: seq<Json>, i: nat)
    requires i < |items|
    ensures LeftToDump(platform, items, i) ==
            (if i > 0 then [COMMA] else []) + Dump(platform, items[i]) + LeftToDump(platform, items, i + 1)
  {
    assert items[i..][0] == items[i] && items[i..][1..] == items[i + 1..];
    hide Dump;
  }

  method DumpObject(platform: Platform, v: Json, text: Bytes) returns (out: Bytes)
    requires v.Obj?
    ensures out == text + Dump(platform, v)
    decreases v, 1
  {
    hide Dump, DumpMembers, DumpMember, MembersLeft;
    var keys := SortStrings(v.members.Keys);
    ListingIsUnique(keys, SortedKeys(v.members.Keys), v.members.Keys);
    ObjectDump(platform, v, keys);
    out := text + [OPEN_OBJECT];
    ghost var whole := out + DumpMembers(platform, v, keys);
    for i := 0 to |keys|
      invariant out + MembersLeft(platform, v, keys, i) == whole
    {
      MembersStep(platform, v, keys, i);
      if i > 0 { out := out + [COMMA]; }
      out := WriteMember(platform, v, keys[i], out);
    }
    assert out + [] == out;
    out := out + [CLOSE_OBJECT];
  }

  method WriteMember(platform: Platform, v: Json, key: string, text: Bytes) returns (out: Bytes)
    requires v.Obj? && key in v.members
    ensures out == text + DumpMember(platform, v, key)
    decreases v, 0
  {
    hide Dump, Escape, BytesOf;
    var name := EscapeText(BytesOf(key));
    out := text + name + [COLON];
    out := DumpInto(platform, v.members[key], out);
  }

  lemma ObjectDump(platform: Platform, v: Json, keys: seq<string>)
    requires v.Obj? && keys == SortedKeys(v.members.Keys)
    ensures HasNames(v, keys)
    ensures Dump(platform, v) == [OPEN_OBJECT] + DumpMembers(platform, v, keys) + [CLOSE_OBJECT]
    ensures MembersLeft(platform, v, keys, 0) == DumpMembers(platform, v, keys)
    ensures MembersLeft(platform, v, keys, |keys|) == []
  {
    assert keys[0..] == keys;
  }

  /** What is still to be written from the i-th member on. */
  ghost function MembersLeft(platform: Platform, v: Json, keys: seq<string>, i: nat): Bytes
    requires HasNames(v, keys) && i <= |keys|
  {
    if i == |keys| then [] else (if i > 0 then [COMMA] else []) + DumpMembers(platform, v, keys[i..])
  }

  lemma MembersStep(platform: Platform, v: Json, keys: seq<string>, i: nat)
    requires HasNames(v, keys) && i < |keys|
    ensures keys[i] in v.members
    ensures MembersLeft(platform, v, keys, i) ==
            (if i > 0 then [COMMA] else []) + DumpMember(platform, v, keys[i]) + MembersLeft(platform, v, keys, i + 1)
  {
    assert keys[i..][0] == keys[i] && keys[i..][1..] == keys[i + 1..];
    hide DumpMember;
  }

  /** Value::dump(0). */
  method DumpText(platform: Platform, v: Json) returns (out: Bytes)
    ensures out == Dump(platform, v)
  {
    out := DumpInto(platform, v, []);
  }

  // ----- Reading -----

  lemma HexFails(t: Bytes, i: nat)
    requires i <= |t| && HexNumber(t[..i]).None?
    ensures HexNumber(t).None?
    decreases |t|
  {
    if i < |t| {
      assert t[..|t| - 1][..i] == t[..i];
      HexFails(t[..|t| - 1], i);
    } else {
      assert t[..i] == t;
    }
  }

  /** The loop of text::parse_hex over a trimmed text. */
  method ParseHex(t: Bytes) returns (r: Option<nat>)
    ensures r == HexNumber(t)
  {
    var acc: nat := 0;
    for i := 0 to |t|
      invariant HexNumber(t[..i]) == Some(acc)
    {
      assert t[..i + 1][..i] == t[..i];
      var d := HexValue(t[i]);
      if d.None? {
        HexFails(t, i + 1);
        return None;
      }
      acc := acc * 16 + d.value;
    }
    assert t[..|t|] == t;
    return Some(acc);
  }

  /** The parser: its input and limits, where it is and how many values it has begun. */
  class Parser {
    const platform: Platform
    const limits: Limits
    const src: Bytes
    var pos: nat
    var elements: nat

    constructor (platform: Platform, limits: Limits, src: Bytes)
      ensures this.platform == platform && this.limits == limits && this.src == src && pos == 0 && elements == 0
    {
      this.platform, this.limits, this.src, pos, elements := platform, limits, src, 0, 0;
    }

    /** In range, and past a byte-order mark if there is one. */
    ghost predicate Valid()
      reads this
    {
      pos <= |src| && (pos == 0 ==> SkipMark(src) == src)
    }

    ghost function Rest(): Bytes
      requires pos <= |src|
      reads this
    {
      src[pos..]
    }

    predicate AtByte(b: Byte)
      reads this
      ensures pos <= |src| ==> (AtByte(b) <==> Begins(Rest(), b))
    {
      pos < |src| && src[pos] == b
    }

    /** The outcome is what the reading of the rest says, and the parser stands after it. */
    ghost predicate Agrees(r: Result<Json, JsonError>, reading: Result<Parsed, JsonError>)
      requires pos <= |src|
      reads this
    {
      match reading
      case Failure(e) => r == Failure(e)
      case Success(p) => r == Success(p.value) && Rest() == p.rest && elements == p.elements
    }

    /** advance. */
    method Advance()
      requires Valid() && pos < |src|
      modifies this`pos
      ensures Valid() && pos == old(pos) + 1 && Rest() == old(Rest())[1..]
    {
      assert Rest()[1..] == src[pos + 1..];
      pos := pos + 1;
    }

    /** skip_trivia. */
    method SkipTrivia()
      requires pos <= |src|
      modifies this`pos
      ensures Valid() && pos >= old(pos)
      ensures Rest() == JsonText.SkipTrivia(limits.comments, if old(pos) == 0 then SkipMark(src) else old(Rest()))
    {
      if pos == 0 && BYTE_ORDER_MARK <= src { pos := 3; }
      ghost var start := Rest();
      assert start == if old(pos) == 0 then SkipMark(src) else old(Rest());
      while pos < |src|
        invariant Valid() && pos >= old(pos)
        invariant JsonText.SkipTrivia(limits.comments, Rest()) == JsonText.SkipTrivia(limits.comments, start)
        decreases |src| - pos
      {
        var c := src[pos];
        if IsBlank(c) {
          pos := pos + 1;
        } else if limits.comments && c == SLASH && pos + 1 < |src| && src[pos + 1] == SLASH {
          ghost var rest := Rest();
          pos := pos + 2;
          assert Rest() == rest[2..];
          LineComment();
        } else if limits.comments && c == SLASH && pos + 1 < |src| && src[pos + 1] == STAR {
          ghost var rest := Rest();
          pos := pos + 2;
          assert Rest() == rest[2..];
          BlockComment();
        } else {
          break;
        }
      }
    }

    method LineComment()
      requires Valid()
      modifies this`pos
      ensures Valid() && pos >= old(pos) && Rest() == SkipLine(old(Rest()))
    {
      while pos < |src| && src[pos] != NEWLINE
        invariant Valid() && pos >= old(pos) && SkipLine(Rest()) == SkipLine(old(Rest()))
      {
        Advance();
      }
    }

    method BlockComment()
      requires Valid()
      modifies this`pos
      ensures Valid() && pos >= old(pos) && Rest() == SkipBlock(old(Rest()))
    {
      while pos < |src|
        invariant Valid() && pos >= old(pos) && SkipBlock(Rest()) == SkipBlock(old(Rest()))
      {
        assert Rest()[1..] == src[pos + 1..];
        if src[pos] == STAR && pos + 1 < |src| && src[pos + 1] == SLASH {
          assert Rest()[2..] == src[pos + 2..];
          pos := pos + 2;
          return;
        }
        pos := pos + 1;
      }
    }

    /** parse_hex4. */
    method ParseHex4() returns (r: Result<nat, JsonError>)
      requires Valid()
      modifies this`pos
      ensures Valid() && r == ReadHex4(old(Rest()))
      ensures pos == old(pos) + if r.Success? then 4 else 0
    {
      if pos + 4 > |src| { return Failure(TruncatedHex); }
      var t := TrimBytes(src[pos..pos + 4]);
      assert Rest()[..4] == src[pos..pos + 4];
      if t == [] { return Failure(InvalidHex); }
      var v := ParseHex(t);
      if v.None? { return Failure(InvalidHex); }
      pos := pos + 4;
      return Success(v.value);
    }

    /** The case of \\u in parse_string, after those two bytes. */
    method ParseUnicode() returns (r: Result<nat, JsonError>)
      requires Valid()
      modifies this`pos
      ensures Valid() && pos >= old(pos)
      ensures match ReadUnicode(old(Rest()))
              case Failure(e) => r == Failure(e)
              case Success((cp, rest)) => r == Success(cp) && Rest() == rest && pos > old(pos)
    {
      hide ReadHex4;
      ghost var start := Rest();
      var first := ParseHex4();
      if first.Failure? { return Failure(first.error); }
      assert Rest() == start[4..];
      var code := first.value;
      if 0xD800 <= code <= 0xDBFF {
        if pos + 1 < |src| && src[pos] == BACKSLASH && src[pos + 1] == LETTER_U {
          ghost var rest := Rest();
          pos := pos + 2;
          assert Rest() == rest[2..];
          var low := ParseHex4();
          if low.Failure? { return Failure(low.error); }
          assert Rest() == rest[6..];
          if 0xDC00 <= low.value <= 0xDFFF {
            code := 0x10000 + (code - 0xD800) * 0x400 + (low.value - 0xDC00);
          } else {
            code := REPLACEMENT;
          }
        } else {
          code := REPLACEMENT;
        }
      } else if 0xDC00 <= code <= 0xDFFF {
        code := REPLACEMENT;
      }
      return Success(code);
    }

    /** parse_string, at its opening quote. */
    method ParseString() returns (r: Result<Bytes, JsonError>)
      requires Valid() && AtByte(QUOTE)
      modifies this`pos
      ensures Valid() && pos > old(pos)
      ensures match ReadChars(old(Rest())[1..], [])
              case Failure(e) => r == Failure(e)
              case Success((m, rest)) => r == Success(m) && Rest() == rest
    {
      hide ReadUnicode, Encode, WalkIsClean, Unescaped;
      ghost var reading := ReadChars(Rest()[1..], []);
      Advance();
      var out: Bytes := [];
      while true
        invariant Valid() && pos > old(pos) && ReadChars(Rest(), out) == reading
        decreases |src| - pos
      {
        if pos >= |src| { return Failure(UnterminatedString); }
        ghost var rest := Rest();
        var c := src[pos];
        pos := pos + 1;
        assert Rest() == rest[1..];
        if c == QUOTE {
          var clean := IsValidUtf8(out);
          CleanWalkIsUtf8(out);
          if !clean { return Failure(InvalidUtf8); }
          return Success(out);
        }
        if c != BACKSLASH {
          if c < 0x20 { return Failure(ControlCharacter); }
          out := out + [c];
          continue;
        }
        if pos >= |src| { return Failure(UnterminatedEscape); }
        var e := src[pos];
        pos := pos + 1;
        assert Rest() == rest[2..];
        if e == LETTER_U {
          var cp := ParseUnicode();
          if cp.Failure? { return Failure(cp.error); }
          out := EncodeUtf8(cp.value, out);
        } else {
          var b := Unescaped(e);
          if b.None? { return Failure(InvalidEscape); }
          out := out + [b.value];
        }
      }
    }

    method SkipDigits()
      requires Valid()
      modifies this`pos
      ensures pos == old(pos) + DigitRun(old(Rest())) && Valid()
    {
      ghost var start := Rest();
      while pos < |src| && IsDigit(src[pos])
        invariant Valid() && pos >= old(pos) && pos - old(pos) + DigitRun(Rest()) == DigitRun(start)
      {
        Advance();
      }
    }

    /** The integer part of parse_number. */
    method ParseInteger() returns (error: Option<JsonError>)
      requires Valid()
      modifies this`pos
      ensures Valid() && pos >= old(pos)
      ensures match ScanInteger(old(Rest()))
              case Failure(e) => error == Some(e)
              case Success(n) => error == None && pos == old(pos) + n
    {
      ghost var start := Rest();
      if pos >= |src| || !IsDigit(src[pos]) { return Some(ExpectedValue); }
      if src[pos] == ZERO {
        pos := pos + 1;
        assert start[1..] == Rest();
        if pos < |src| && IsDigit(src[pos]) { return Some(LeadingZero); }
      } else {
        SkipDigits();
      }
      return None;
    }

    /** Its fraction, if there is one. */
    method ParseFraction() returns (error: Option<JsonError>)
      requires Valid()
      modifies this`pos
      ensures Valid() && pos >= old(pos)
      ensures match ScanFraction(old(Rest()))
              case Failure(e) => error == Some(e)
              case Success(n) => error == None && pos == old(pos) + n
    {
      hide DigitRun;
      if AtByte(DOT) {
        Advance();
        var start := pos;
        SkipDigits();
        if pos == start { return Some(ExpectedFraction); }
      }
      return None;
    }

    /** Its exponent, if there is one. */
    method ParseExponent() returns (error: Option<JsonError>)
      requires Valid()
      modifies this`pos
      ensures Valid() && pos >= old(pos)
      ensures match ScanExponent(old(Rest()))
              case Failure(e) => error == Some(e)
              case Success(n) => error == None && pos == old(pos) + n
    {
      hide DigitRun;
      if AtByte(0x65) || AtByte(0x45) {
        ghost var rest := Rest();
        pos := pos + 1;
        assert rest[1..] == Rest();
        if AtByte(PLUS) || AtByte(MINUS) {
          pos := pos + 1;
          assert rest[2..] == Rest();
        }
        var start := pos;
        SkipDigits();
        if pos == start { return Some(MalformedExponent); }
      }
      return None;
    }

    /** parse_number. */
    method ParseNumber() returns (r: Result<Json, JsonError>)
      requires Valid()
      modifies this`pos
      ensures Valid() && Agrees(r, ReadNumber(platform, old(Rest()), elements))
    {
      hide ScanNumber, ReadDouble;
      var start := pos;
      ghost var rest := Rest();
      var error := ParseNumberText();
      if error.Some? { return Failure(error.value); }
      assert Rest() == rest[pos - start..] && src[start..pos] == rest[..pos - start];
      var x := ParseDouble(src[start..pos]);
      if x.None? { return Failure(OutOfRange); }
      return Success(Num(x.value));
    }

    /** The grammar of a number. */
    method ParseNumberText() returns (error: Option<JsonError>)
      requires Valid()
      modifies this`pos
      ensures Valid() && pos >= old(pos)
      ensures match ScanNumber(old(Rest()))
              case Failure(e) => error == Some(e)
              case Success(n) => error == None && pos == old(pos) + n
    {
      hide ScanInteger, ScanFraction, ScanExponent;
      ghost var start, rest := pos, Rest();
      if AtByte(MINUS) { Advance(); }
      assert Rest() == rest[pos - start..];
      error := ParseInteger();
      if error.Some? { return; }
      assert Rest() == rest[pos - start..];
      error := ParseFraction();
      if error.Some? { return; }
      assert Rest() == rest[pos - start..];
      error := ParseExponent();
    }

    /** text::parse_double. */
    method ParseDouble(t: Bytes) returns (x: Option<real>)
      ensures x == ReadDouble(platform, t)
    {
      var u := TrimBytes(t);
      if u == [] || |u| > 64 { return None; }
      return platform.read(u);
    }

    /** parse_literal. */
    method ParseLiteral(word: Bytes, v: Json) returns (r: Result<Json, JsonError>)
      requires Valid() && word != []
      modifies this`pos
      ensures Valid() && Agrees(r, ReadLiteral(word, v, old(Rest()), elements))
    {
      if pos + |word| <= |src| {
        assert Rest()[..|word|] == src[pos..pos + |word|] && Rest()[|word|..] == src[pos + |word|..];
        if src[pos..pos + |word|] == word {
          pos := pos + |word|;
          return Success(v);
        }
      }
      return Failure(InvalidLiteral);
    }

    /** parse_value. */
    method ParseValue(depth: nat) returns (r: Result<Json, JsonError>)
      requires Valid()
      modifies this`pos, this`elements
      ensures Valid() && Agrees(r, ReadValue(platform, limits, old(Rest()), depth, old(elements)))
      ensures r.Success? ==> pos > old(pos)
      decreases |src| - pos, 2
    {
      hide ReadObject, ReadArray, ReadChars, ReadNumber, ReadLiteral, JsonText.SkipTrivia;
      if depth > limits.maxDepth { return Failure(TooDeep); }
      elements := elements + 1;
      if elements > limits.maxElements { return Failure(TooManyValues); }
      SkipTrivia();
      if pos >= |src| { return Failure(UnexpectedEnd); }
      var c := src[pos];
      if c == OPEN_OBJECT {
        r := ParseObject(depth);
      } else if c == OPEN_ARRAY {
        r := ParseArray(depth);
      } else if c == QUOTE {
        var s := ParseString();
        if s.Failure? { return Failure(s.error); }
        return Success(Str(TextOf(s.value)));
      } else if c == TRUE_WORD[0] {
        r := ParseLiteral(TRUE_WORD, Bool(true));
      } else if c == FALSE_WORD[0] {
        r := ParseLiteral(FALSE_WORD, Bool(false));
      } else if c == NULL_WORD[0] {
        r := ParseLiteral(NULL_WORD, Null);
      } else {
        r := ParseNumber();
      }
    }

    /** parse_array, at its bracket. */
    method ParseArray(depth: nat) returns (r: Result<Json, JsonError>)
      requires Valid() && AtByte(OPEN_ARRAY)
      modifies this`pos, this`elements
      ensures Valid() && Agrees(r, ReadArray(platform, limits, old(Rest())[1..], depth, old(elements)))
      ensures r.Success? ==> pos > old(pos)
      decreases |src| - pos, 1
    {
      hide ReadValue;
      ghost var reading := ReadArray(platform, limits, Rest()[1..], depth, elements);
      Advance();
      var items: seq<Json> := [];
      SkipTrivia();
      if AtByte(CLOSE_ARRAY) {
        Advance();
        return Success(Arr(items));
      }
      hide ReadSeparator, JsonText.SkipTrivia;
      while true
        invariant Valid() && pos > old(pos)
        invariant ReadItems(platform, limits, Rest(), depth, elements, items) == reading
        decreases |src| - pos
      {
        var v := ParseValue(depth + 1);
        if v.Failure? { return v; }
        items := items + [v.value];
        var another := ParseSeparator(CLOSE_ARRAY, ExpectedCommaOrBracket);
        if another.Failure? { return Failure(another.error); }
        if !another.value { return Success(Arr(items)); }
      }
    }

    /** What both loops do after a value: on to the next one, or past the closing bracket or brace. */
    method ParseSeparator(close: Byte, missing: JsonError) returns (another: Result<bool, JsonError>)
      requires Valid() && pos > 0
      modifies this`pos
      ensures Valid() && pos >= old(pos)
      ensures match ReadSeparator(limits, old(Rest()), close, missing)
              case Failure(e) => another == Failure(e)
              case Success((more, rest)) => another == Success(more) && Rest() == rest && pos > old(pos)
    {
      hide JsonText.SkipTrivia;
      SkipTrivia();
      if AtByte(COMMA) {
        Advance();
        SkipTrivia();
        if AtByte(close) {
          if !limits.trailingCommas { return Failure(TrailingComma); }
          Advance();
          return Success(false);
        }
        return Success(true);
      }
      if AtByte(close) {
        Advance();
        return Success(false);
      }
      return Failure(missing);
    }

    /** parse_object, at its brace. */
    method ParseObject(depth: nat) returns (r: Result<Json, JsonError>)
      requires Valid() && AtByte(OPEN_OBJECT)
      modifies this`pos, this`elements
      ensures Valid() && Agrees(r, ReadObject(platform, limits, old(Rest())[1..], depth, old(elements)))
      ensures r.Success? ==> pos > old(pos)
      decreases |src| - pos, 1
    {
      hide ReadValue, ReadName;
      ghost var reading := ReadObject(platform, limits, Rest()[1..], depth, elements);
      Advance();
      var members: map<string, Json> := map[];
      SkipTrivia();
      if AtByte(CLOSE_OBJECT) {
        Advance();
        return Success(Obj(members));
      }
      hide ReadSeparator, JsonText.SkipTrivia;
      while true
        invariant Valid() && pos > old(pos)
        invariant ReadMembers(platform, limits, Rest(), depth, elements, members) == reading
        decreases |src| - pos
      {
        var key := ParseName();
        if key.Failure? { return Failure(key.error); }
        var v := ParseValue(depth + 1);
        if v.Failure? { return v; }
        if key.value in members { return Failure(DuplicateName(key.value)); }
        members := members[key.value := v.value];
        var another := ParseSeparator(CLOSE_OBJECT, ExpectedCommaOrBrace);
        if another.Failure? { return Failure(another.error); }
        if !another.value { return Success(Obj(members)); }
      }
    }

    /** A member's name and its colon. */
    method ParseName() returns (r: Result<string, JsonError>)
      requires Valid()
      modifies this`pos
      ensures Valid() && pos >= old(pos)
      ensures match ReadName(limits, old(Rest()))
              case Failure(e) => r == Failure(e)
              case Success((name, rest)) => r == Success(name) && Rest() == rest && pos > old(pos)
    {
      hide ReadChars;
      SkipTrivia();
      if !AtByte(QUOTE) { return Failure(ExpectedName); }
      var key := ParseString();
      if key.Failure? { return Failure(key.error); }
      SkipTrivia();
      if !AtByte(COLON) { return Failure(ExpectedColon); }
      Advance();
      return Success(TextOf(key.value));
    }

    /** Parser::run. */
    method Run() returns (r: Result<Json, JsonError>)
      requires pos == 0 && elements == 0 && |src| <= limits.maxBytes
      modifies this`pos, this`elements
      ensures r == ReadDocument(platform, limits, src)
    {
      hide ReadValue;
      SkipTrivia();
      var root := ParseValue(0);
      if root.Failure? { return root; }
      SkipTrivia();
      if pos != |src| { return Failure(TrailingContent); }
      return root;
    }
  }

  /** parse. */
  method ParseText(platform: Platform, limits: Limits, input: Bytes) returns (r: Result<Json, JsonError>)
    ensures r == ReadDocument(platform, limits, input)
  {
    if |input| > limits.maxBytes { return Failure(TooLarge); }
    var parser := new Parser(platform, limits, input);
    r := parser.Run();
  }
}

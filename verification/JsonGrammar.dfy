/**
 The language the JSON parser accepts (desktop/src/core/json/json.cpp), as a grammar: JSON of RFC 8259 with
 comments, trailing commas, a byte-order mark and the parser's own readings of escapes.

 A `Syntax` is a document with all that its text chooses: blanks, comments, escapes, the digits of a number.
 `Printed` is its text, in characters, and `Meant` the value it means.  Nothing here looks at the parser; that it
 reads exactly these texts as these values is proved in JsonLanguage.
 */
module JsonGrammar {
  import opened Wrappers
  import opened Utf8
  import opened Numbers
  import opened JsonValues

  // ----- Between the values -----

  datatype Gap = Blank(b: Byte) | Line(text: Bytes) | Block(text: Bytes)

  /** A blank, or where comments are allowed one that ends. */
  predicate IsGap(comments: bool, gap: Gap) {
    match gap
    case Blank(b) => b == ' ' as int || b == 9 || b == 10 || b == 13
    case Line(text) => comments && 10 !in text
    case Block(text) => comments && !ClosesInside(text)
  }

  predicate ClosesInside(text: Bytes) {
    exists i | 0 <= i < |text| - 1 :: text[i] == '*' as int && text[i + 1] == '/' as int
  }

  predicate AreGaps(comments: bool, gaps: seq<Gap>) {
    forall i | 0 <= i < |gaps| :: IsGap(comments, gaps[i])
  }

  function PrintedGap(gap: Gap): Bytes {
    match gap
    case Blank(b) => [b]
    case Line(text) => ['/' as int, '/' as int] + text + [10]
    case Block(text) => ['/' as int, '*' as int] + text + ['*' as int, '/' as int]
  }

  function PrintedGaps(gaps: seq<Gap>): Bytes {
    if gaps == [] then [] else PrintedGap(gaps[0]) + PrintedGaps(gaps[1..])
  }

  /** What may be left open at the very end. */
  datatype Ending = Closed | OpenLine(text: Bytes) | OpenBlock(text: Bytes)

  predicate IsEnding(comments: bool, ending: Ending) {
    match ending
    case Closed => true
    case OpenLine(text) => comments && 10 !in text
    case OpenBlock(text) => comments && !ClosesInside(text)
  }

  function PrintedEnding(ending: Ending): Bytes {
    match ending
    case Closed => []
    case OpenLine(text) => ['/' as int, '/' as int] + text
    case OpenBlock(text) => ['/' as int, '*' as int] + text
  }

  // ----- Strings -----

  /** Part of a string: a byte that stands for itself, a letter after a backslash, \u with its four bytes, and the
      same after the half of a pair. */
  datatype Piece = Raw(b: Byte) | Letter(c: Byte) | Code(hex: Bytes) | Pair(high: Bytes, low: Bytes)

  function HexDigitValue(b: Byte): int {
    if '0' as int <= b <= '9' as int then b - 48
    else if 'a' as int <= b <= 'f' as int then b - 97 + 10
    else if 'A' as int <= b <= 'F' as int then b - 65 + 10
    else -1
  }

  /** The value of hexadecimal digits, -1 for anything else. */
  function HexMeant(t: Bytes): int {
    if t == [] then 0
    else
      var high, low := HexMeant(t[..|t| - 1]), HexDigitValue(t[|t| - 1]);
      if high < 0 || low < 0 then -1 else 16 * high + low
  }

  /** What four bytes are read as: hexadecimal digits, spaces around them apart. */
  function CodeOf(hex: Bytes): int {
    if |hex| == 4 && Trim(hex) != [] then HexMeant(Trim(hex)) else -1
  }

  predicate IsHighHalf(code: int) {
    0xD800 <= code <= 0xDBFF
  }

  predicate IsLowHalf(code: int) {
    0xDC00 <= code <= 0xDFFF
  }

  predicate IsPiece(piece: Piece) {
    match piece
    case Raw(b) => b >= 32 && b != '"' as int && b != '\\' as int
    case Letter(c) => LetterMeant(c) >= 0
    case Code(hex) => CodeOf(hex) >= 0
    case Pair(high, low) => IsHighHalf(CodeOf(high)) && CodeOf(low) >= 0
  }

  function LetterMeant(c: Byte): int {
    if c == '"' as int then 34 else if c == '\\' as int then 92 else if c == '/' as int then 47
    else if c == 'b' as int then 8 else if c == 'f' as int then 12 else if c == 'n' as int then 10
    else if c == 'r' as int then 13 else if c == 't' as int then 9 else -1
  }

  function PrintedPiece(piece: Piece): Bytes {
    match piece
    case Raw(b) => [b]
    case Letter(c) => ['\\' as int, c]
    case Code(hex) => ['\\' as int, 'u' as int] + hex
    case Pair(high, low) => ['\\' as int, 'u' as int] + high + ['\\' as int, 'u' as int] + low
  }

  function PrintedPieces(pieces: seq<Piece>): Bytes {
    if pieces == [] then [] else PrintedPiece(pieces[0]) + PrintedPieces(pieces[1..])
  }

  predicate IsUnicode(piece: Piece) {
    piece.Code? || piece.Pair?
  }

  /** A high half takes with it whatever code comes next: it is the half of a pair, or no code follows. */
  predicate ArePieces(pieces: seq<Piece>) {
    pieces == [] ||
    (IsPiece(pieces[0]) && ArePieces(pieces[1..]) &&
     (pieces[0].Code? && IsHighHalf(CodeOf(pieces[0].hex)) && |pieces| > 1 ==> !IsUnicode(pieces[1])))
  }

  /** The bytes a piece stands for; half a pair is U+FFFD, and so is what a high half takes with it. */
  function PieceMeant(piece: Piece): Bytes {
    if !IsPiece(piece) then []
    else match piece
    case Raw(b) => [b]
    case Letter(c) => [LetterMeant(c)]
    case Code(hex) => Encode(if IsScalar(CodeOf(hex)) then CodeOf(hex) else 0xFFFD)
    case Pair(high, low) => Encode(PairMeant(CodeOf(high), CodeOf(low)))
  }

  /** The character of two halves: ten bits each, above the first 65536. */
  function PairMeant(high: int, low: int): (cp: int)
    requires IsHighHalf(high)
    ensures IsScalar(cp)
  {
    if IsLowHalf(low) then 65536 + 1024 * (high % 1024) + low % 1024 else 0xFFFD
  }

  function PiecesMeant(pieces: seq<Piece>): Bytes {
    if pieces == [] then [] else PieceMeant(pieces[0]) + PiecesMeant(pieces[1..])
  }

  /** The inside of a string: its bytes are UTF-8. */
  ghost predicate IsString(pieces: seq<Piece>) {
    ArePieces(pieces) && IsUtf8(PiecesMeant(pieces))
  }

  function PrintedString(pieces: seq<Piece>): Bytes {
    ['"' as int] + PrintedPieces(pieces) + ['"' as int]
  }

  function StringMeant(pieces: seq<Piece>): string {
    TextOf(PiecesMeant(pieces))
  }

  // ----- Numbers -----

  predicate AreDigits(t: Bytes) {
    t != [] && forall i | 0 <= i < |t| :: '0' as int <= t[i] <= '9' as int
  }

  predicate IsWhole(t: Bytes) {
    AreDigits(t) && (t[0] == '0' as int ==> |t| == 1)
  }

  predicate IsFraction(t: Bytes) {
    t == [] || (t[0] == '.' as int && AreDigits(t[1..]))
  }

  predicate IsExponent(t: Bytes) {
    t == [] ||
    ((t[0] == 'e' as int || t[0] == 'E' as int) &&
     (AreDigits(t[1..]) || (|t| > 1 && (t[1] == '+' as int || t[1] == '-' as int) && AreDigits(t[2..]))))
  }

  predicate IsSign(t: Bytes) {
    t == [] || t == ['-' as int]
  }

  predicate IsNumberOf(t: Bytes, sign: Bytes, whole: Bytes, fraction: Bytes, exponent: Bytes) {
    && t == sign + whole + fraction + exponent
    && IsSign(sign) && IsWhole(whole) && IsFraction(fraction) && IsExponent(exponent)
  }

  /** The number of section 6 of RFC 8259. */
  ghost predicate IsNumber(t: Bytes) {
    exists sign, whole, fraction, exponent :: IsNumberOf(t, sign, whole, fraction, exponent)
  }

  // ----- Values -----

  datatype Syntax =
    | NullS
    | BoolS(b: bool)
    | NumberS(t: Bytes, x: real)
    | TextS(pieces: seq<Piece>)
    | ListS(items: seq<Item>, trailing: bool, last: seq<Gap>)
    | ObjectS(members: seq<Member>, trailing: bool, last: seq<Gap>)

  datatype Item = Item(before: seq<Gap>, value: Syntax, after: seq<Gap>)

  datatype Member = Member(before: seq<Gap>, name: seq<Piece>, after: seq<Gap>, item: Item)

  function Printed(s: Syntax): Bytes
    decreases s, 1
  {
    match s
    case NullS => BytesOf("null")
    case BoolS(b) => BytesOf(if b then "true" else "false")
    case NumberS(t, _) => t
    case TextS(pieces) => PrintedString(pieces)
    case ListS(items, trailing, last) => ['[' as int] + PrintedItems(items) + PrintedLast(trailing, last) + [']' as int]
    case ObjectS(members, trailing, last) =>
      ['{' as int] + PrintedMembers(members) + PrintedLast(trailing, last) + ['}' as int]
  }

  function PrintedLast(trailing: bool, last: seq<Gap>): Bytes {
    (if trailing then [',' as int] else []) + PrintedGaps(last)
  }

  function PrintedItem(item: Item): Bytes
    decreases item, 2
  {
    PrintedGaps(item.before) + Printed(item.value) + PrintedGaps(item.after)
  }

  function PrintedMember(member: Member): Bytes
    decreases member, 3
  {
    PrintedGaps(member.before) + PrintedString(member.name) + PrintedGaps(member.after) + [':' as int] +
    PrintedItem(member.item)
  }

  function PrintedItems(items: seq<Item>): Bytes
    decreases items, 0
  {
    if items == [] then [] else PrintedItem(items[0]) + PrintedMoreItems(items[1..])
  }

  function PrintedMoreItems(items: seq<Item>): Bytes
    decreases items, 0
  {
    if items == [] then [] else [',' as int] + PrintedItem(items[0]) + PrintedMoreItems(items[1..])
  }

  function PrintedMembers(members: seq<Member>): Bytes
    decreases members, 0
  {
    if members == [] then [] else PrintedMember(members[0]) + PrintedMoreMembers(members[1..])
  }

  function PrintedMoreMembers(members: seq<Member>): Bytes
    decreases members, 0
  {
    if members == [] then [] else [',' as int] + PrintedMember(members[0]) + PrintedMoreMembers(members[1..])
  }

  // ----- Which documents there are -----

  /** What the parser is told, and what strtod reads. */
  datatype Dialect = Dialect(comments: bool, trailing: bool, read: Bytes -> Option<real>)

  ghost predicate IsSyntax(dialect: Dialect, s: Syntax)
    decreases s, 1
  {
    match s
    case NullS => true
    case BoolS(_) => true
    case NumberS(t, x) => IsNumber(t) && |t| <= 64 && dialect.read(t) == Some(x)
    case TextS(pieces) => IsString(pieces)
    case ListS(items, trailing, last) => AreItems(dialect, items) && IsLast(dialect, items == [], trailing, last)
    case ObjectS(members, trailing, last) =>
      AreMembers(dialect, members) && AreDistinct(members) && IsLast(dialect, members == [], trailing, last)
  }

  /** Only after a comma, or where there is nothing, the last gaps are not those of an item. */
  predicate IsLast(dialect: Dialect, none: bool, trailing: bool, last: seq<Gap>) {
    AreGaps(dialect.comments, last) && (if none then !trailing else if trailing then dialect.trailing else last == [])
  }

  ghost predicate IsItem(dialect: Dialect, item: Item)
    decreases item, 2
  {
    AreGaps(dialect.comments, item.before) && IsSyntax(dialect, item.value) && AreGaps(dialect.comments, item.after)
  }

  ghost predicate IsMember(dialect: Dialect, member: Member)
    decreases member, 3
  {
    && AreGaps(dialect.comments, member.before) && IsString(member.name) && AreGaps(dialect.comments, member.after)
    && IsItem(dialect, member.item)
  }

  ghost predicate AreItems(dialect: Dialect, items: seq<Item>)
    decreases items, 0
  {
    items == [] || (IsItem(dialect, items[0]) && AreItems(dialect, items[1..]))
  }

  ghost predicate AreMembers(dialect: Dialect, members: seq<Member>)
    decreases members, 0
  {
    members == [] || (IsMember(dialect, members[0]) && AreMembers(dialect, members[1..]))
  }

  /** No name comes twice. */
  ghost predicate AreDistinct(members: seq<Member>) {
    forall i, j | 0 <= i < j < |members| :: StringMeant(members[i].name) != StringMeant(members[j].name)
  }

  // ----- What they mean -----

  function Meant(s: Syntax): Json
    decreases s, 1
  {
    match s
    case NullS => Null
    case BoolS(b) => Bool(b)
    case NumberS(_, x) => Num(x)
    case TextS(pieces) => Str(StringMeant(pieces))
    case ListS(items, _, _) => Arr(ItemsMeant(items))
    case ObjectS(members, _, _) => Obj(MembersMeant(members, map[]))
  }

  function ItemsMeant(items: seq<Item>): seq<Json>
    decreases items, 0
  {
    if items == [] then [] else [Meant(items[0].value)] + ItemsMeant(items[1..])
  }

  /** The members in addition to those before them. */
  function MembersMeant(members: seq<Member>, before: map<string, Json>): map<string, Json>
    decreases members, 0
  {
    if members == [] then before
    else MembersMeant(members[1..], before[StringMeant(members[0].name) := Meant(members[0].item.value)])
  }

  // ----- How large they are -----

  function Count(s: Syntax): nat
    decreases s, 1
  {
    match s
    case ListS(items, _, _) => 1 + CountItems(items)
    case ObjectS(members, _, _) => 1 + CountMembers(members)
    case _ => 1
  }

  function CountItems(items: seq<Item>): nat
    decreases items, 0
  {
    if items == [] then 0 else Count(items[0].value) + CountItems(items[1..])
  }

  function CountMembers(members: seq<Member>): nat
    decreases members, 0
  {
    if members == [] then 0 else Count(members[0].item.value) + CountMembers(members[1..])
  }

  /** No value lies more than so many levels below the outermost one. */
  predicate FitsLevels(s: Syntax, levels: int)
    decreases s, 1
  {
    && levels >= 0
    && match s
       case ListS(items, _, _) => ItemsFit(items, levels - 1)
       case ObjectS(members, _, _) => MembersFit(members, levels - 1)
       case _ => true
  }

  predicate ItemsFit(items: seq<Item>, levels: int)
    decreases items, 0
  {
    items == [] || (FitsLevels(items[0].value, levels) && ItemsFit(items[1..], levels))
  }

  predicate MembersFit(members: seq<Member>, levels: int)
    decreases members, 0
  {
    members == [] || (FitsLevels(members[0].item.value, levels) && MembersFit(members[1..], levels))
  }

  // ----- Whole documents -----

  datatype Document = Document(mark: bool, before: seq<Gap>, root: Syntax, after: seq<Gap>, ending: Ending)

  /** U+FEFF in UTF-8. */
  function PrintedMark(mark: bool): Bytes {
    if mark then [0xEF, 0xBB, 0xBF] else []
  }

  function PrintedDocument(d: Document): Bytes {
    PrintedMark(d.mark) + PrintedGaps(d.before) + Printed(d.root) + PrintedGaps(d.after) + PrintedEnding(d.ending)
  }

  ghost predicate IsDocument(dialect: Dialect, d: Document) {
    && AreGaps(dialect.comments, d.before) && IsSyntax(dialect, d.root) && AreGaps(dialect.comments, d.after)
    && IsEnding(dialect.comments, d.ending)
  }
}

/**
 The smart-playlist compiler (desktop/src/library/smart_playlist.cpp): from a rule tree to a flat token
 sequence and an ordered parameter list.

 The functions `Operands`, `TokensOf` and `Emit` say what is emitted; the class `Compiler` is the source's
 recursive walk that overwrites one WHERE fragment and appends to one parameter list, proved equal to them.
 What the emitted pair means is proved in the module CompilerCorrectness.
 */
module Compilation {
  import opened Wrappers
  import opened Rules
  import opened Sql
  import Like

  /** `BadDuration` is raised while binding an operand; the source returns it without recording it. */
  datatype CompileError =
    | UnknownError
    | BadDuration
    | NotAColumn(field: string)
    | EmptyIn
    | NotTextField(op: FieldOp)
    | NeedsText
    | GlobNeedsText
    | CustomOperator(op: FieldOp)
    | CustomNeedsText
    | UnknownOrderField(field: string)

  // ----- Binding an operand -----

  predicate IsDigitChar(c: char) {
    '0' <= c <= '9'
  }

  predicate IsUnit(c: char) {
    c == 's' || c == 'm' || c == 'h'
  }

  function Seconds(unit: char): int {
    if unit == 'm' then 60 else if unit == 'h' then 3600 else 1
  }

  /** The scan of a duration literal: the total so far, the number being read, and whether a unit was seen;
      None at a character that is neither a digit nor a unit. */
  function ScanDuration(s: string, total: int, current: int, seen: bool): Option<(int, bool)> {
    if s == [] then Some((total, seen))
    else if IsDigitChar(s[0]) then ScanDuration(s[1..], total, current * 10 + (s[0] as int - '0' as int), seen)
    else if IsUnit(s[0]) then ScanDuration(s[1..], total + current * Seconds(s[0]), 0, true)
    else None
  }

  function AfterSign(s: string): string {
    if s != [] && s[0] == '-' then s[1..] else s
  }

  function BindOf(operand: Operand, field: string): Result<BindValue, CompileError> {
    match operand
    case Number(n) => Success(IntegerValue(n))
    case Flag(b) => Success(BooleanValue(b))
    case Text(s) =>
      if field != "duration" then Success(TextValue(s))
      else match ScanDuration(AfterSign(s), 0, 0, false)
        case None => Failure(BadDuration)
        case Some((total, seen)) => Success(if seen then IntegerValue(total) else TextValue(s))
  }

  /** One part of a duration literal: a run of digits and its unit. */
  datatype Part = Part(digits: string, unit: char)

  predicate WellFormedParts(parts: seq<Part>) {
    forall i | 0 <= i < |parts| :: IsUnit(parts[i].unit) && AllDigitChars(parts[i].digits)
  }

  predicate AllDigitChars(s: string) {
    forall i | 0 <= i < |s| :: IsDigitChar(s[i])
  }

  /** The number a digit run writes, after the digits `current` stands for. */
  function NumberAfter(current: int, digits: string): int
    decreases digits
  {
    if digits == [] then current else NumberAfter(current * 10 + (digits[0] as int - '0' as int), digits[1..])
  }

  function Literal(parts: seq<Part>): string {
    if parts == [] then "" else parts[0].digits + [parts[0].unit] + Literal(parts[1..])
  }

  function TotalSeconds(parts: seq<Part>): int {
    if parts == [] then 0 else NumberAfter(0, parts[0].digits) * Seconds(parts[0].unit) + TotalSeconds(parts[1..])
  }

  lemma {:induction false} ScanDigits(digits: string, rest: string, total: int, current: int, seen: bool)
    requires AllDigitChars(digits)
    ensures ScanDuration(digits + rest, total, current, seen) ==
            ScanDuration(rest, total, NumberAfter(current, digits), seen)
  {
    if digits == [] {
      assert digits + rest == rest;
    } else {
      assert (digits + rest)[1..] == digits[1..] + rest;
      ScanDigits(digits[1..], rest, total, current * 10 + (digits[0] as int - '0' as int), seen);
    }
  }

  /** A literal such as 3m30s is bound as the sum of its parts; digits after the last unit add nothing. */
  lemma {:induction false} DurationLiteral(parts: seq<Part>, trailing: string, total: int, seen: bool)
    requires WellFormedParts(parts) && AllDigitChars(trailing)
    ensures ScanDuration(Literal(parts) + trailing, total, 0, seen) ==
            Some((total + TotalSeconds(parts), seen || parts != []))
    decreases parts
  {
    if parts == [] {
      assert Literal(parts) + trailing == trailing && trailing + "" == trailing;
      ScanDigits(trailing, "", total, 0, seen);
    } else {
      var p, rest := parts[0], Literal(parts[1..]) + trailing;
      assert Literal(parts) + trailing == p.digits + ([p.unit] + rest);
      ScanDigits(p.digits, [p.unit] + rest, total, 0, seen);
      assert ([p.unit] + rest)[1..] == rest;
      DurationLiteral(parts[1..], trailing, total + NumberAfter(0, p.digits) * Seconds(p.unit), true);
    }
  }

  /** A literal with a unit is bound as its seconds, whatever follows the last unit; a sign in front of it is
      dropped. */
  lemma DurationIsSeconds(parts: seq<Part>, trailing: string)
    requires WellFormedParts(parts) && parts != [] && AllDigitChars(trailing)
    ensures BindOf(Text(Literal(parts) + trailing), "duration") == Success(IntegerValue(TotalSeconds(parts)))
    ensures BindOf(Text("-" + (Literal(parts) + trailing)), "duration") == Success(IntegerValue(TotalSeconds(parts)))
  {
    var s := Literal(parts) + trailing;
    var first := parts[0].digits + [parts[0].unit];
    assert s[0] == first[0] && (IsDigitChar(first[0]) || IsUnit(first[0]));
    assert ("-" + s)[0] == '-' && ("-" + s)[1..] == s;
    DurationLiteral(parts, trailing, 0, false);
    hide Literal, ScanDuration, TotalSeconds;
  }

  /** The value of digits in base ten. */
  function InTens(digits: string): int {
    if digits == "" then 0 else 10 * InTens(digits[..|digits| - 1]) + (digits[|digits| - 1] as int - 48)
  }

  lemma {:induction false} NumberInTens(digits: string)
    ensures NumberAfter(0, digits) == InTens(digits)
    decreases |digits|
  {
    if digits != "" {
      NumberInTens(digits[..|digits| - 1]);
      NumberSnoc(0, digits[..|digits| - 1], digits[|digits| - 1]);
      assert digits == digits[..|digits| - 1] + [digits[|digits| - 1]];
    }
  }

  lemma {:induction false} NumberSnoc(current: int, digits: string, last: char)
    ensures NumberAfter(current, digits + [last]) == 10 * NumberAfter(current, digits) + (last as int - 48)
    decreases |digits|
  {
    var all := digits + [last];
    if digits == "" {
      assert all[1..] == "";
    } else {
      assert all[1..] == digits[1..] + [last];
      NumberSnoc(current * 10 + (digits[0] as int - '0' as int), digits[1..], last);
    }
  }

  predicate AreDecimal(s: string) {
    forall i | 0 <= i < |s| :: '0' <= s[i] <= '9'
  }

  /** Hours, minutes and seconds. */
  lemma HoursMinutesSeconds(h: string, m: string, s: string)
    requires AreDecimal(h) && AreDecimal(m) && AreDecimal(s)
    ensures BindOf(Text(h + "h" + m + "m" + s + "s"), "duration") ==
            Success(IntegerValue(3600 * InTens(h) + 60 * InTens(m) + InTens(s)))
  {
    hide *;
    NumberInTens(h);
    NumberInTens(m);
    NumberInTens(s);
    var parts := ThreeParts(h, m, s);
    Assembled(h, m, s);
    DurationIsSeconds(parts, "");
  }

  lemma Assembled(h: string, m: string, s: string)
    ensures h + ['h'] + (m + ['m'] + (s + ['s'] + "")) + "" == h + "h" + m + "m" + s + "s"
    ensures AllDigitChars("")
  {
  }

  lemma ThreeParts(h: string, m: string, s: string) returns (parts: seq<Part>)
    requires AreDecimal(h) && AreDecimal(m) && AreDecimal(s)
    ensures parts != [] && WellFormedParts(parts)
    ensures Literal(parts) == h + ['h'] + (m + ['m'] + (s + ['s'] + ""))
    ensures TotalSeconds(parts) == 3600 * NumberAfter(0, h) + 60 * NumberAfter(0, m) + NumberAfter(0, s)
  {
    hide NumberAfter, Literal, TotalSeconds;
    NoParts();
    OnePart(Part(s, 's'), []);
    OnePart(Part(m, 'm'), [Part(s, 's')] + []);
    OnePart(Part(h, 'h'), [Part(m, 'm')] + ([Part(s, 's')] + []));
    parts := [Part(h, 'h')] + ([Part(m, 'm')] + ([Part(s, 's')] + []));
  }

  lemma NoParts()
    ensures Literal([]) == "" && TotalSeconds([]) == 0
  {
  }

  lemma OnePart(p: Part, rest: seq<Part>)
    ensures Literal([p] + rest) == p.digits + [p.unit] + Literal(rest)
    ensures TotalSeconds([p] + rest) == NumberAfter(0, p.digits) * Seconds(p.unit) + TotalSeconds(rest)
  {
    assert ([p] + rest)[1..] == rest;
    hide NumberAfter;
  }

  /** A number, on the other hand, is bound as it stands, and the column holds milliseconds.  So a duration written
      as text and one written as a number of milliseconds select the same only when they are zero. */
  lemma DurationUnits(parts: seq<Part>)
    requires WellFormedParts(parts) && parts != []
    ensures ColumnFor("duration") == Some("duration_ms")
    ensures BindOf(Text(Literal(parts)), "duration") == BindOf(Number(1000 * TotalSeconds(parts)), "duration") <==>
            TotalSeconds(parts) == 0
  {
    DurationIsSeconds(parts, "");
    assert Literal(parts) + "" == Literal(parts);
    hide Literal, TotalSeconds, ScanDuration, StringFields;
  }

  /** Three minutes: 180 as text, 180000 as a number of milliseconds. */
  lemma ThreeMinutes()
    ensures BindOf(Text("3m"), "duration") == Success(IntegerValue(180))
    ensures BindOf(Number(180_000), "duration") == Success(IntegerValue(180_000))
  {
    var parts := [Part("3", 'm')];
    assert parts[1..] == [] && Literal([]) == "" && "3"[1..] == "";
    assert Literal(parts) == "3m" && NumberAfter(0, "3") == 3;
    assert TotalSeconds([]) == 0 && TotalSeconds(parts) == 180;
    DurationIsSeconds(parts, "");
    assert Literal(parts) + "" == "3m";
  }

  /** A duration text is refused exactly when, its sign apart, it holds a character that is neither a digit
      nor a unit. */
  lemma {:induction false} DurationRefused(s: string, total: int, current: int, seen: bool)
    ensures ScanDuration(s, total, current, seen) == None <==>
            exists i :: 0 <= i < |s| && !IsDigitChar(s[i]) && !IsUnit(s[i])
  {
    if s != [] {
      var c := s[0];
      if IsDigitChar(c) {
        DurationRefused(s[1..], total, current * 10 + (c as int - '0' as int), seen);
      } else if IsUnit(c) {
        DurationRefused(s[1..], total + current * Seconds(c), 0, true);
      }
      if IsDigitChar(c) || IsUnit(c) {
        assert forall i | 0 <= i < |s[1..]| :: s[1..][i] == s[i + 1];
        if exists i :: 0 <= i < |s| && !IsDigitChar(s[i]) && !IsUnit(s[i]) {
          var i :| 0 <= i < |s| && !IsDigitChar(s[i]) && !IsUnit(s[i]);
          assert s[1..][i - 1] == s[i];
        }
      }
    }
  }

  /** normalise_bind. */
  method NormaliseBind(operand: Operand, field: string) returns (r: Result<BindValue, CompileError>)
    ensures r == BindOf(operand, field)
  {
    match operand {
      case Number(n) => return Success(IntegerValue(n));
      case Flag(b) => return Success(BooleanValue(b));
      case Text(_) =>
    }
    var s := operand.text;
    if field == "duration" {
      var total, current, i, sawAny := 0, 0, 0, false;
      if i < |s| && s[i] == '-' { i := i + 1; }
      assert s[i..] == AfterSign(s);
      while i < |s|
        invariant i <= |s|
        invariant ScanDuration(s[i..], total, current, sawAny) == ScanDuration(AfterSign(s), 0, 0, false)
      {
        ghost var rest := s[i..];
        var ch := s[i];
        assert rest[0] == ch && rest[1..] == s[i + 1..];
        if '0' <= ch <= '9' {
          current := current * 10 + (ch as int - '0' as int);
          i := i + 1;
          continue;
        }
        if ch == 's' || ch == 'm' || ch == 'h' {
          var mult := 1;
          if ch == 'm' { mult := 60; } else if ch == 'h' { mult := 3600; }
          total := total + current * mult;
          current := 0;
          sawAny := true;
          i := i + 1;
          continue;
        }
        return Failure(BadDuration);
      }
      if sawAny { return Success(IntegerValue(total)); }
    }
    return Success(TextValue(s));
  }

  // ----- What is emitted -----

  function BindAll(operands: seq<Operand>, field: string): (r: Result<seq<BindValue>, CompileError>)
    ensures r.Success? ==> |r.value| == |operands|
  {
    if operands == [] then Success([])
    else match BindOf(operands[0], field)
      case Failure(e) => Failure(e)
      case Success(b) =>
        match BindAll(operands[1..], field)
        case Failure(e) => Failure(e)
        case Success(bs) => Success([b] + bs)
  }

  /** The pattern bound for an operator on text. */
  function PatternFor(op: FieldOp, text: string): string {
    match op
    case Contains => "%" + Like.Escaped(text) + "%"
    case NotContains => "%" + Like.Escaped(text) + "%"
    case StartsWith => Like.Escaped(text) + "%"
    case EndsWith => "%" + Like.Escaped(text)
    case _ => text
  }

  /** The values one comparison binds, or why it is refused. */
  function Operands(c: Comparison): Result<seq<BindValue>, CompileError> {
    if IsCustom(c.field) then CustomOperands(c)
    else if ColumnFor(c.field) == None then Failure(NotAColumn(c.field))
    else BuiltinOperands(c)
  }

  function BuiltinOperands(c: Comparison): Result<seq<BindValue>, CompileError> {
    match c.op
    case IsNull => Success([])
    case IsNotNull => Success([])
    case Between => BindAll([c.from, c.to], c.field)
    case In => if c.values == [] then Failure(EmptyIn) else BindAll(c.values, c.field)
    case Glob => if c.value.Text? then Success([TextValue(c.value.text)]) else Failure(GlobNeedsText)
    case _ =>
      if IsLike(c.op) then
        if !IsStringField(c.field) then Failure(NotTextField(c.op))
        else if !c.value.Text? then Failure(NeedsText)
        else Success([TextValue(PatternFor(c.op, c.value.text))])
      else BindAll([c.value], c.field)
  }

  predicate IsLike(op: FieldOp) {
    op == Contains || op == NotContains || op == StartsWith || op == EndsWith
  }

  function CustomOperands(c: Comparison): Result<seq<BindValue>, CompileError>
    requires IsCustom(c.field)
  {
    if !(c.op == Eq || c.op == Ne || IsLike(c.op) || c.op == Glob) then Failure(CustomOperator(c.op))
    else if !c.value.Text? then Failure(CustomNeedsText)
    else Success([TextValue(c.field[|CUSTOM|..]), TextValue(PatternFor(c.op, c.value.text))])
  }

  function OperatorFor(op: FieldOp): Operator {
    match op
    case Ne => NotEqual
    case Gt => Greater
    case Lt => Less
    case Gte => GreaterEqual
    case Lte => LessEqual
    case Glob => GlobOp
    case _ => Equal
  }

  function Marks(n: nat): seq<Token> {
    if n == 0 then [] else if n == 1 then [Mark] else [Mark, Comma] + Marks(n - 1)
  }

  /** The tokens after the column. */
  function Tail(op: FieldOp, values: nat): seq<Token> {
    match op
    case IsNull => [IsT, NullT]
    case IsNotNull => [IsT, NotT, NullT]
    case Between => [BetweenT, Mark, AndT, Mark]
    case In => [InT, LParen] + Marks(values) + [RParen]
    case NotContains => [NotT, LikeT, Mark, EscapeT]
    case _ => if IsLike(op) then [LikeT, Mark, EscapeT] else [OperatorT(OperatorFor(op)), Mark]
  }

  function TableColumn(c: Comparison): string {
    match ColumnFor(c.field) case Some(column) => "t." + column case None => ""
  }

  /** COLLATE NOCASE is added to every predicate on a string field unless the rule is case sensitive; a
      null test never gets it. */
  predicate NoCase(c: Comparison) {
    IsStringField(c.field) && !c.caseSensitive && c.op != IsNull && c.op != IsNotNull
  }

  function Wrapped(negated: bool, ts: seq<Token>): seq<Token> {
    if negated then [NotT, LParen] + ts + [RParen] else ts
  }

  const TRACK_LINK := [ColumnT("ct.track_id"), OperatorT(Equal), ColumnT("t.id")]
  const KEY_TEST := [ColumnT("ct.key"), OperatorT(Equal), Mark]

  /** The operator of the subquery: a custom `!=` is rendered as NOT EXISTS of an equality. */
  function TagOp(op: FieldOp): FieldOp {
    if op == Ne then Eq else op
  }

  function CustomTokens(c: Comparison): seq<Token> {
    var subquery := [ExistsT, LParen, SelectTagT] + TRACK_LINK + [AndT] + KEY_TEST + [AndT] +
                    CustomTest(c.op) + [RParen];
    if c.op == Ne then [NotT] + subquery else subquery
  }

  function CustomTest(op: FieldOp): seq<Token> {
    [ColumnT("ct.value")] + Tail(TagOp(op), 1)
  }

  function TokensOf(c: Comparison): seq<Token> {
    Wrapped(c.negated,
            if IsCustom(c.field) then CustomTokens(c)
            else [ColumnT(TableColumn(c))] + Tail(c.op, |c.values|) + if NoCase(c) then [CollateT] else [])
  }

  datatype Output = Output(tokens: seq<Token>, binds: seq<BindValue>)

  function ConjunctionToken(op: Conjunction): Token {
    if op == And then AndT else OrT
  }

  function Emit(node: Node): Result<Output, CompileError>
    decreases node, 1
  {
    match node
    case Leaf(c) =>
      (match Operands(c)
       case Failure(e) => Failure(e)
       case Success(binds) => Success(Output(TokensOf(c), binds)))
    case Branch(group) => Parenthesised(group, EmitNodes(group.children, group.op))
  }

  function Parenthesised(group: Group, body: Result<Output, CompileError>): Result<Output, CompileError> {
    match body
    case Failure(e) => Failure(e)
    case Success(out) =>
      Success(Output((if group.negated then [NotT] else []) + [LParen] + out.tokens + [RParen], out.binds))
  }

  function EmitNodes(nodes: seq<Node>, op: Conjunction): Result<Output, CompileError>
    decreases nodes, 0
  {
    if nodes == [] then Success(Output([], []))
    else match Emit(nodes[0])
      case Failure(e) => Failure(e)
      case Success(first) => After(first, |nodes| == 1, op, EmitNodes(nodes[1..], op))
  }

  /** `done`, then the conjunction and the rest unless `done` was the last. */
  function After(done: Output, last: bool, op: Conjunction, rest: Result<Output, CompileError>)
    : Result<Output, CompileError>
  {
    match rest
    case Failure(e) => Failure(e)
    case Success(out) =>
      if last then Success(done)
      else Success(Output(done.tokens + [ConjunctionToken(op)] + out.tokens, done.binds + out.binds))
  }

  // ----- The ORDER BY clause and the whole query -----

  datatype OrderKey = Random | OrderColumn(name: string)

  datatype OrderItem = OrderItem(key: OrderKey, direction: Direction)

  function OrderKeyFor(field: string): Result<OrderKey, CompileError> {
    if field == "random" then Success(Random)
    else match ColumnFor(field)
      case None => Failure(UnknownOrderField(field))
      case Some(column) => Success(OrderColumn("t." + column))
  }

  function OrderBy(terms: seq<OrderTerm>): Result<seq<OrderItem>, CompileError> {
    if terms == [] then Success([])
    else
      var last := terms[|terms| - 1];
      match OrderBy(terms[..|terms| - 1])
      case Failure(e) => Failure(e)
      case Success(items) =>
        match OrderKeyFor(last.field)
        case Failure(e) => Failure(e)
        case Success(key) => Success(items + [OrderItem(key, last.direction)])
  }

  datatype CompiledQuery = CompiledQuery(
    filter: seq<Token>, params: seq<BindValue>, orderBy: seq<OrderItem>, limit: Option<int>)

  /** What compile reports for an error raised on the way: an operand that cannot be bound is not recorded. */
  function Reported(e: CompileError): CompileError {
    if e == BadDuration then UnknownError else e
  }

  const DEFAULT_ORDER := [OrderItem(OrderColumn("t.id"), Asc)]

  function CompileResult(rule: PlaylistRule): Result<CompiledQuery, CompileError> {
    match Emit(Branch(rule.root))
    case Failure(e) => Failure(Reported(e))
    case Success(out) =>
      match OrderBy(rule.orderBy)
      case Failure(e) => Failure(e)
      case Success(items) =>
        Success(CompiledQuery(out.tokens, out.binds, if rule.orderBy == [] then DEFAULT_ORDER else items, rule.limit))
  }

  // ----- The source's class -----

  class Compiler {
    var filter: seq<Token>
    var params: seq<BindValue>
    var orderBy: seq<OrderItem>
    var limit: Option<int>
    var error: CompileError

    constructor ()
      ensures filter == [] && params == [] && orderBy == DEFAULT_ORDER && limit == None && error == UnknownError
    {
      filter, params, orderBy, limit, error := [], [], DEFAULT_ORDER, None, UnknownError;
    }

    /** After a failure `e`: the error is recorded unless it came from binding an operand. */
    twostate predicate Failed(e: CompileError)
      reads this
    {
      error == if e == BadDuration then old(error) else e
    }

    /** After a successful emission: the fragment is replaced and the parameters are appended. */
    twostate predicate Emitted(out: Output)
      reads this
    {
      filter == out.tokens && params == old(params) + out.binds && error == old(error)
    }

    method PushBind(operand: Operand, c: Comparison) returns (ok: bool)
      modifies this`params
      ensures ok <==> BindOf(operand, c.field).Success?
      ensures params == old(params) + if ok then [BindOf(operand, c.field).value] else []
    {
      var b := NormaliseBind(operand, c.field);
      if b.Failure? { return false; }
      params := params + [b.value];
      return true;
    }

    /** compile_comparison. */
    method CompileComparison(c: Comparison) returns (ok: bool)
      modifies this
      ensures orderBy == old(orderBy) && limit == old(limit)
      ensures match Operands(c)
              case Failure(e) => !ok && Failed(e)
              case Success(binds) => ok && Emitted(Output(TokensOf(c), binds))
    {
      hide BuiltinOperands, CustomOperands, BuiltinFields, StringFields, Columns;
      if CUSTOM <= c.field {
        ok := CompileCustom(c);
        return;
      }
      var column := ColumnFor(c.field);
      if column == None {
        error := NotAColumn(c.field);
        return false;
      }
      var frag;
      ok, frag := CompileFragment(c, "t." + column.value);
      if !ok { return; }
      var stringy := IsStringField(c.field);
      if stringy && !c.caseSensitive {
        if c.op != IsNull && c.op != IsNotNull { frag := frag + [CollateT]; }
      }
      assert Wrapped(c.negated, frag) == TokensOf(c);
      if c.negated {
        filter := [NotT, LParen] + frag + [RParen];
      } else {
        filter := frag;
      }
    }

    /** The operator switch of compile_comparison: the fragment before its collation. */
    method CompileFragment(c: Comparison, lhs: string) returns (ok: bool, frag: seq<Token>)
      modifies this`params, this`error
      ensures match BuiltinOperands(c)
              case Failure(e) => !ok && Failed(e)
              case Success(binds) =>
                && ok && frag == [ColumnT(lhs)] + Tail(c.op, |c.values|)
                && params == old(params) + binds && error == old(error)
    {
      hide BindOf, StringFields, PatternFor;
      frag := [];
      match c.op {
        case IsNull => return true, [ColumnT(lhs), IsT, NullT];
        case IsNotNull => return true, [ColumnT(lhs), IsT, NotT, NullT];
        case Between =>
          BindPair(c.from, c.to, c.field);
          var bound := PushBind(c.from, c);
          if !bound { return false, []; }
          bound := PushBind(c.to, c);
          if !bound { return false, []; }
          return true, [ColumnT(lhs), BetweenT, Mark, AndT, Mark];
        case In =>
          if c.values == [] {
            error := EmptyIn;
            return false, [];
          }
          var placeholders, bound := PushAll(c);
          if !bound { return false, []; }
          return true, [ColumnT(lhs)] + ([InT, LParen] + placeholders + [RParen]);
        case Glob =>
          if !c.value.Text? {
            error := GlobNeedsText;
            return false, [];
          }
          params := params + [TextValue(c.value.text)];
          return true, [ColumnT(lhs), OperatorT(GlobOp), Mark];
        case _ =>
      }
      if c.op == Contains || c.op == NotContains || c.op == StartsWith || c.op == EndsWith {
        var stringy := IsStringField(c.field);
        if !stringy {
          error := NotTextField(c.op);
          return false, [];
        }
        if !c.value.Text? {
          error := NeedsText;
          return false, [];
        }
        var pattern := LikePattern(c.op, c.value.text);
        params := params + [TextValue(pattern)];
        frag := [ColumnT(lhs)] + (if c.op == NotContains then [NotT, LikeT] else [LikeT]) + [Mark];
        frag := frag + [EscapeT];
        return true, frag;
      }
      BindOne(c.value, c.field);
      var bound := PushBind(c.value, c);
      if !bound { return false, []; }
      return true, [ColumnT(lhs), OperatorT(OperatorFor(c.op)), Mark];
    }

    /** The IN loop: one placeholder and one bound value per operand. */
    method PushAll(c: Comparison) returns (placeholders: seq<Token>, ok: bool)
      requires c.values != []
      modifies this`params
      ensures ok <==> BindAll(c.values, c.field).Success?
      ensures !ok ==> BindAll(c.values, c.field) == Failure(BadDuration)
      ensures ok ==> placeholders == Marks(|c.values|)
      ensures ok ==> params == old(params) + BindAll(c.values, c.field).value
    {
      hide BindOf;
      placeholders := [];
      ghost var bound: seq<BindValue> := [];
      NothingPrepended(BindAll(c.values, c.field));
      assert c.values[0..] == c.values;
      for i := 0 to |c.values|
        invariant placeholders == Marks(i)
        invariant params == old(params) + bound
        invariant BindAll(c.values, c.field) == Prepended(bound, BindAll(c.values[i..], c.field))
      {
        ghost var rest := c.values[i..];
        assert rest[0] == c.values[i] && rest[1..] == c.values[i + 1..];
        BindStep(bound, rest, c.field);
        if i > 0 { placeholders := placeholders + [Comma]; }
        var pushed := PushBind(c.values[i], c);
        if !pushed { return placeholders, false; }
        placeholders := placeholders + [Mark];
        MarksSnoc(i);
        bound := bound + [BindOf(c.values[i], c.field).value];
      }
      assert c.values[|c.values|..] == [];
      return placeholders, true;
    }

    /** compile_custom. */
    method CompileCustom(c: Comparison) returns (ok: bool)
      requires IsCustom(c.field)
      modifies this
      ensures orderBy == old(orderBy) && limit == old(limit)
      ensures match CustomOperands(c)
              case Failure(e) => !ok && Failed(e)
              case Success(binds) => ok && Emitted(Output(TokensOf(c), binds))
    {
      hide PatternFor, CustomTest;
      match c.op {
        case Eq => case Ne => case Contains => case NotContains => case StartsWith => case EndsWith => case Glob =>
        case _ =>
          error := CustomOperator(c.op);
          return false;
      }
      if !c.value.Text? {
        error := CustomNeedsText;
        return false;
      }
      params := params + [TextValue(c.field[|CUSTOM|..])];
      var pattern := LikePattern(c.op, c.value.text);
      params := params + [TextValue(pattern)];
      var frag := CustomFragment(c.op);
      var fragment := [ExistsT, LParen, SelectTagT] + TRACK_LINK + [AndT] + KEY_TEST + [AndT] + frag + [RParen];
      if c.op == Ne { fragment := [NotT] + fragment; }
      if c.negated {
        filter := [NotT, LParen] + fragment + [RParen];
      } else {
        filter := fragment;
      }
      assert old(params) + [TextValue(c.field[|CUSTOM|..])] + [TextValue(pattern)] ==
             old(params) + [TextValue(c.field[|CUSTOM|..]), TextValue(pattern)];
      return true;
    }

    /** The last test of the subquery. */
    method CustomFragment(op: FieldOp) returns (frag: seq<Token>)
      requires op == Eq || op == Ne || IsLike(op) || op == Glob
      ensures frag == CustomTest(op)
    {
      match op {
        case NotContains => frag := [ColumnT("ct.value"), NotT, LikeT, Mark, EscapeT];
        case Contains => frag := [ColumnT("ct.value"), LikeT, Mark, EscapeT];
        case StartsWith => frag := [ColumnT("ct.value"), LikeT, Mark, EscapeT];
        case EndsWith => frag := [ColumnT("ct.value"), LikeT, Mark, EscapeT];
        case Glob => frag := [ColumnT("ct.value"), OperatorT(GlobOp), Mark];
        case _ => frag := [ColumnT("ct.value"), OperatorT(Equal), Mark];
      }
    }

    /** compile_group: each child overwrites `filter`, whose text is then moved into the body. */
    method CompileGroup(g: Group) returns (ok: bool)
      modifies this
      ensures orderBy == old(orderBy) && limit == old(limit)
      ensures match Emit(Branch(g))
              case Failure(e) => !ok && Failed(e)
              case Success(out) => ok && Emitted(out)
      decreases g
    {
      EmitBranch(g);
      hide Operands, TokensOf, Emit, EmitNodes, After;
      var conjunction := if g.op == And then AndT else OrT;
      var body := [LParen];
      ghost var done := Output([], []);
      ghost var all := EmitNodes(g.children, g.op);
      assert g.children[0..] == g.children;
      for i := 0 to |g.children|
        invariant orderBy == old(orderBy) && limit == old(limit) && error == old(error)
        invariant body == [LParen] + done.tokens && params == old(params) + done.binds
        invariant i == 0 ==> done == Output([], []) && all == EmitNodes(g.children[0..], g.op)
        invariant i > 0 ==> all == After(done, i == |g.children|, g.op, EmitNodes(g.children[i..], g.op))
      {
        ghost var rest := g.children[i..];
        assert rest[0] == g.children[i] && rest[1..] == g.children[i + 1..];
        if i > 0 { body := body + [conjunction]; }
        EmitStep(done, i, rest, g.op);
        match g.children[i] {
          case Branch(group) =>
            var compiled := CompileGroup(group);
            if !compiled { return false; }
          case Leaf(comparison) =>
            var compiled := CompileComparison(comparison);
            if !compiled { return false; }
        }
        body := body + filter;
        ghost var first := Emit(g.children[i]).value;
        done := if i == 0 then first
                else Output(done.tokens + [ConjunctionToken(g.op)] + first.tokens, done.binds + first.binds);
        filter := [];
      }
      AfterLast(done, |g.children|, g.op, g.children[|g.children|..]);
      body := body + [RParen];
      if g.negated {
        filter := [NotT] + body;
      } else {
        filter := body;
      }
      return true;
    }

    /** Compiler::run. */
    method Run(rule: PlaylistRule) returns (ok: bool)
      requires filter == [] && params == [] && orderBy == DEFAULT_ORDER && error == UnknownError
      modifies this
      ensures match CompileResult(rule)
              case Failure(e) => !ok && error == e
              case Success(query) => ok && query == CompiledQuery(filter, params, orderBy, limit)
    {
      hide Emit, OrderBy;
      var compiled := CompileGroup(rule.root);
      if !compiled { return false; }
      if rule.orderBy != [] {
        var ordered := CompileOrderBy(rule.orderBy);
        if !ordered { return false; }
      } else {
        NoOrderBy();
      }
      limit := rule.limit;
      return true;
    }

    /** The ORDER BY loop of Compiler::run. */
    method CompileOrderBy(terms: seq<OrderTerm>) returns (ok: bool)
      modifies this`orderBy, this`error
      ensures match OrderBy(terms)
              case Failure(e) => !ok && error == e && e != BadDuration
              case Success(items) => ok && orderBy == items && error == old(error)
    {
      hide Columns;
      var items: seq<OrderItem> := [];
      for i := 0 to |terms|
        invariant OrderBy(terms[..i]) == Success(items)
      {
        var term := terms[i];
        assert terms[..i + 1][..i] == terms[..i];
        var key := Random;
        if term.field != "random" {
          var column := ColumnFor(term.field);
          if column == None {
            OrderByFails(terms, i + 1);
            error := UnknownOrderField(term.field);
            return false;
          }
          key := OrderColumn("t." + column.value);
        }
        items := items + [OrderItem(key, term.direction)];
      }
      assert terms[..|terms|] == terms;
      orderBy := items;
      return true;
    }
  }

  /** compile. */
  method Compile(rule: PlaylistRule) returns (r: Result<CompiledQuery, CompileError>)
    ensures r == CompileResult(rule)
  {
    var c := new Compiler();
    var ok := c.Run(rule);
    if !ok { return Failure(c.error); }
    return Success(CompiledQuery(c.filter, c.params, c.orderBy, c.limit));
  }

  /** The pattern the source builds before it binds it. */
  method LikePattern(op: FieldOp, text: string) returns (pattern: string)
    ensures pattern == PatternFor(op, text)
  {
    pattern := text;
    match op {
      case Contains =>
        pattern := Like.EscapeLike(text);
        pattern := "%" + pattern + "%";
      case NotContains =>
        pattern := Like.EscapeLike(text);
        pattern := "%" + pattern + "%";
      case StartsWith =>
        pattern := Like.EscapeLike(text);
        pattern := pattern + "%";
      case EndsWith =>
        pattern := Like.EscapeLike(text);
        pattern := "%" + pattern;
      case _ =>
    }
  }

  // ----- Loop lemmas -----

  function Prepended(bound: seq<BindValue>, r: Result<seq<BindValue>, CompileError>)
    : Result<seq<BindValue>, CompileError>
  {
    match r case Failure(e) => Failure(e) case Success(bs) => Success(bound + bs)
  }

  lemma NothingPrepended(r: Result<seq<BindValue>, CompileError>)
    ensures Prepended([], r) == r
  {
    if r.Success? { assert [] + r.value == r.value; }
  }

  lemma BindFailsAsDuration(operand: Operand, field: string)
    ensures BindOf(operand, field).Failure? ==> BindOf(operand, field) == Failure(BadDuration)
  {
  }

  lemma BindOne(operand: Operand, field: string)
    ensures BindAll([operand], field) ==
            match BindOf(operand, field) case Failure(e) => Failure(e) case Success(b) => Success([b])
    ensures BindOf(operand, field).Failure? ==> BindOf(operand, field) == Failure(BadDuration)
  {
    hide BindOf;
    BindFailsAsDuration(operand, field);
    assert BindAll([operand][1..], field) == Success([]);
    if BindOf(operand, field).Success? {
      assert [BindOf(operand, field).value] + [] == [BindOf(operand, field).value];
    }
  }

  lemma BindPair(a: Operand, b: Operand, field: string)
    ensures BindAll([a, b], field) ==
            if BindOf(a, field).Failure? || BindOf(b, field).Failure? then Failure(BadDuration)
            else Success([BindOf(a, field).value, BindOf(b, field).value])
  {
    hide BindOf;
    BindOne(a, field);
    BindOne(b, field);
    BindFailsAsDuration(a, field);
    assert [a, b][1..] == [b];
    if BindOf(a, field).Success? && BindOf(b, field).Success? {
      var x, y := BindOf(a, field).value, BindOf(b, field).value;
      assert [x] + [y] == [x, y];
    }
  }

  lemma BindStep(bound: seq<BindValue>, rest: seq<Operand>, field: string)
    requires rest != []
    ensures BindOf(rest[0], field).Failure? ==> Prepended(bound, BindAll(rest, field)) == Failure(BadDuration)
    ensures BindOf(rest[0], field).Success? ==>
            Prepended(bound, BindAll(rest, field)) ==
            Prepended(bound + [BindOf(rest[0], field).value], BindAll(rest[1..], field))
  {
    hide BindOf;
    BindFailsAsDuration(rest[0], field);
    if BindOf(rest[0], field).Success? && BindAll(rest[1..], field).Success? {
      var b, bs := BindOf(rest[0], field).value, BindAll(rest[1..], field).value;
      assert bound + ([b] + bs) == (bound + [b]) + bs;
    }
  }

  lemma {:induction false} MarksSnoc(n: nat)
    ensures Marks(n + 1) == if n == 0 then [Mark] else Marks(n) + [Comma, Mark]
  {
    if n > 1 { MarksSnoc(n - 1); }
  }

  lemma EmitBranch(g: Group)
    ensures Emit(Branch(g)) == Parenthesised(g, EmitNodes(g.children, g.op))
    ensures forall c: Comparison :: Emit(Leaf(c)) ==
              match Operands(c) case Failure(e) => Failure(e) case Success(binds) => Success(Output(TokensOf(c), binds))
  {
  }

  lemma AfterLast(done: Output, n: nat, op: Conjunction, rest: seq<Node>)
    requires rest == []
    ensures EmitNodes(rest, op) == Success(Output([], []))
    ensures After(done, true, op, EmitNodes(rest, op)) == Success(done)
  {
  }

  lemma EmitStep(done: Output, i: nat, rest: seq<Node>, op: Conjunction)
    requires rest != [] && (i == 0 ==> done == Output([], []))
    ensures var all := if i == 0 then EmitNodes(rest, op) else After(done, false, op, EmitNodes(rest, op));
            match Emit(rest[0])
            case Failure(e) => all == Failure(e)
            case Success(first) =>
              var next := if i == 0 then first
                          else Output(done.tokens + [ConjunctionToken(op)] + first.tokens, done.binds + first.binds);
              all == After(next, |rest| == 1, op, EmitNodes(rest[1..], op))
  {
    hide Emit;
    if Emit(rest[0]).Success? && EmitNodes(rest[1..], op).Success? {
      var first, more := Emit(rest[0]).value, EmitNodes(rest[1..], op).value;
      var join := [ConjunctionToken(op)];
      assert done.tokens + join + (first.tokens + join + more.tokens) ==
             (done.tokens + join + first.tokens) + join + more.tokens;
      assert done.binds + (first.binds + more.binds) == (done.binds + first.binds) + more.binds;
    }
  }

  lemma NoOrderBy()
    ensures OrderBy([]) == Success([])
  {
  }

  lemma {:induction false} OrderByFails(terms: seq<OrderTerm>, n: nat)
    requires n <= |terms| && OrderBy(terms[..n]).Failure?
    ensures OrderBy(terms) == OrderBy(terms[..n])
    decreases |terms|
  {
    if n < |terms| {
      assert terms[..|terms| - 1][..n] == terms[..n];
      OrderByFails(terms[..|terms| - 1], n);
    } else {
      assert terms[..n] == terms;
    }
  }
}

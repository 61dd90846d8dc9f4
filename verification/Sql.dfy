/**
 The SQL the smart-playlist compiler emits, read back: tokens, a recursive-descent parser with SQL's
 precedence, and three-valued evaluation.

 The parser is the reference reading of a WHERE fragment: OR below AND below NOT below the predicates,
 BETWEEN with an AND of its own, NOT also inside NOT LIKE and IS NOT NULL, COLLATE at the end of a
 predicate, EXISTS around a subquery condition that is parsed by the same grammar.  It numbers the
 placeholders from left to right, as positional binding does.
 */
module Sql {
  import opened Wrappers

  datatype Operator = Equal | NotEqual | Greater | Less | GreaterEqual | LessEqual | GlobOp

  datatype Token =
    | LParen | RParen | Comma | Mark
    | AndT | OrT | NotT | BetweenT | InT | LikeT | EscapeT | CollateT | IsT | NullT | ExistsT | SelectTagT
    | OperatorT(op: Operator)
    | ColumnT(name: string)

  // ----- Expressions -----

  datatype Predicate =
    | Compare(op: Operator)
    | LikeP(escaped: bool)
    | BetweenP
    | InP
    | IsNullP

  /** The k-th placeholder, or a column. */
  datatype Arg = Param(k: nat) | ColumnArg(name: string)

  datatype Expr =
    | Atom(column: string, test: Predicate, args: seq<Arg>, nocase: bool)
    | Not(arg: Expr)
    | All(parts: seq<Expr>)
    | Any(parts: seq<Expr>)
    | Exists(condition: Expr)

  // ----- The parser -----

  datatype Parsed<+T> = Parsed(value: T, rest: seq<Token>, next: nat)

  predicate Starts(ts: seq<Token>, t: Token) {
    ts != [] && ts[0] == t
  }

  function Combine(op: Token, parts: seq<Expr>): Expr {
    if |parts| == 1 then parts[0] else if op == OrT then Any(parts) else All(parts)
  }

  function ParseOr(ts: seq<Token>, k: nat): (r: Option<Parsed<Expr>>)
    ensures r.Some? ==> |r.value.rest| < |ts|
    decreases |ts|, 5
  {
    match ParseOrList(ts, k)
    case None => None
    case Some(p) => Some(Parsed(Combine(OrT, p.value), p.rest, p.next))
  }

  function ParseOrList(ts: seq<Token>, k: nat): (r: Option<Parsed<seq<Expr>>>)
    ensures r.Some? ==> |r.value.rest| < |ts|
    decreases |ts|, 4
  {
    match ParseAndList(ts, k)
    case None => None
    case Some(p) =>
      var head := Combine(AndT, p.value);
      if !Starts(p.rest, OrT) then Some(Parsed([head], p.rest, p.next))
      else
        match ParseOrList(p.rest[1..], p.next)
        case None => None
        case Some(q) => Some(Parsed([head] + q.value, q.rest, q.next))
  }

  function ParseAndList(ts: seq<Token>, k: nat): (r: Option<Parsed<seq<Expr>>>)
    ensures r.Some? ==> |r.value.rest| < |ts|
    decreases |ts|, 3
  {
    match ParseNot(ts, k)
    case None => None
    case Some(p) =>
      if !Starts(p.rest, AndT) then Some(Parsed([p.value], p.rest, p.next))
      else
        match ParseAndList(p.rest[1..], p.next)
        case None => None
        case Some(q) => Some(Parsed([p.value] + q.value, q.rest, q.next))
  }

  function ParseNot(ts: seq<Token>, k: nat): (r: Option<Parsed<Expr>>)
    ensures r.Some? ==> |r.value.rest| < |ts|
    decreases |ts|, 2
  {
    if Starts(ts, NotT) then
      match ParseNot(ts[1..], k)
      case None => None
      case Some(p) => Some(Parsed(Not(p.value), p.rest, p.next))
    else ParsePrimary(ts, k)
  }

  function ParsePrimary(ts: seq<Token>, k: nat): (r: Option<Parsed<Expr>>)
    ensures r.Some? ==> |r.value.rest| < |ts|
    decreases |ts|, 1
  {
    if Starts(ts, LParen) then
      match ParseOr(ts[1..], k)
      case None => None
      case Some(p) => if Starts(p.rest, RParen) then Some(Parsed(p.value, p.rest[1..], p.next)) else None
    else if ts != [] && [ExistsT, LParen, SelectTagT] <= ts then
      match ParseOr(ts[3..], k)
      case None => None
      case Some(p) => if Starts(p.rest, RParen) then Some(Parsed(Exists(p.value), p.rest[1..], p.next)) else None
    else if ts != [] && ts[0].ColumnT? then ParseTail(ts[0].name, ts[1..], k)
    else None
  }

  /** What follows a column: one predicate. */
  function ParseTail(column: string, ts: seq<Token>, k: nat): (r: Option<Parsed<Expr>>)
    ensures r.Some? ==> |r.value.rest| < |ts|
  {
    if ts == [] then None
    else match ts[0]
      case OperatorT(op) =>
        if Starts(ts[1..], Mark) then Some(Collated(column, Compare(op), [Param(k)], ts[2..], k + 1))
        else if |ts| > 1 && ts[1].ColumnT? then Some(Collated(column, Compare(op), [ColumnArg(ts[1].name)], ts[2..], k))
        else None
      case LikeT => ParseLike(column, ts[1..], k)
      case NotT =>
        if Starts(ts[1..], LikeT) then
          match ParseLike(column, ts[2..], k)
          case None => None
          case Some(p) => Some(Parsed(Not(p.value), p.rest, p.next))
        else None
      case BetweenT =>
        if [BetweenT, Mark, AndT, Mark] <= ts then
          Some(Collated(column, BetweenP, [Param(k), Param(k + 1)], ts[4..], k + 2))
        else None
      case InT =>
        if [InT, LParen] <= ts then
          match ParseMarks(ts[2..], k)
          case None => None
          case Some(p) =>
            if Starts(p.rest, RParen) then Some(Collated(column, InP, p.value, p.rest[1..], p.next)) else None
        else None
      case IsT =>
        if [IsT, NullT] <= ts then Some(Parsed(Atom(column, IsNullP, [], false), ts[2..], k))
        else if [IsT, NotT, NullT] <= ts then Some(Parsed(Not(Atom(column, IsNullP, [], false)), ts[3..], k))
        else None
      case _ => None
  }

  /** The operand of LIKE, its ESCAPE clause and its collation. */
  function ParseLike(column: string, ts: seq<Token>, k: nat): (r: Option<Parsed<Expr>>)
    ensures r.Some? ==> |r.value.rest| < |ts|
  {
    if !Starts(ts, Mark) then None
    else if Starts(ts[1..], EscapeT) then Some(Collated(column, LikeP(true), [Param(k)], ts[2..], k + 1))
    else Some(Collated(column, LikeP(false), [Param(k)], ts[1..], k + 1))
  }

  /** A predicate with the COLLATE that may end it. */
  function Collated(column: string, p: Predicate, args: seq<Arg>, ts: seq<Token>, k: nat): (r: Parsed<Expr>)
    ensures |r.rest| <= |ts|
  {
    if Starts(ts, CollateT) then Parsed(Atom(column, p, args, true), ts[1..], k)
    else Parsed(Atom(column, p, args, false), ts, k)
  }

  function ParseMarks(ts: seq<Token>, k: nat): (r: Option<Parsed<seq<Arg>>>)
    ensures r.Some? ==> |r.value.rest| < |ts|
    decreases |ts|
  {
    if !Starts(ts, Mark) then None
    else if Starts(ts[1..], Comma) then
      match ParseMarks(ts[2..], k + 1)
      case None => None
      case Some(p) => Some(Parsed([Param(k)] + p.value, p.rest, p.next))
    else Some(Parsed([Param(k)], ts[1..], k + 1))
  }

  /** The reading of a whole WHERE fragment: nothing may be left over. */
  function ParseWhere(ts: seq<Token>): Option<Parsed<Expr>> {
    match ParseOr(ts, 0)
    case None => None
    case Some(p) => if p.rest == [] then Some(p) else None
  }

  function CountMarks(ts: seq<Token>): nat {
    if ts == [] then 0 else (if ts[0] == Mark then 1 else 0) + CountMarks(ts[1..])
  }

  // ----- Three-valued evaluation -----

  datatype Truth = True | False | Unknown

  function TNot(t: Truth): Truth {
    match t case True => False case False => True case Unknown => Unknown
  }

  function TAnd(a: Truth, b: Truth): Truth {
    if a == False || b == False then False else if a == True && b == True then True else Unknown
  }

  function TOr(a: Truth, b: Truth): Truth {
    if a == True || b == True then True else if a == False && b == False then False else Unknown
  }

  datatype BindValue = TextValue(text: string) | IntegerValue(number: int) | BooleanValue(flag: bool)

  /** What an argument denotes; a placeholder nothing is bound to is NULL. */
  datatype Value = Bound(value: BindValue) | ColumnValue(name: string) | Unbound

  /** Where a column is read: the track row alone, or it and one row of the custom-tags table. */
  datatype Scope = Track | Tag(row: nat)

  /** One track row with the tag rows, as an arbitrary three-valued judgement of every atom. */
  datatype World = World(judge: (Scope, string, Predicate, seq<Value>, bool) -> Truth, tagRows: nat)

  function ValueOf(arg: Arg, params: seq<BindValue>): Value {
    match arg
    case ColumnArg(name) => ColumnValue(name)
    case Param(k) => if k < |params| then Bound(params[k]) else Unbound
  }

  function ValuesOf(args: seq<Arg>, params: seq<BindValue>): seq<Value> {
    seq(|args|, i requires 0 <= i < |args| => ValueOf(args[i], params))
  }

  /** SQL's value of an expression: Kleene connectives, a two-valued EXISTS over the tag rows. */
  ghost function Eval(e: Expr, params: seq<BindValue>, world: World, scope: Scope): Truth
    decreases e, 1
  {
    match e
    case Atom(column, p, args, nocase) => world.judge(scope, column, p, ValuesOf(args, params), nocase)
    case Not(arg) => TNot(Eval(arg, params, world, scope))
    case All(parts) => EvalAll(parts, params, world, scope)
    case Any(parts) => EvalAny(parts, params, world, scope)
    case Exists(condition) =>
      if exists row: nat | row < world.tagRows :: Eval(condition, params, world, Tag(row)) == True then True else False
  }

  ghost function EvalAll(parts: seq<Expr>, params: seq<BindValue>, world: World, scope: Scope): Truth
    decreases parts, 0
  {
    if parts == [] then True
    else TAnd(Eval(parts[0], params, world, scope), EvalAll(parts[1..], params, world, scope))
  }

  ghost function EvalAny(parts: seq<Expr>, params: seq<BindValue>, world: World, scope: Scope): Truth
    decreases parts, 0
  {
    if parts == [] then False
    else TOr(Eval(parts[0], params, world, scope), EvalAny(parts[1..], params, world, scope))
  }
}

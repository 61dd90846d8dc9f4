/**
 What the compiled query means: the flat WHERE fragment, read back with SQL's precedence and its
 placeholders bound in order, has on every row the value of the rule tree.
 */
module CompilerCorrectness {
  import opened Wrappers
  import opened Rules
  import opened Sql
  import opened Compilation

  // ----- The rule's own meaning -----

  /** The predicate an operator stands for; the negative operators negate it. */
  function PredicateFor(op: FieldOp): Predicate {
    match op
    case IsNull => IsNullP
    case IsNotNull => IsNullP
    case Between => BetweenP
    case In => InP
    case _ => if IsLike(op) then LikeP(true) else Compare(OperatorFor(op))
  }

  predicate IsNegative(op: FieldOp) {
    op == NotContains || op == IsNotNull
  }

  function Negate(negated: bool, t: Truth): Truth {
    if negated then TNot(t) else t
  }

  function AllBound(values: seq<BindValue>): seq<Value> {
    seq(|values|, i requires 0 <= i < |values| => Bound(values[i]))
  }

  /** A comparison on a row: its column, operator and own bound values, judged there. */
  ghost function ComparisonTruth(c: Comparison, world: World): Truth
    requires Operands(c).Success?
  {
    var values := Operands(c).value;
    Negate(c.negated,
           if IsCustom(c.field) then
             Negate(c.op == Ne,
                    if exists row: nat | row < world.tagRows :: TagRowMatches(c.op, values, world, row)
                    then True else False)
           else
             Negate(IsNegative(c.op),
                    world.judge(Track, TableColumn(c), PredicateFor(c.op), AllBound(values), NoCase(c))))
  }

  /** A tag row of this track that has the key and whose value passes the test. */
  ghost predicate TagRowMatches(op: FieldOp, values: seq<BindValue>, world: World, row: nat)
    requires |values| == 2
  {
    && world.judge(Tag(row), "ct.track_id", Compare(Equal), [ColumnValue("t.id")], false) == True
    && world.judge(Tag(row), "ct.key", Compare(Equal), [Bound(values[0])], false) == True
    && Negate(IsNegative(op),
              world.judge(Tag(row), "ct.value", PredicateFor(TagOp(op)), [Bound(values[1])], false)) == True
  }

  /** The rule tree on a row, by recursion over the tree. */
  ghost function NodeTruth(node: Node, world: World): Truth
    requires Emit(node).Success?
    decreases node, 1
  {
    match node
    case Leaf(c) => ComparisonTruth(c, world)
    case Branch(group) => Negate(group.negated, NodesTruth(group.children, group.op, world))
  }

  ghost function NodesTruth(nodes: seq<Node>, op: Conjunction, world: World): Truth
    requires EmitNodes(nodes, op).Success?
    decreases nodes, 0
  {
    if nodes == [] then if op == And then True else False
    else
      var first, rest := NodeTruth(nodes[0], world), NodesTruth(nodes[1..], op, world);
      if op == And then TAnd(first, rest) else TOr(first, rest)
  }

  // ----- The expression the fragment should read as -----

  function Params(k: nat, n: nat): seq<Arg> {
    seq(n, i requires 0 <= i < n => Param(k + i))
  }

  function Arity(op: FieldOp, values: nat): nat {
    match op
    case IsNull => 0
    case IsNotNull => 0
    case Between => 2
    case In => values
    case _ => 1
  }

  function ColumnExpr(column: string, op: FieldOp, values: nat, nocase: bool, k: nat): Expr {
    var atom := Atom(column, PredicateFor(op), Params(k, Arity(op, values)), nocase);
    if IsNegative(op) then Not(atom) else atom
  }

  function Subquery(op: FieldOp, k: nat): Expr {
    Exists(Condition(op, k))
  }

  function Condition(op: FieldOp, k: nat): Expr {
    All([Atom("ct.track_id", Compare(Equal), [ColumnArg("t.id")], false),
         Atom("ct.key", Compare(Equal), [Param(k)], false),
         ColumnExpr("ct.value", TagOp(op), 1, false, k + 1)])
  }

  function ComparisonExpr(c: Comparison, k: nat): Expr {
    if c.negated then Not(BareExpr(c, k)) else BareExpr(c, k)
  }

  /** A comparison without its own NOT. */
  function BareExpr(c: Comparison, k: nat): Expr {
    if !IsCustom(c.field) then ColumnExpr(TableColumn(c), c.op, |c.values|, NoCase(c), k)
    else if c.op == Ne then Not(Subquery(c.op, k)) else Subquery(c.op, k)
  }

  /** How many values a subtree binds. */
  function BindCount(node: Node): nat {
    match Emit(node) case Failure(_) => 0 case Success(out) => |out.binds|
  }

  /** The expression of a subtree whose first placeholder is number `k`. */
  function NodeExpr(node: Node, k: nat): Expr
    decreases node, 1
  {
    match node
    case Leaf(c) => ComparisonExpr(c, k)
    case Branch(group) =>
      var e := Combine(ConjunctionToken(group.op), NodeExprs(group.children, k));
      if group.negated then Not(e) else e
  }

  function NodeExprs(nodes: seq<Node>, k: nat): (es: seq<Expr>)
    ensures |es| == |nodes|
    decreases nodes, 0
  {
    if nodes == [] then [] else [NodeExpr(nodes[0], k)] + NodeExprs(nodes[1..], k + BindCount(nodes[0]))
  }

  // ----- Parsing a comparison -----

  /** What may stand after a complete operand of AND and OR. */
  predicate Follow(rest: seq<Token>) {
    rest == [] || rest[0] == AndT || rest[0] == OrT || rest[0] == RParen
  }

  function CollateTokens(nocase: bool): seq<Token> {
    if nocase then [CollateT] else []
  }

  lemma {:induction false} ParseOfMarks(n: nat, rest: seq<Token>, k: nat)
    requires n > 0 && !Starts(rest, Comma)
    ensures ParseMarks(Marks(n) + rest, k) == Some(Parsed(Params(k, n), rest, k + n))
  {
    var ts := Marks(n) + rest;
    if n == 1 {
      assert ts[1..] == rest;
      assert Params(k, 1) == [Param(k)];
    } else {
      ParseOfMarks(n - 1, rest, k + 1);
      MarksFirst(n, rest);
      assert Params(k, n) == [Param(k)] + Params(k + 1, n - 1);
    }
  }

  lemma MarksFirst(n: nat, rest: seq<Token>)
    requires n > 1
    ensures var ts := Marks(n) + rest; |ts| > 1 && ts[0] == Mark && ts[1] == Comma && ts[2..] == Marks(n - 1) + rest
  {
    assert Marks(n) == [Mark, Comma] + Marks(n - 1);
  }

  lemma ParseOfTail(column: string, op: FieldOp, values: nat, nocase: bool, rest: seq<Token>, k: nat)
    requires Follow(rest) && (op == In ==> values > 0)
    requires nocase ==> op != IsNull && op != IsNotNull
    ensures ParseTail(column, Tail(op, values) + (CollateTokens(nocase) + rest), k) ==
            Some(Parsed(ColumnExpr(column, op, values, nocase, k), rest, k + Arity(op, values)))
  {
    hide ParseTail, Tail, Follow, Collated, CollateTokens, ParseLike, ParseMarks, Params, OperatorFor;
    var end := CollateTokens(nocase) + rest;
    EndOfPredicate(nocase, rest);
    FewParams(k);
    if op == IsNull || op == IsNotNull {
      NullTail(column, op, values, end, k);
      assert end == rest by { NoCollation(rest); }
    } else if op == In {
      InTail(column, values, end, k);
    } else if IsLike(op) {
      LikeTail(column, op, values, end, k);
    } else {
      OperandTail(column, op, values, end, k);
    }
  }

  lemma FewParams(k: nat)
    ensures Params(k, 0) == [] && Params(k, 1) == [Param(k)] && Params(k, 2) == [Param(k), Param(k + 1)]
  {
  }

  lemma NoCollation(rest: seq<Token>)
    ensures CollateTokens(false) + rest == rest
  {
  }

  lemma NullTail(column: string, op: FieldOp, values: nat, end: seq<Token>, k: nat)
    requires op == IsNull || op == IsNotNull
    ensures var atom := Atom(column, IsNullP, [], false);
            ParseTail(column, Tail(op, values) + end, k) ==
            Some(Parsed(if op == IsNull then atom else Not(atom), end, k))
  {
    var ts := Tail(op, values) + end;
    if op == IsNull {
      assert ts[..2] == [IsT, NullT] && ts[2..] == end;
    } else {
      assert ts[1] == NotT && ts[..3] == [IsT, NotT, NullT] && ts[3..] == end;
    }
  }

  lemma InTail(column: string, values: nat, end: seq<Token>, k: nat)
    requires values > 0
    ensures ParseTail(column, Tail(In, values) + end, k) ==
            Some(Collated(column, InP, Params(k, values), end, k + values))
  {
    ParseOfMarks(values, [RParen] + end, k);
    hide Marks, ParseMarks, Collated, Params;
    var inner := Marks(values) + ([RParen] + end);
    assert Tail(In, values) + end == [InT, LParen] + inner;
    InList(column, inner, Params(k, values), end, k, k + values);
  }

  lemma InList(column: string, inner: seq<Token>, args: seq<Arg>, end: seq<Token>, k: nat, next: nat)
    requires ParseMarks(inner, k) == Some(Parsed(args, [RParen] + end, next))
    ensures ParseTail(column, [InT, LParen] + inner, k) == Some(Collated(column, InP, args, end, next))
  {
    hide ParseMarks, Collated;
    var ts := [InT, LParen] + inner;
    assert ts[2..] == inner && ts[..2] == [InT, LParen];
    assert ([RParen] + end)[1..] == end;
  }

  lemma LikeTail(column: string, op: FieldOp, values: nat, end: seq<Token>, k: nat)
    requires IsLike(op)
    ensures var like := Collated(column, LikeP(true), [Param(k)], end, k + 1);
            ParseTail(column, Tail(op, values) + end, k) ==
            Some(if op == NotContains then Parsed(Not(like.value), like.rest, like.next) else like)
  {
    ParseOfLike(column, end, k);
    hide ParseLike, Collated;
    var ts := Tail(op, values) + end;
    if op == NotContains {
      assert ts[1..][0] == LikeT && ts[2..] == [Mark, EscapeT] + end;
    } else {
      assert ts[0] == LikeT && ts[1..] == [Mark, EscapeT] + end;
    }
  }

  lemma OperandTail(column: string, op: FieldOp, values: nat, end: seq<Token>, k: nat)
    requires op != IsNull && op != IsNotNull && op != In && !IsLike(op)
    ensures ParseTail(column, Tail(op, values) + end, k) ==
            Some(if op == Between then Collated(column, BetweenP, [Param(k), Param(k + 1)], end, k + 2)
                 else Collated(column, Compare(OperatorFor(op)), [Param(k)], end, k + 1))
  {
    hide Collated;
    var ts := Tail(op, values) + end;
    if op == Between {
      assert ts[..4] == [BetweenT, Mark, AndT, Mark] && ts[4..] == end;
    } else {
      assert ts[1..][0] == Mark && ts[2..] == end;
    }
  }

  lemma EndOfPredicate(nocase: bool, rest: seq<Token>)
    requires Follow(rest)
    ensures forall column, p, args, k :: Collated(column, p, args, CollateTokens(nocase) + rest, k) ==
              Parsed(Atom(column, p, args, nocase), rest, k)
  {
    var end := CollateTokens(nocase) + rest;
    if nocase { assert end[1..] == rest; } else { assert end == rest; }
  }

  lemma ParseOfLike(column: string, end: seq<Token>, k: nat)
    ensures ParseLike(column, [Mark, EscapeT] + end, k) ==
            Some(Collated(column, LikeP(true), [Param(k)], end, k + 1))
  {
    var ts := [Mark, EscapeT] + end;
    assert ts[1..] == [EscapeT] + end && ts[2..] == end;
  }

  lemma ParseOfColumn(column: string, op: FieldOp, values: nat, nocase: bool, rest: seq<Token>, k: nat)
    requires Follow(rest) && (op == In ==> values > 0)
    requires nocase ==> op != IsNull && op != IsNotNull
    ensures ParseNot([ColumnT(column)] + Tail(op, values) + CollateTokens(nocase) + rest, k) ==
            Some(Parsed(ColumnExpr(column, op, values, nocase, k), rest, k + Arity(op, values)))
  {
    hide Tail, ParseTail;
    var ts := [ColumnT(column)] + Tail(op, values) + CollateTokens(nocase) + rest;
    assert ts[1..] == Tail(op, values) + (CollateTokens(nocase) + rest);
    ParseOfTail(column, op, values, nocase, rest, k);
  }

  // ----- Parsing the connectives -----

  /** One operand followed by a closing bracket is a whole expression. */
  lemma ParseOfSingle(ts: seq<Token>, rest: seq<Token>, k: nat, e: Expr, next: nat)
    requires Starts(rest, RParen) && ParseNot(ts, k) == Some(Parsed(e, rest, next))
    ensures ParseOr(ts, k) == Some(Parsed(e, rest, next))
  {
    hide ParseNot;
    assert ParseAndList(ts, k) == Some(Parsed([e], rest, next));
    assert ParseOrList(ts, k) == Some(Parsed([e], rest, next));
  }

  /** A bracketed expression, with or without NOT in front. */
  lemma ParseOfBrackets(negated: bool, body: seq<Token>, rest: seq<Token>, k: nat, e: Expr, next: nat)
    requires ParseOr(body + ([RParen] + rest), k) == Some(Parsed(e, [RParen] + rest, next))
    ensures ParseNot((if negated then [NotT] else []) + [LParen] + body + [RParen] + rest, k) ==
            Some(Parsed(if negated then Not(e) else e, rest, next))
  {
    hide ParseOr;
    var open := [LParen] + body + [RParen] + rest;
    assert open[1..] == body + ([RParen] + rest);
    assert ([RParen] + rest)[1..] == rest;
    assert ParsePrimary(open, k) == Some(Parsed(e, rest, next));
    assert ParseNot(open, k) == Some(Parsed(e, rest, next));
    var ts := (if negated then [NotT] else []) + [LParen] + body + [RParen] + rest;
    if negated {
      assert ts[1..] == open;
    } else {
      assert ts == open;
    }
  }

  lemma ParseOfNot(ts: seq<Token>, rest: seq<Token>, k: nat, e: Expr, next: nat)
    requires ParseNot(ts, k) == Some(Parsed(e, rest, next))
    ensures ParseNot([NotT] + ts, k) == Some(Parsed(Not(e), rest, next))
  {
    assert ([NotT] + ts)[1..] == ts;
  }

  lemma AndListStep(ts: seq<Token>, more: seq<Token>, k: nat, e: Expr, mid: nat)
    requires ParseNot(ts, k) == Some(Parsed(e, [AndT] + more, mid))
    ensures ParseAndList(more, mid) == None ==> ParseAndList(ts, k) == None
    ensures ParseAndList(more, mid).Some? ==>
            var q := ParseAndList(more, mid).value;
            ParseAndList(ts, k) == Some(Parsed([e] + q.value, q.rest, q.next))
  {
    assert ([AndT] + more)[1..] == more;
  }

  lemma OrListStep(ts: seq<Token>, more: seq<Token>, k: nat, e: Expr, mid: nat)
    requires ParseNot(ts, k) == Some(Parsed(e, [OrT] + more, mid))
    ensures ParseOrList(more, mid) == None ==> ParseOrList(ts, k) == None
    ensures ParseOrList(more, mid).Some? ==>
            var q := ParseOrList(more, mid).value;
            ParseOrList(ts, k) == Some(Parsed([e] + q.value, q.rest, q.next))
  {
    assert ([OrT] + more)[1..] == more;
    assert ParseAndList(ts, k) == Some(Parsed([e], [OrT] + more, mid));
  }

  /** The last operand of a list, which ends before a closing bracket. */
  lemma ListEnd(ts: seq<Token>, rest: seq<Token>, k: nat, e: Expr, next: nat)
    requires Starts(rest, RParen) && ParseNot(ts, k) == Some(Parsed(e, rest, next))
    ensures ParseAndList(ts, k) == Some(Parsed([e], rest, next))
    ensures ParseOrList(ts, k) == Some(Parsed([e], rest, next))
  {
  }

  // ----- Parsing the EXISTS subquery -----

  lemma ParseOfLink(rest: seq<Token>, k: nat)
    ensures ParseNot(TRACK_LINK + ([AndT] + rest), k) ==
            Some(Parsed(Atom("ct.track_id", Compare(Equal), [ColumnArg("t.id")], false), [AndT] + rest, k))
  {
    var ts := TRACK_LINK + ([AndT] + rest);
    assert ts[1..][1..] == [ColumnT("t.id")] + ([AndT] + rest);
    assert ts[1..][2..] == [AndT] + rest;
  }

  lemma ParseOfKey(rest: seq<Token>, k: nat)
    ensures ParseNot(KEY_TEST + ([AndT] + rest), k) ==
            Some(Parsed(Atom("ct.key", Compare(Equal), [Param(k)], false), [AndT] + rest, k + 1))
  {
    var ts := KEY_TEST + ([AndT] + rest);
    assert ts[1..][1..] == [Mark] + ([AndT] + rest);
    assert ts[1..][2..] == [AndT] + rest;
  }

  /** The subquery's condition is a conjunction of its own, ended by the subquery's bracket. */
  lemma ParseOfCondition(op: FieldOp, rest: seq<Token>, k: nat)
    requires op != In && Starts(rest, RParen)
    ensures ParseOr(TRACK_LINK + [AndT] + KEY_TEST + [AndT] + CustomTest(op) + rest, k) ==
            Some(Parsed(Condition(op, k), rest, k + 1 + Arity(TagOp(op), 1)))
  {
    hide ParseNot, Tail, CustomTest, ColumnExpr, ParseOr, Arity, TagOp;
    assert Follow(rest) && TagOp(op) != In by { NotIn(op, rest); }
    var last := CustomTest(op) + rest;
    var middle := KEY_TEST + ([AndT] + last);
    var ts := TRACK_LINK + ([AndT] + middle);
    var test := ColumnExpr("ct.value", TagOp(op), 1, false, k + 1);
    var next := k + 1 + Arity(TagOp(op), 1);
    ConditionTokens(op, rest);
    ParseOfColumn("ct.value", TagOp(op), 1, false, rest, k + 1);
    ParseOfKey(last, k);
    ParseOfLink(middle, k);
    ThreeConjuncts(ts, middle, last, rest, k, k, k + 1, next,
                   Atom("ct.track_id", Compare(Equal), [ColumnArg("t.id")], false),
                   Atom("ct.key", Compare(Equal), [Param(k)], false), test);
  }

  lemma NotIn(op: FieldOp, rest: seq<Token>)
    requires op != In && Starts(rest, RParen)
    ensures Follow(rest) && TagOp(op) != In
  {
  }

  /** Three operands joined by AND, up to a closing bracket. */
  lemma ThreeConjuncts(ts: seq<Token>, middle: seq<Token>, last: seq<Token>, rest: seq<Token>,
                       k: nat, k1: nat, k2: nat, next: nat, a: Expr, b: Expr, c: Expr)
    requires Starts(rest, RParen)
    requires ParseNot(ts, k) == Some(Parsed(a, [AndT] + middle, k1))
    requires ParseNot(middle, k1) == Some(Parsed(b, [AndT] + last, k2))
    requires ParseNot(last, k2) == Some(Parsed(c, rest, next))
    ensures ParseOr(ts, k) == Some(Parsed(All([a, b, c]), rest, next))
  {
    hide ParseNot, ParseAndList, ParseOr, ParseOrList;
    ListEnd(last, rest, k2, c, next);
    AndListStep(middle, last, k1, b, k2);
    AndListStep(ts, middle, k, a, k1);
    assert [a] + ([b] + [c]) == [a, b, c];
    AndGroup(ts, rest, k, [a, b, c], next);
  }

  lemma ConditionTokens(op: FieldOp, rest: seq<Token>)
    ensures TRACK_LINK + [AndT] + KEY_TEST + [AndT] + CustomTest(op) + rest ==
            TRACK_LINK + ([AndT] + (KEY_TEST + ([AndT] + (CustomTest(op) + rest))))
    ensures CustomTest(op) + rest == [ColumnT("ct.value")] + Tail(TagOp(op), 1) + CollateTokens(false) + rest
  {
    hide Tail, CustomTest;
    var link, key, test, join := TRACK_LINK, KEY_TEST, CustomTest(op), [AndT];
    assert link + join + key + join + test + rest == link + (join + (key + (join + (test + rest))));
    CustomTestTokens(op);
  }

  lemma CustomTestTokens(op: FieldOp)
    ensures CustomTest(op) == [ColumnT("ct.value")] + Tail(TagOp(op), 1) + CollateTokens(false)
  {
  }

  /** A conjunction that ends before a closing bracket is a whole expression. */
  lemma AndGroup(ts: seq<Token>, rest: seq<Token>, k: nat, parts: seq<Expr>, next: nat)
    requires Starts(rest, RParen) && ParseAndList(ts, k) == Some(Parsed(parts, rest, next))
    ensures ParseOr(ts, k) == Some(Parsed(Combine(AndT, parts), rest, next))
  {
    hide ParseAndList;
    assert ParseOrList(ts, k) == Some(Parsed([Combine(AndT, parts)], rest, next));
  }

  /** EXISTS around a condition that parses. */
  lemma ExistsAround(condition: seq<Token>, rest: seq<Token>, k: nat, e: Expr, next: nat)
    requires ParseOr(condition + ([RParen] + rest), k) == Some(Parsed(e, [RParen] + rest, next))
    ensures ParseNot([ExistsT, LParen, SelectTagT] + (condition + ([RParen] + rest)), k) ==
            Some(Parsed(Exists(e), rest, next))
  {
    hide ParseOr;
    var open := [ExistsT, LParen, SelectTagT];
    var ts := open + (condition + ([RParen] + rest));
    assert ts[3..] == condition + ([RParen] + rest) && ts[..3] == open;
    assert ([RParen] + rest)[1..] == rest;
  }

  lemma ParseOfSubquery(op: FieldOp, rest: seq<Token>, k: nat)
    requires op != In
    ensures ParseNot([ExistsT, LParen, SelectTagT] + TRACK_LINK + [AndT] + KEY_TEST + [AndT] + CustomTest(op)
                     + [RParen] + rest, k) ==
            Some(Parsed(Subquery(op, k), rest, k + 1 + Arity(TagOp(op), 1)))
  {
    var condition := TRACK_LINK + [AndT] + KEY_TEST + [AndT] + CustomTest(op);
    var open := [ExistsT, LParen, SelectTagT];
    var ts := open + (condition + ([RParen] + rest));
    assert open + TRACK_LINK + [AndT] + KEY_TEST + [AndT] + CustomTest(op) + [RParen] + rest == ts;
    ParseOfCondition(op, [RParen] + rest, k);
    hide ParseOr, ParseNot, CustomTest, Tail, Condition;
    ExistsAround(condition, rest, k, Condition(op, k), k + 1 + Arity(TagOp(op), 1));
  }

  // ----- Parsing a whole tree -----

  /** The unwrapped tokens of a comparison. */
  function BareTokens(c: Comparison): seq<Token> {
    if IsCustom(c.field) then CustomTokens(c)
    else [ColumnT(TableColumn(c))] + Tail(c.op, |c.values|) + CollateTokens(NoCase(c))
  }

  lemma ParseOfBare(c: Comparison, rest: seq<Token>, k: nat)
    requires Operands(c).Success? && Follow(rest)
    ensures ParseNot(BareTokens(c) + rest, k) ==
            Some(Parsed(BareExpr(c, k), rest, k + |Operands(c).value|))
  {
    hide ParseNot, Operands, CustomTokens, ColumnExpr, Subquery, Tail, IsCustom, TableColumn, NoCase, Arity, Follow;
    OperandCount(c);
    if IsCustom(c.field) {
      ParseOfCustom(c, rest, k);
    } else {
      NoCaseOperator(c);
      ParseOfColumn(TableColumn(c), c.op, |c.values|, NoCase(c), rest, k);
    }
  }

  lemma NoCaseOperator(c: Comparison)
    ensures NoCase(c) ==> c.op != IsNull && c.op != IsNotNull
  {
  }

  lemma ParseOfCustom(c: Comparison, rest: seq<Token>, k: nat)
    requires IsCustom(c.field) && c.op != In
    ensures ParseNot(CustomTokens(c) + rest, k) ==
            Some(Parsed(BareExpr(c, k), rest, k + 1 + Arity(TagOp(c.op), 1)))
  {
    hide ParseNot, CustomTest, Subquery;
    ParseOfSubquery(c.op, rest, k);
    var subquery := [ExistsT, LParen, SelectTagT] + TRACK_LINK + [AndT] + KEY_TEST + [AndT] + CustomTest(c.op)
                    + [RParen];
    if c.op == Ne {
      ParseOfNot(subquery + rest, rest, k, Subquery(c.op, k), k + 1 + Arity(TagOp(c.op), 1));
      assert [NotT] + subquery + rest == [NotT] + (subquery + rest);
    }
  }

  /** The number of values bound is the number of placeholders written. */
  lemma OperandCount(c: Comparison)
    requires Operands(c).Success?
    ensures |Operands(c).value| ==
            if IsCustom(c.field) then 1 + Arity(TagOp(c.op), 1) else Arity(c.op, |c.values|)
    ensures c.op == In ==> !IsCustom(c.field) && |c.values| > 0
  {
    hide BindOf, PatternFor, Columns, StringFields;
  }

  lemma BareParts(c: Comparison, k: nat)
    ensures TokensOf(c) == Wrapped(c.negated, BareTokens(c))
    ensures ComparisonExpr(c, k) == if c.negated then Not(BareExpr(c, k)) else BareExpr(c, k)
  {
    hide CustomTokens, Tail, StringFields, Columns;
  }

  lemma ParseOfComparison(c: Comparison, rest: seq<Token>, k: nat)
    requires Operands(c).Success? && Follow(rest)
    ensures ParseNot(TokensOf(c) + rest, k) ==
            Some(Parsed(ComparisonExpr(c, k), rest, k + |Operands(c).value|))
  {
    BareParts(c, k);
    hide Operands, ParseNot, ParseOr, TokensOf, BareTokens, BareExpr, ComparisonExpr;
    var e, next := BareExpr(c, k), k + |Operands(c).value|;
    if c.negated {
      var close := [RParen] + rest;
      ParseOfBare(c, close, k);
      ParseOfSingle(BareTokens(c) + close, close, k, e, next);
      ParseOfBrackets(true, BareTokens(c), rest, k, e, next);
      assert [NotT, LParen] + BareTokens(c) + [RParen] + rest ==
             [NotT] + [LParen] + BareTokens(c) + [RParen] + rest;
    } else {
      ParseOfBare(c, rest, k);
    }
  }

  /** The tokens of a subtree parse back to its expression, whatever follows. */
  lemma {:induction false} ParseOfNode(node: Node, out: Output, rest: seq<Token>, k: nat)
    requires Emit(node) == Success(out) && NoEmptyGroup(node) && Follow(rest)
    ensures ParseNot(out.tokens + rest, k) == Some(Parsed(NodeExpr(node, k), rest, k + |out.binds|))
    decreases node, 1
  {
    hide ParseNot, Emit, EmitNodes, NodeExpr, TokensOf, Operands, NoEmptyGroup, Follow;
    NodeParts(node, k);
    match node {
      case Leaf(c) => ParseOfComparison(c, rest, k);
      case Branch(group) => ParseOfGroup(group, EmitNodes(group.children, group.op).value, rest, k);
    }
  }

  lemma NodeParts(node: Node, k: nat)
    ensures node.Leaf? ==> NodeExpr(node, k) == ComparisonExpr(node.comparison, k)
    ensures node.Leaf? ==> (Emit(node).Success? <==> Operands(node.comparison).Success?)
    ensures node.Leaf? && Emit(node).Success? ==>
              Emit(node).value == Output(TokensOf(node.comparison), Operands(node.comparison).value)
    ensures node.Branch? ==> Emit(node) == Parenthesised(node.group, EmitNodes(node.group.children, node.group.op))
    ensures node.Branch? && NoEmptyGroup(node) ==> node.group.children != [] && NoneEmpty(node.group.children)
  {
    hide TokensOf, Operands, EmitNodes, NodeExprs, ComparisonExpr, NoneEmpty, Combine;
  }

  lemma {:induction false} ParseOfGroup(group: Group, body: Output, rest: seq<Token>, k: nat)
    requires EmitNodes(group.children, group.op) == Success(body) && group.children != [] && NoneEmpty(group.children)
    ensures ParseNot((if group.negated then [NotT] else []) + [LParen] + body.tokens + [RParen] + rest, k) ==
            Some(Parsed(NodeExpr(Branch(group), k), rest, k + |body.binds|))
    decreases group, 1
  {
    hide ParseNot, Emit, EmitNodes, ParseOr, ParseAndList, ParseOrList, Combine;
    var close := [RParen] + rest;
    var parts, next := NodeExprs(group.children, k), k + |body.binds|;
    ParseOfNodes(group.children, group.op, body, close, k);
    if group.op == And {
      AndGroup(body.tokens + close, close, k, parts, next);
    } else {
      OrGroup(body.tokens + close, close, k, parts, next);
    }
    ParseOfBrackets(group.negated, body.tokens, rest, k, Combine(ConjunctionToken(group.op), parts), next);
  }

  lemma OrGroup(ts: seq<Token>, rest: seq<Token>, k: nat, parts: seq<Expr>, next: nat)
    requires ParseOrList(ts, k) == Some(Parsed(parts, rest, next))
    ensures ParseOr(ts, k) == Some(Parsed(Combine(OrT, parts), rest, next))
  {
  }

  lemma {:induction false} ParseOfNodes(nodes: seq<Node>, op: Conjunction, out: Output, rest: seq<Token>, k: nat)
    requires EmitNodes(nodes, op) == Success(out) && nodes != [] && NoneEmpty(nodes) && Starts(rest, RParen)
    ensures var parsed := Some(Parsed(NodeExprs(nodes, k), rest, k + |out.binds|));
            if op == And then ParseAndList(out.tokens + rest, k) == parsed
            else ParseOrList(out.tokens + rest, k) == parsed
    decreases nodes, 0
  {
    hide EmitNodes, Emit, ParseNot, ParseAndList, ParseOrList, NodeExpr, NodeExprs, NoEmptyGroup, Follow;
    NodeExprsStep(nodes, k);
    FollowsOperand(op, rest);
    if |nodes| == 1 {
      LastNode(nodes, op);
      ParseOfNode(nodes[0], out, rest, k);
      ListEnd(out.tokens + rest, rest, k, NodeExpr(nodes[0], k), k + |out.binds|);
    } else {
      OutputStep(nodes, op);
      var first, others := Emit(nodes[0]).value, EmitNodes(nodes[1..], op).value;
      var e, mid := NodeExpr(nodes[0], k), k + |first.binds|;
      ParseOfNode(nodes[0], first, [ConjunctionToken(op)] + (others.tokens + rest), k);
      ParseOfNodes(nodes[1..], op, others, rest, mid);
      ListStep(op, first.tokens, others.tokens, rest, k, e, mid);
    }
  }

  lemma FollowsOperand(op: Conjunction, rest: seq<Token>)
    requires Starts(rest, RParen)
    ensures Follow(rest) && forall more: seq<Token> :: Follow([ConjunctionToken(op)] + more)
  {
  }

  lemma OutputStep(nodes: seq<Node>, op: Conjunction)
    requires |nodes| > 1 && EmitNodes(nodes, op).Success?
    ensures Emit(nodes[0]).Success? && EmitNodes(nodes[1..], op).Success?
    ensures var first, others := Emit(nodes[0]).value, EmitNodes(nodes[1..], op).value;
            EmitNodes(nodes, op) ==
            Success(Output(first.tokens + [ConjunctionToken(op)] + others.tokens, first.binds + others.binds))
  {
  }

  /** An operand, the conjunction of the group, and a list of the same group. */
  lemma ListStep(op: Conjunction, first: seq<Token>, others: seq<Token>, rest: seq<Token>, k: nat, e: Expr, mid: nat)
    requires ParseNot(first + ([ConjunctionToken(op)] + (others + rest)), k) ==
             Some(Parsed(e, [ConjunctionToken(op)] + (others + rest), mid))
    ensures var ts := first + [ConjunctionToken(op)] + others + rest;
            var whole := if op == And then ParseAndList(ts, k) else ParseOrList(ts, k);
            var tail := if op == And then ParseAndList(others + rest, mid) else ParseOrList(others + rest, mid);
            whole == match tail case None => None case Some(q) => Some(Parsed([e] + q.value, q.rest, q.next))
  {
    hide ParseNot, ParseAndList, ParseOrList;
    var more := others + rest;
    var ts := first + ([ConjunctionToken(op)] + more);
    assert first + [ConjunctionToken(op)] + others + rest == ts;
    if op == And { AndListStep(ts, more, k, e, mid); } else { OrListStep(ts, more, k, e, mid); }
  }

  lemma LastNode(nodes: seq<Node>, op: Conjunction)
    requires |nodes| == 1 && EmitNodes(nodes, op).Success?
    ensures EmitNodes(nodes, op) == Emit(nodes[0])
  {
  }

  lemma NodeExprsStep(nodes: seq<Node>, k: nat)
    requires nodes != []
    ensures NodeExprs(nodes, k) == [NodeExpr(nodes[0], k)] + NodeExprs(nodes[1..], k + BindCount(nodes[0]))
    ensures |nodes| == 1 ==> NodeExprs(nodes, k) == [NodeExpr(nodes[0], k)]
    ensures Emit(nodes[0]).Success? ==> BindCount(nodes[0]) == |Emit(nodes[0]).value.binds|
  {
  }

  // ----- An empty group -----

  /** Tokens that start with a closing bracket are no expression. */
  lemma NothingParses(rest: seq<Token>, k: nat)
    requires Starts(rest, RParen)
    ensures ParseOr(rest, k) == None
  {
    assert ParseNot(rest, k) == None;
    assert ParseAndList(rest, k) == None;
    assert ParseOrList(rest, k) == None;
  }

  lemma BracketsFail(negated: bool, body: seq<Token>, rest: seq<Token>, k: nat)
    requires ParseOr(body + ([RParen] + rest), k) == None
    ensures ParseNot((if negated then [NotT] else []) + [LParen] + body + [RParen] + rest, k) == None
  {
    hide ParseOr;
    var open := [LParen] + body + [RParen] + rest;
    assert open[1..] == body + ([RParen] + rest);
    assert ParsePrimary(open, k) == None;
    var ts := (if negated then [NotT] else []) + [LParen] + body + [RParen] + rest;
    if negated { assert ts[1..] == open; } else { assert ts == open; }
  }

  /** A tree with an empty group anywhere compiles to a fragment that is no SQL expression. */
  lemma {:induction false} EmptyGroupFails(node: Node, out: Output, rest: seq<Token>, k: nat)
    requires Emit(node) == Success(out) && !NoEmptyGroup(node) && Follow(rest)
    ensures ParseNot(out.tokens + rest, k) == None
    decreases node, 1
  {
    var group := node.group;
    EmitBranch(group);
    var body := EmitNodes(group.children, group.op).value;
    var close := [RParen] + rest;
    if group.children == [] {
      assert body.tokens + close == close;
      NothingParses(close, k);
    } else {
      EmptyGroupsFail(group.children, group.op, body, close, k);
    }
    hide ParseNot, Emit, EmitNodes;
    BracketsFail(group.negated, body.tokens, rest, k);
  }

  lemma {:induction false} EmptyGroupsFail(nodes: seq<Node>, op: Conjunction, out: Output, rest: seq<Token>, k: nat)
    requires EmitNodes(nodes, op) == Success(out) && !NoneEmpty(nodes) && Starts(rest, RParen)
    ensures if op == And then ParseAndList(out.tokens + rest, k) == None else ParseOrList(out.tokens + rest, k) == None
    ensures ParseOr(out.tokens + rest, k) == None
    decreases nodes, 0
  {
    hide EmitNodes, Emit, ParseNot, ParseAndList, ParseOrList, ParseOr, NodeExpr, NoEmptyGroup, Follow;
    FollowsOperand(op, rest);
    if |nodes| == 1 {
      LastNode(nodes, op);
      EmptyGroupFails(nodes[0], out, rest, k);
      NoList(out.tokens + rest, k);
    } else {
      OutputStep(nodes, op);
      var first, others := Emit(nodes[0]).value, EmitNodes(nodes[1..], op).value;
      var more := [ConjunctionToken(op)] + (others.tokens + rest);
      assert out.tokens + rest == first.tokens + more;
      if NoEmptyGroup(nodes[0]) {
        assert !NoneEmpty(nodes[1..]);
        ParseOfNode(nodes[0], first, more, k);
        EmptyGroupsFail(nodes[1..], op, others, rest, k + |first.binds|);
        ListStep(op, first.tokens, others.tokens, rest, k, NodeExpr(nodes[0], k), k + |first.binds|);
        NoGroup(out.tokens + rest, k);
      } else {
        EmptyGroupFails(nodes[0], first, more, k);
        NoList(out.tokens + rest, k);
      }
    }
  }

  lemma NoList(ts: seq<Token>, k: nat)
    requires ParseNot(ts, k) == None
    ensures ParseAndList(ts, k) == None && ParseOrList(ts, k) == None && ParseOr(ts, k) == None
  {
  }

  lemma NoGroup(ts: seq<Token>, k: nat)
    ensures ParseAndList(ts, k) == None ==> ParseOrList(ts, k) == None
    ensures ParseOrList(ts, k) == None ==> ParseOr(ts, k) == None
  {
  }

  // ----- The value of the expression -----

  /** Binding the k-th placeholder to the k-th parameter gives a comparison its own values. */
  lemma ValuesOfParams(k: nat, n: nat, params: seq<BindValue>, values: seq<BindValue>)
    requires n == |values| && k + n <= |params| && params[k..k + n] == values
    ensures ValuesOf(Params(k, n), params) == AllBound(values)
  {
    forall i | 0 <= i < n ensures ValuesOf(Params(k, n), params)[i] == AllBound(values)[i] {
      assert params[k + i] == params[k..k + n][i];
    }
  }

  lemma ColumnTestValue(column: string, op: FieldOp, n: nat, nocase: bool, k: nat, params: seq<BindValue>,
                        values: seq<BindValue>, world: World, scope: Scope)
    requires |values| == Arity(op, n) && k + |values| <= |params| && params[k..k + |values|] == values
    ensures Eval(ColumnExpr(column, op, n, nocase, k), params, world, scope) ==
            Negate(IsNegative(op), world.judge(scope, column, PredicateFor(op), AllBound(values), nocase))
  {
    ValuesOfParams(k, |values|, params, values);
  }

  /** The subquery is true on a row exactly when some tag row matches. */
  lemma SubqueryValue(op: FieldOp, k: nat, params: seq<BindValue>, values: seq<BindValue>, world: World)
    requires |values| == 2 && Arity(TagOp(op), 1) == 1
    requires k + 2 <= |params| && params[k..k + 2] == values
    ensures Eval(Subquery(op, k), params, world, Track) ==
            if exists row: nat | row < world.tagRows :: TagRowMatches(op, values, world, row) then True else False
  {
    forall row: nat
      ensures Eval(Condition(op, k), params, world, Tag(row)) == True <==> TagRowMatches(op, values, world, row)
    {
      TagRowValue(op, k, params, values, world, row);
    }
    hide TagRowMatches;
    var condition := Condition(op, k);
    assert Subquery(op, k) == Exists(condition);
    if exists row: nat | row < world.tagRows :: TagRowMatches(op, values, world, row) {
      var row: nat :| row < world.tagRows && TagRowMatches(op, values, world, row);
      assert Eval(condition, params, world, Tag(row)) == True;
    }
  }

  lemma TagRowValue(op: FieldOp, k: nat, params: seq<BindValue>, values: seq<BindValue>, world: World, row: nat)
    requires |values| == 2 && Arity(TagOp(op), 1) == 1
    requires k + 2 <= |params| && params[k..k + 2] == values
    ensures Eval(Condition(op, k), params, world, Tag(row)) == True <==> TagRowMatches(op, values, world, row)
  {
    var scope := Tag(row);
    var parts := Condition(op, k).parts;
    assert params[k..k + 2][0] == params[k] && params[k..k + 2][1] == params[k + 1];
    assert params[k + 1..k + 2] == [values[1]];
    ColumnTestValue("ct.value", TagOp(op), 1, false, k + 1, params, [values[1]], world, scope);
    assert AllBound([values[1]]) == [Bound(values[1])];
    assert ValuesOf([ColumnArg("t.id")], params) == [ColumnValue("t.id")];
    assert ValuesOf([Param(k)], params) == [Bound(values[0])];
    assert IsNegative(TagOp(op)) == IsNegative(op);
    hide ColumnExpr;
    ThreeConjunctsValue(parts[0], parts[1], parts[2], params, world, scope);
    assert parts == [parts[0], parts[1], parts[2]];
  }

  lemma ThreeConjunctsValue(a: Expr, b: Expr, c: Expr, params: seq<BindValue>, world: World, scope: Scope)
    ensures Eval(All([a, b, c]), params, world, scope) == True <==>
            Eval(a, params, world, scope) == True && Eval(b, params, world, scope) == True &&
            Eval(c, params, world, scope) == True
  {
    assert [a, b, c][1..] == [b, c] && [b, c][1..] == [c] && [c][1..] == [];
    assert EvalAll([], params, world, scope) == True;
    assert EvalAll([c], params, world, scope) == TAnd(Eval(c, params, world, scope), True);
    assert EvalAll([b, c], params, world, scope) ==
           TAnd(Eval(b, params, world, scope), EvalAll([c], params, world, scope));
  }

  lemma ComparisonValue(c: Comparison, k: nat, params: seq<BindValue>, world: World)
    requires Operands(c).Success?
    requires var values := Operands(c).value; k + |values| <= |params| && params[k..k + |values|] == values
    ensures Eval(ComparisonExpr(c, k), params, world, Track) == ComparisonTruth(c, world)
  {
    OperandCount(c);
    if IsCustom(c.field) { CustomCount(c); }
    var values := Operands(c).value;
    hide Operands, Subquery, ColumnExpr, TagRowMatches, Columns, StringFields, AllBound, PredicateFor;
    if IsCustom(c.field) {
      SubqueryValue(c.op, k, params, values, world);
    } else {
      ColumnTestValue(TableColumn(c), c.op, |c.values|, NoCase(c), k, params, values, world, Track);
    }
  }

  lemma CustomCount(c: Comparison)
    requires Operands(c).Success? && IsCustom(c.field)
    ensures |Operands(c).value| == 2 && Arity(TagOp(c.op), 1) == 1
  {
  }

  /** The expression of a subtree has the value of the subtree. */
  lemma {:induction false} NodeValue(node: Node, k: nat, params: seq<BindValue>, world: World)
    requires Emit(node).Success?
    requires var binds := Emit(node).value.binds; k + |binds| <= |params| && params[k..k + |binds|] == binds
    ensures Eval(NodeExpr(node, k), params, world, Track) == NodeTruth(node, world)
    decreases node, 1
  {
    match node {
      case Leaf(c) =>
        ComparisonValue(c, k, params, world);
        hide ComparisonExpr, ComparisonTruth, Operands, TokensOf;
      case Branch(group) =>
        EmitBranch(group);
        NodesValue(group.children, group.op, k, params, world);
        hide Emit, EmitNodes;
        CombineValue(group.op, NodeExprs(group.children, k), params, world);
    }
  }

  ghost function EvalList(op: Conjunction, parts: seq<Expr>, params: seq<BindValue>, world: World): Truth {
    if op == And then EvalAll(parts, params, world, Track) else EvalAny(parts, params, world, Track)
  }

  lemma CombineValue(op: Conjunction, parts: seq<Expr>, params: seq<BindValue>, world: World)
    ensures Eval(Combine(ConjunctionToken(op), parts), params, world, Track) == EvalList(op, parts, params, world)
  {
    if |parts| == 1 {
      assert EvalAll(parts[1..], params, world, Track) == True;
      assert EvalAny(parts[1..], params, world, Track) == False;
    }
  }

  lemma {:induction false} NodesValue(nodes: seq<Node>, op: Conjunction, k: nat, params: seq<BindValue>, world: World)
    requires EmitNodes(nodes, op).Success?
    requires var binds := EmitNodes(nodes, op).value.binds; k + |binds| <= |params| && params[k..k + |binds|] == binds
    ensures EvalList(op, NodeExprs(nodes, k), params, world) == NodesTruth(nodes, op, world)
    decreases nodes, 0
  {
    hide EmitNodes, Emit, NodeExprs, NodeExpr, Eval, NodeTruth;
    if nodes == [] {
      NoNodes(nodes, op);
      NoExprs(nodes, k);
    } else {
      BindsStep(nodes, op);
      var first, others := Emit(nodes[0]).value.binds, EmitNodes(nodes[1..], op).value.binds;
      var mid := k + |first|;
      NodeExprsStep(nodes, k);
      Window(params, k, first, others);
      NodeValue(nodes[0], k, params, world);
      NodesValue(nodes[1..], op, mid, params, world);
      assert NodeExprs(nodes, k)[1..] == NodeExprs(nodes[1..], mid);
    }
  }

  lemma NoExprs(nodes: seq<Node>, k: nat)
    requires nodes == []
    ensures NodeExprs(nodes, k) == []
  {
  }

  lemma Window(params: seq<BindValue>, k: nat, first: seq<BindValue>, others: seq<BindValue>)
    requires k + |first| + |others| <= |params| && params[k..k + |first + others|] == first + others
    ensures params[k..k + |first|] == first && params[k + |first|..k + |first| + |others|] == others
  {
    var whole := params[k..k + |first + others|];
    assert params[k..k + |first|] == whole[..|first|];
    assert params[k + |first|..k + |first| + |others|] == whole[|first|..];
  }

  lemma BindsStep(nodes: seq<Node>, op: Conjunction)
    requires nodes != [] && EmitNodes(nodes, op).Success?
    ensures Emit(nodes[0]).Success? && EmitNodes(nodes[1..], op).Success?
    ensures EmitNodes(nodes, op).value.binds == Emit(nodes[0]).value.binds + EmitNodes(nodes[1..], op).value.binds
  {
    hide Emit;
    if |nodes| == 1 { NoNodes(nodes[1..], op); }
  }

  lemma NoNodes(nodes: seq<Node>, op: Conjunction)
    requires nodes == []
    ensures EmitNodes(nodes, op) == Success(Output([], []))
  {
  }

  // ----- The theorem -----

  /** A rule that compiles to `query`: read as SQL, the fragment is an expression exactly when no group is
      empty; then its placeholders are exactly the parameters, in order, and it has on every row the value
      of the rule tree. */
  lemma CompiledQueryMeansRule(rule: PlaylistRule, query: CompiledQuery)
    requires CompileResult(rule) == Success(query)
    ensures CountMarks(query.filter) == |query.params|
    ensures ParseWhere(query.filter).Some? <==> NoEmptyGroup(Branch(rule.root))
    ensures ParseWhere(query.filter).Some? ==>
            && ParseWhere(query.filter).value.value == NodeExpr(Branch(rule.root), 0)
            && ParseWhere(query.filter).value.next == |query.params|
            && forall world: World ::
                 Eval(ParseWhere(query.filter).value.value, query.params, world, Track) ==
                 NodeTruth(Branch(rule.root), world)
  {
    var node := Branch(rule.root);
    var out := Emit(node).value;
    assert query.filter == out.tokens && query.params == out.binds;
    hide Emit, NodeExpr, OrderBy;
    assert out.tokens + [] == out.tokens;
    MarksAreBinds(node);
    WholeFragment(out.tokens);
    if NoEmptyGroup(node) {
      ParseOfNode(node, out, [], 0);
      assert query.params[0..|query.params|] == out.binds;
      forall world: World
        ensures Eval(NodeExpr(node, 0), query.params, world, Track) == NodeTruth(node, world)
      {
        NodeValue(node, 0, query.params, world);
      }
    } else {
      EmptyGroupFails(node, out, [], 0);
    }
  }

  /** The smallest such rule: a group without children compiles to an empty pair of parentheses. */
  lemma EmptyGroupIsNoSql()
    ensures var rule := PlaylistRule("", "", Group(And, false, []), [], None, true);
            && CompileResult(rule).Success?
            && CompileResult(rule).value.filter == [LParen, RParen]
            && ParseWhere([LParen, RParen]) == None
  {
    var rule := PlaylistRule("", "", Group(And, false, []), [], None, true);
    EmitBranch(rule.root);
    NoNodes([], And);
    NoOrderBy();
    assert [] + [LParen] + [] + [RParen] == [LParen, RParen];
    hide ParseWhere, NodeExpr;
    CompiledQueryMeansRule(rule, CompileResult(rule).value);
  }

  /** A fragment that is one operand parses as a whole. */
  lemma WholeFragment(ts: seq<Token>)
    ensures ParseNot(ts, 0) == None ==> ParseWhere(ts) == None
    ensures ParseNot(ts, 0).Some? && ParseNot(ts, 0).value.rest == [] ==> ParseWhere(ts) == ParseNot(ts, 0)
  {
    hide ParseNot;
    if ParseNot(ts, 0).Some? && ParseNot(ts, 0).value.rest == [] {
      var p := ParseNot(ts, 0).value;
      assert ParseAndList(ts, 0) == Some(Parsed([p.value], [], p.next));
      assert ParseOrList(ts, 0) == Some(Parsed([p.value], [], p.next));
    }
  }

  // ----- Placeholders and parameters -----

  lemma {:induction false} CountOfConcat(a: seq<Token>, b: seq<Token>)
    ensures CountMarks(a + b) == CountMarks(a) + CountMarks(b)
  {
    if a == [] {
      assert a + b == b;
    } else {
      CountOfConcat(a[1..], b);
      assert (a + b)[1..] == a[1..] + b;
    }
  }

  lemma CountOfThree(a: seq<Token>, b: seq<Token>, c: seq<Token>)
    ensures CountMarks(a + b + c) == CountMarks(a) + CountMarks(b) + CountMarks(c)
  {
    CountOfConcat(a + b, c);
    CountOfConcat(a, b);
  }

  lemma CountOfOne(t: Token)
    ensures CountMarks([t]) == if t == Mark then 1 else 0
    ensures CountMarks([]) == 0
  {
    assert [t][1..] == [];
  }

  lemma {:induction false} CountOfMarks(n: nat)
    ensures CountMarks(Marks(n)) == n
  {
    if n == 1 {
      CountOfOne(Mark);
    } else if n > 1 {
      CountOfMarks(n - 1);
      var ts := Marks(n);
      assert ts[1..] == [Comma] + Marks(n - 1) && ts[1..][1..] == Marks(n - 1);
    }
  }

  lemma CountOfTail(op: FieldOp, values: nat)
    ensures CountMarks(Tail(op, values)) == Arity(op, values)
  {
    var ts := Tail(op, values);
    if op == In {
      CountOfMarks(values);
      CountOfThree([InT, LParen], Marks(values), [RParen]);
      CountOfOne(RParen);
      CountOfConcat([InT], [LParen]);
      CountOfOne(InT); CountOfOne(LParen);
      assert [InT] + [LParen] == [InT, LParen];
    } else {
      CountOfFew(ts);
    }
  }

  /** The count of a short token list, spelled out. */
  lemma CountOfFew(ts: seq<Token>)
    requires 1 <= |ts| <= 4
    ensures CountMarks(ts) ==
            (if ts[0] == Mark then 1 else 0) + (if |ts| > 1 && ts[1] == Mark then 1 else 0) +
            (if |ts| > 2 && ts[2] == Mark then 1 else 0) + (if |ts| > 3 && ts[3] == Mark then 1 else 0)
    decreases ts
  {
    assert CountMarks(ts) == (if ts[0] == Mark then 1 else 0) + CountMarks(ts[1..]);
    if |ts| > 1 { CountOfFew(ts[1..]); } else { CountOfOne(Mark); assert ts[1..] == []; }
  }

  lemma CountOfComparison(c: Comparison)
    requires Operands(c).Success?
    ensures CountMarks(TokensOf(c)) == |Operands(c).value|
  {
    OperandCount(c);
    if IsCustom(c.field) { CustomCount(c); }
    hide Operands, Tail, CustomTokens, TableColumn, NoCase, IsCustom;
    if IsCustom(c.field) { CountOfCustom(c); } else { CountOfBuiltin(c); }
    var bare := BareTokens(c);
    if c.negated {
      CountOfThree([NotT, LParen], bare, [RParen]);
      CountOfFew([NotT, LParen]);
      CountOfOne(RParen);
    }
  }

  lemma CountOfBuiltin(c: Comparison)
    requires !IsCustom(c.field)
    ensures CountMarks(BareTokens(c)) == Arity(c.op, |c.values|)
  {
    hide Tail, TableColumn, NoCase;
    CountOfThree([ColumnT(TableColumn(c))], Tail(c.op, |c.values|), CollateTokens(NoCase(c)));
    CountOfTail(c.op, |c.values|);
    CountOfOne(ColumnT(TableColumn(c)));
    CountOfOne(CollateT);
  }

  lemma CountOfCustom(c: Comparison)
    requires IsCustom(c.field)
    ensures CountMarks(BareTokens(c)) == 1 + Arity(TagOp(c.op), 1)
  {
    hide Tail, TRACK_LINK, KEY_TEST, CustomTest, CountMarks;
    var head := [ExistsT, LParen, SelectTagT] + TRACK_LINK + [AndT] + KEY_TEST + [AndT];
    HeadMark();
    CustomTestMarks(c.op);
    CountOfThree(head, CustomTest(c.op), [RParen]);
    CountOfOne(RParen);
    CountOfOne(NotT);
    if c.op == Ne { CountOfConcat([NotT], head + CustomTest(c.op) + [RParen]); }
  }

  lemma HeadMark()
    ensures CountMarks([ExistsT, LParen, SelectTagT] + TRACK_LINK + [AndT] + KEY_TEST + [AndT]) == 1
  {
    CountOfThree([ExistsT, LParen, SelectTagT], TRACK_LINK, [AndT]);
    CountOfThree([ExistsT, LParen, SelectTagT] + TRACK_LINK + [AndT], KEY_TEST, [AndT]);
    CountOfFew([ExistsT, LParen, SelectTagT]); CountOfFew(TRACK_LINK); CountOfFew(KEY_TEST); CountOfOne(AndT);
    hide CountMarks;
  }

  lemma CustomTestMarks(op: FieldOp)
    ensures CountMarks(CustomTest(op)) == Arity(TagOp(op), 1)
  {
    hide Tail;
    CountOfConcat([ColumnT("ct.value")], Tail(TagOp(op), 1));
    CountOfTail(TagOp(op), 1);
    CountOfOne(ColumnT("ct.value"));
  }

  /** Whatever compiles, empty groups included, writes one placeholder for each value it binds. */
  lemma {:induction false} MarksAreBinds(node: Node)
    requires Emit(node).Success?
    ensures CountMarks(Emit(node).value.tokens) == |Emit(node).value.binds|
    decreases node, 1
  {
    match node {
      case Leaf(c) =>
        CountOfComparison(c);
        hide TokensOf, Operands;
      case Branch(group) =>
        EmitBranch(group);
        hide Emit, EmitNodes;
        ListMarksAreBinds(group.children, group.op);
        var body := EmitNodes(group.children, group.op).value.tokens;
        var negation: seq<Token> := if group.negated then [NotT] else [];
        CountOfThree(negation, [LParen], body);
        CountOfConcat(negation + [LParen] + body, [RParen]);
        CountOfOne(NotT); CountOfOne(LParen); CountOfOne(RParen);
    }
  }

  lemma {:induction false} ListMarksAreBinds(nodes: seq<Node>, op: Conjunction)
    requires EmitNodes(nodes, op).Success?
    ensures CountMarks(EmitNodes(nodes, op).value.tokens) == |EmitNodes(nodes, op).value.binds|
    decreases nodes, 0
  {
    hide Emit, EmitNodes;
    if nodes == [] {
      NoNodes(nodes, op);
    } else if |nodes| == 1 {
      LastNode(nodes, op);
      MarksAreBinds(nodes[0]);
    } else {
      OutputStep(nodes, op);
      MarksAreBinds(nodes[0]);
      ListMarksAreBinds(nodes[1..], op);
      CountOfThree(Emit(nodes[0]).value.tokens, [ConjunctionToken(op)], EmitNodes(nodes[1..], op).value.tokens);
      CountOfOne(ConjunctionToken(op));
    }
  }
}

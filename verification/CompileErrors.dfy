/**
 Which error compile reports (desktop/src/library/smart_playlist.cpp: compile, push_bind): that of the first
 comparison in tree order that fails, then that of the first order term without a column.  The reason for a
 malformed duration is the one that is lost on the way.
 */
module CompileErrors {
  import opened Wrappers
  import opened Rules
  import opened Compilation

  // ----- Comparisons in tree order -----

  function Leaves(node: Node): seq<Comparison>
    decreases node, 1
  {
    match node case Leaf(c) => [c] case Branch(group) => LeavesOf(group.children)
  }

  function LeavesOf(nodes: seq<Node>): seq<Comparison>
    decreases nodes, 0
  {
    if nodes == [] then [] else Leaves(nodes[0]) + LeavesOf(nodes[1..])
  }

  function FirstError(leaves: seq<Comparison>): Option<CompileError> {
    if leaves == [] then None
    else match Operands(leaves[0]) case Failure(e) => Some(e) case Success(_) => FirstError(leaves[1..])
  }

  /** The k-th comparison fails, and no earlier one does. */
  ghost predicate FailsFirst(leaves: seq<Comparison>, k: nat, e: CompileError) {
    && k < |leaves| && Operands(leaves[k]) == Failure(e)
    && forall j | 0 <= j < k :: Operands(leaves[j]).Success?
  }

  lemma {:induction false} FirstErrorMeaning(leaves: seq<Comparison>, e: CompileError)
    ensures FirstError(leaves) == Some(e) <==> exists k: nat :: FailsFirst(leaves, k, e)
    ensures FirstError(leaves) == None <==> forall k | 0 <= k < |leaves| :: Operands(leaves[k]).Success?
    decreases leaves
  {
    hide Operands;
    if leaves != [] {
      var rest := leaves[1..];
      FirstErrorMeaning(rest, e);
      if Operands(leaves[0]) == Failure(e) {
        assert FailsFirst(leaves, 0, e);
      }
      if k: nat :| FailsFirst(rest, k, e) && Operands(leaves[0]).Success? {
        FailsLater(leaves, k, e);
      }
      if k: nat :| FailsFirst(leaves, k, e) && k > 0 {
        FailsEarlier(leaves, k, e);
      }
      assert forall k | 0 <= k < |rest| :: rest[k] == leaves[k + 1];
    }
  }

  lemma FailsLater(leaves: seq<Comparison>, k: nat, e: CompileError)
    requires leaves != [] && FailsFirst(leaves[1..], k, e) && Operands(leaves[0]).Success?
    ensures FailsFirst(leaves, k + 1, e)
  {
    hide Operands;
    forall j | 0 <= j < k + 1 ensures Operands(leaves[j]).Success? {
      if j > 0 { assert leaves[j] == leaves[1..][j - 1]; }
    }
  }

  lemma FailsEarlier(leaves: seq<Comparison>, k: nat, e: CompileError)
    requires k > 0 && FailsFirst(leaves, k, e)
    ensures FailsFirst(leaves[1..], k - 1, e)
  {
    hide Operands;
    forall j | 0 <= j < k - 1 ensures Operands(leaves[1..][j]).Success? {
      assert leaves[1..][j] == leaves[j + 1];
    }
  }

  lemma {:induction false} FirstErrorOfConcat(a: seq<Comparison>, b: seq<Comparison>)
    ensures FirstError(a + b) == if FirstError(a).Some? then FirstError(a) else FirstError(b)
  {
    hide Operands;
    if a == [] {
      assert a + b == b;
    } else {
      assert (a + b)[0] == a[0] && (a + b)[1..] == a[1..] + b;
      FirstErrorOfConcat(a[1..], b);
    }
  }

  // ----- The error of a tree -----

  function ErrorOf<T>(r: Result<T, CompileError>): Option<CompileError> {
    match r case Failure(e) => Some(e) case Success(_) => None
  }

  lemma {:induction false} EmitError(node: Node)
    ensures ErrorOf(Emit(node)) == FirstError(Leaves(node))
    decreases node, 1
  {
    match node {
      case Leaf(c) =>
        hide Operands, TokensOf;
        assert [c][1..] == [] && FirstError([]) == None;
      case Branch(group) =>
        EmitNodesError(group.children, group.op);
        hide EmitNodes, FirstError;
    }
  }

  lemma {:induction false} EmitNodesError(nodes: seq<Node>, op: Conjunction)
    ensures ErrorOf(EmitNodes(nodes, op)) == FirstError(LeavesOf(nodes))
    decreases nodes, 0
  {
    if nodes != [] {
      EmitError(nodes[0]);
      EmitNodesError(nodes[1..], op);
      FirstErrorOfConcat(Leaves(nodes[0]), LeavesOf(nodes[1..]));
      hide Emit, FirstError, Leaves;
    }
  }

  /** Compiling a tree fails with the error of the first comparison that fails, and only then. */
  lemma TreeErrorIsFirst(node: Node, e: CompileError)
    ensures Emit(node) == Failure(e) <==> exists k: nat :: FailsFirst(Leaves(node), k, e)
    ensures Emit(node).Success? <==> forall k | 0 <= k < |Leaves(node)| :: Operands(Leaves(node)[k]).Success?
  {
    EmitError(node);
    FirstErrorMeaning(Leaves(node), e);
    hide Emit, Leaves, FirstError, Operands;
  }

  // ----- Malformed durations -----

  /** The operands an operator binds one by one. */
  function BoundOperands(c: Comparison): seq<Operand> {
    match c.op
    case Between => [c.from, c.to]
    case In => c.values
    case _ =>
      if c.op == IsNull || c.op == IsNotNull || c.op == Glob || IsLike(c.op) then [] else [c.value]
  }

  /** A digit, or one of the units s, m and h. */
  predicate IsDurationChar(c: char) {
    48 <= c as int <= 57 || c == 's' || c == 'm' || c == 'h'
  }

  /** A text that, a minus in front apart, holds a character that is neither a digit nor a unit. */
  predicate IsMalformed(o: Operand) {
    o.Text? && exists i | 0 <= i < |o.text| :: !IsDurationChar(o.text[i]) && !(i == 0 && o.text[0] == '-')
  }

  predicate MalformedDuration(c: Comparison) {
    c.field == "duration" && exists k :: 0 <= k < |BoundOperands(c)| && IsMalformed(BoundOperands(c)[k])
  }

  lemma BindFails(o: Operand, field: string)
    ensures BindOf(o, field).Failure? <==> field == "duration" && IsMalformed(o)
    ensures BindOf(o, field).Failure? ==> BindOf(o, field) == Failure(BadDuration)
  {
    if o.Text? {
      var s := AfterSign(o.text);
      var signs := |o.text| - |s|;
      DurationRefused(s, 0, 0, false);
      assert forall i | 0 <= i < |s| :: s[i] == o.text[signs + i];
      assert forall i | signs <= i < |o.text| :: o.text[i] == s[i - signs];
      assert forall c: char :: IsDurationChar(c) <==> IsDigitChar(c) || IsUnit(c);
      assert !IsDurationChar('-');
    }
    hide ScanDuration;
  }

  lemma {:induction false} BindAllFails(operands: seq<Operand>, field: string)
    ensures BindAll(operands, field).Failure? <==>
            field == "duration" && exists k :: 0 <= k < |operands| && IsMalformed(operands[k])
    ensures BindAll(operands, field).Failure? ==> BindAll(operands, field) == Failure(BadDuration)
    decreases operands
  {
    if operands != [] {
      var rest := operands[1..];
      BindFails(operands[0], field);
      BindAllFails(rest, field);
      hide BindOf, IsMalformed;
      assert forall k | 0 <= k < |rest| :: rest[k] == operands[k + 1];
      if k :| 0 < k < |operands| && IsMalformed(operands[k]) { assert rest[k - 1] == operands[k]; }
    }
  }

  /** A comparison fails for a malformed duration exactly when it binds one; the unknown error is never its own. */
  lemma ComparisonFails(c: Comparison)
    ensures Operands(c) == Failure(BadDuration) <==> MalformedDuration(c)
    ensures Operands(c) != Failure(UnknownError)
  {
    DurationIsColumn(c);
    BindAllFails(BoundOperands(c), c.field);
    hide BindAll, IsMalformed, PatternFor, Columns, StringFields, IsCustom;
  }

  lemma DurationIsColumn(c: Comparison)
    ensures c.field == "duration" ==> !IsCustom(c.field) && ColumnFor(c.field).Some? && !IsStringField(c.field)
  {
    assert CUSTOM[0] == 'c' && "duration"[0] == 'd';
    assert "duration" in Columns();
  }

  lemma {:induction false} OrderErrors(terms: seq<OrderTerm>)
    ensures OrderBy(terms) != Failure(UnknownError) && OrderBy(terms) != Failure(BadDuration)
  {
    hide Columns;
    if terms != [] { OrderErrors(terms[..|terms| - 1]); }
  }

  // ----- The theorem -----

  /** The k-th comparison binds a malformed duration, and no earlier one fails. */
  ghost predicate MalformedFirst(leaves: seq<Comparison>, k: nat) {
    && k < |leaves| && MalformedDuration(leaves[k])
    && forall j | 0 <= j < k :: Operands(leaves[j]).Success?
  }

  /** compile reports an error without a reason exactly when a malformed duration is the first thing wrong in the
      rule. */
  lemma ReasonLostExactly(rule: PlaylistRule)
    ensures CompileResult(rule) == Failure(UnknownError) <==>
            exists k: nat :: MalformedFirst(Leaves(Branch(rule.root)), k)
  {
    var node := Branch(rule.root);
    var leaves := Leaves(node);
    TreeErrorIsFirst(node, BadDuration);
    TreeErrorIsFirst(node, UnknownError);
    OrderErrors(rule.orderBy);
    forall k: nat | k < |leaves|
      ensures Operands(leaves[k]) == Failure(BadDuration) <==> MalformedDuration(leaves[k])
      ensures Operands(leaves[k]) != Failure(UnknownError)
    {
      ComparisonFails(leaves[k]);
    }
    hide Operands, MalformedDuration, Emit, OrderBy, Leaves;
    assert forall k: nat :: FailsFirst(leaves, k, BadDuration) <==> MalformedFirst(leaves, k);
    assert forall k: nat :: !FailsFirst(leaves, k, UnknownError);
    if Emit(node).Failure? { TreeErrorIsFirst(node, Emit(node).error); }
  }

  /** The smallest such rule: duration > "3x". */
  lemma MalformedDurationIsUnknown()
    ensures var c := Comparison("duration", Gt, false, false, Text("3x"), NO_OPERAND, NO_OPERAND, []);
            var rule := PlaylistRule("", "", Group(And, false, [Leaf(c)]), [], None, true);
            && Operands(c) == Failure(BadDuration)
            && CompileResult(rule) == Failure(UnknownError)
  {
    var c := Comparison("duration", Gt, false, false, Text("3x"), NO_OPERAND, NO_OPERAND, []);
    var rule := PlaylistRule("", "", Group(And, false, [Leaf(c)]), [], None, true);
    assert AfterSign("3x")[1] == 'x';
    assert IsMalformed(BoundOperands(c)[0]);
    ComparisonFails(c);
    var nodes := [Leaf(c)];
    assert nodes[1..] == [] && LeavesOf([]) == [];
    assert LeavesOf(nodes) == [c];
    hide Operands, IsMalformed, CompileResult;
    assert MalformedFirst(Leaves(Branch(rule.root)), 0);
    ReasonLostExactly(rule);
  }

  // ----- Which error a comparison gives -----

  predicate HasTagPrefix(field: string) {
    |field| >= 7 && field[..7] == "custom:"
  }

  predicate TestsText(op: FieldOp) {
    op == Contains || op == NotContains || op == StartsWith || op == EndsWith
  }

  /** A field of the user's own: the operators it has no meaning for, and values that are no text. */
  predicate TagRefused(c: Comparison, e: CompileError) {
    if c.op in {Gt, Lt, Gte, Lte, Between, In, IsNull, IsNotNull} then e == CustomOperator(c.op)
    else !c.value.Text? && e == CustomNeedsText
  }

  /** A field of the format: an empty list, no text where text is tested, text tested on a number, a malformed
      duration. */
  ghost predicate FieldRefused(c: Comparison, e: CompileError) {
    if TestsText(c.op) then
      if !IsStringField(c.field) then e == NotTextField(c.op) else !c.value.Text? && e == NeedsText
    else if c.op == Glob then !c.value.Text? && e == GlobNeedsText
    else if c.op == In && c.values == [] then e == EmptyIn
    else MalformedDuration(c) && e == BadDuration
  }

  lemma TagError(c: Comparison, e: CompileError)
    requires IsCustom(c.field)
    ensures Operands(c) == Failure(e) <==> TagRefused(c, e)
  {
    hide PatternFor, IsCustom;
  }

  lemma FieldError(c: Comparison, e: CompileError)
    requires !IsCustom(c.field) && ColumnFor(c.field).Some?
    ensures Operands(c) == Failure(e) <==> FieldRefused(c, e)
  {
    DurationIsColumn(c);
    BindAllFails(BoundOperands(c), c.field);
    hide BindAll, IsMalformed, PatternFor, Columns, StringFields, IsCustom, ColumnFor;
  }

  lemma TagPrefix(field: string)
    ensures IsCustom(field) <==> HasTagPrefix(field)
  {
    if |field| >= 7 { assert field[..7] == CUSTOM <==> CUSTOM <= field; }
  }

  lemma NoColumn(c: Comparison)
    requires !IsCustom(c.field) && ColumnFor(c.field) == None
    ensures Operands(c) == Failure(NotAColumn(c.field))
  {
    hide BuiltinOperands, IsCustom, ColumnFor;
  }

  /** The error a comparison gives, and when it gives none. */
  lemma ComparisonError(c: Comparison, e: CompileError)
    ensures Operands(c) == Failure(e) <==>
            if HasTagPrefix(c.field) then TagRefused(c, e)
            else if ColumnFor(c.field) == None then e == NotAColumn(c.field)
            else FieldRefused(c, e)
  {
    hide *;
    TagPrefix(c.field);
    if IsCustom(c.field) {
      TagError(c, e);
    } else if ColumnFor(c.field) == None {
      NoColumn(c);
    } else {
      FieldError(c, e);
    }
  }

  // ----- The rest of the query -----

  /** The key of an order term: random, or the column of its field. */
  predicate SortsBy(t: OrderTerm, item: OrderItem) {
    && item.direction == t.direction
    && if t.field == "random" then item.key == Random
       else ColumnFor(t.field).Some? && item.key == OrderColumn("t." + ColumnFor(t.field).value)
  }

  predicate IsSortable(t: OrderTerm) {
    t.field == "random" || ColumnFor(t.field).Some?
  }

  lemma RandomIsNoColumn()
    ensures ColumnFor("random") == None
  {
  }

  /** The terms sort in their own order and directions; the first one without a column is the error. */
  lemma {:induction false} OrderMeaning(terms: seq<OrderTerm>)
    ensures OrderBy(terms).Success? <==> forall i | 0 <= i < |terms| :: IsSortable(terms[i])
    ensures OrderBy(terms).Success? ==>
            && |OrderBy(terms).value| == |terms|
            && forall i | 0 <= i < |terms| :: SortsBy(terms[i], OrderBy(terms).value[i])
    ensures OrderBy(terms).Failure? ==> exists k | 0 <= k < |terms| ::
              && OrderBy(terms) == Failure(UnknownOrderField(terms[k].field)) && !IsSortable(terms[k])
              && forall i | 0 <= i < k :: IsSortable(terms[i])
    decreases |terms|
  {
    hide Columns;
    if terms != [] {
      var front, last := terms[..|terms| - 1], terms[|terms| - 1];
      OrderMeaning(front);
      if OrderBy(front).Success? && !IsSortable(last) { assert terms[|terms| - 1] == last; }
    }
  }

  /** A query sorts as its rule says, by the row number when it says nothing, and has its limit; it exists exactly
      when no comparison has an error and every order term has a key. */
  lemma QueryMeaning(rule: PlaylistRule)
    ensures CompileResult(rule).Success? <==>
            && (forall k | 0 <= k < |Leaves(Branch(rule.root))| :: Operands(Leaves(Branch(rule.root))[k]).Success?)
            && (forall i | 0 <= i < |rule.orderBy| :: IsSortable(rule.orderBy[i]))
    ensures CompileResult(rule).Success? ==>
            var query := CompileResult(rule).value;
            && query.limit == rule.limit
            && (rule.orderBy == [] ==> query.orderBy == [OrderItem(OrderColumn("t.id"), Asc)])
            && (rule.orderBy != [] ==> |query.orderBy| == |rule.orderBy|)
            && forall i | 0 <= i < |rule.orderBy| && i < |query.orderBy| :: SortsBy(rule.orderBy[i], query.orderBy[i])
  {
    OrderMeaning(rule.orderBy);
    TreeErrorIsFirst(Branch(rule.root), UnknownError);
    hide Emit, OrderBy, Leaves, Operands, IsSortable, SortsBy;
  }
}

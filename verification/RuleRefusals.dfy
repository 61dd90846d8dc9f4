/**
 Why parse_rule_json refuses a document (desktop/src/library/smart_playlist.cpp): each error is reported for exactly
 the documents that have its fault and none of those that are looked for earlier.
 */
module RuleRefusals {
  import opened Wrappers
  import opened Rules
  import opened Doubles
  import opened JsonValues
  import opened RuleJson
  import opened RuleSchema

  predicate HasText(v: Json, key: string) {
    v.Obj? && key in v.members && v.members[key].Str?
  }

  /** The key is there and none of the keys before it in the list. */
  predicate ComesFirst(v: Json, keys: seq<string>, key: string) {
    v.Obj? && exists k | 0 <= k < |keys| :: IsFirst(v, keys, key, k)
  }

  predicate IsFirst(v: Json, keys: seq<string>, key: string, k: nat)
    requires v.Obj? && k < |keys|
  {
    keys[k] == key && key in v.members && forall j | 0 <= j < k :: keys[j] !in v.members
  }

  // ----- Comparisons -----

  predicate HasKnownField(v: Json) {
    HasText(v, "field") && IsField(v.members["field"].s)
  }

  predicate FieldFault(v: Json, e: RuleError) {
    match e
    case NoField => !HasText(v, "field")
    case BadCustomName => HasText(v, "field") && HasTagPrefix(v.members["field"].s)
    case UnknownField(f) => Holds(v, "field", Str(f)) && !HasTagPrefix(f)
    case _ => false
  }

  predicate OperatorFault(v: Json, e: RuleError) {
    match e
    case NoOperator => !HasText(v, "operator")
    case UnknownOperator(name) => Holds(v, "operator", Str(name))
    case _ => false
  }

  ghost predicate OperandFault(v: Json, op: FieldOp, e: RuleError) {
    match e
    case TakesNoOperand => (op == IsNull || op == IsNotNull) && !Lacks(v, {"value", "values", "from", "to"})
    case BetweenTakesNoValue => op == Between && !Lacks(v, {"value", "values"})
    case BetweenNeedsBoth => op == Between && Lacks(v, {"value", "values"}) && !HasBoth(v, "from", "to")
    case InTakesOnlyValues(key) => op == In && ComesFirst(v, ["value", "from", "to"], key)
    case InNeedsValues =>
      && op == In && Lacks(v, {"value", "from", "to"})
      && !(exists items :: Holds(v, "values", Arr(items)) && items != [])
    case InTooLong =>
      op == In && Lacks(v, {"value", "from", "to"}) && exists items :: Holds(v, "values", Arr(items)) && |items| > 256
    case TakesOneValue(key) => TakesValue(op) && ComesFirst(v, ["values", "from", "to"], key)
    case NeedsValue => TakesValue(op) && Lacks(v, {"values", "from", "to", "value"})
    case _ => false
  }

  predicate HasBoth(v: Json, a: string, b: string) {
    v.Obj? && a in v.members && b in v.members
  }

  predicate TakesValue(op: FieldOp) {
    op != IsNull && op != IsNotNull && op != Between && op != In
  }

  /** The faults in the order in which they are looked for: field, operator, operands. */
  ghost predicate ComparisonFault(v: Json, e: RuleError) {
    if !v.Obj? then e == ComparisonNotObject
    else if !HasKnownField(v) then FieldFault(v, e)
    else if forall op: FieldOp :: !Holds(v, "operator", Str(Spelled(op))) then OperatorFault(v, e)
    else exists op: FieldOp :: Holds(v, "operator", Str(Spelled(op))) && OperandFault(v, op, e)
  }

  lemma {:induction false} FirstKeyMeaning(v: Json, keys: seq<string>, key: string)
    requires v.Obj?
    ensures FirstKey(v, keys) == Some(key) <==> ComesFirst(v, keys, key)
    decreases |keys|
  {
    if keys != [] {
      var rest := keys[1..];
      FirstKeyMeaning(v, rest, key);
      if keys[0] in v.members {
        assert IsFirst(v, keys, keys[0], 0);
        forall k | 0 <= k < |keys| && IsFirst(v, keys, key, k) ensures k == 0 {
        }
      } else {
        if k: nat :| k < |rest| && IsFirst(v, rest, key, k) {
          assert forall j | 0 < j < k + 1 :: keys[j] == rest[j - 1];
          assert IsFirst(v, keys, key, k + 1);
        }
        if k: nat :| k < |keys| && IsFirst(v, keys, key, k) {
          assert forall j | 0 <= j < k - 1 :: rest[j] == keys[j + 1];
          assert IsFirst(v, rest, key, k - 1);
        }
      }
    }
  }

  lemma FieldRefused(v: Json, e: RuleError)
    requires v.Obj?
    ensures ReadField(v) == Failure(e) <==> !HasKnownField(v) && FieldFault(v, e)
    ensures ReadField(v).Success? <==> HasKnownField(v)
  {
    if HasText(v, "field") { FieldMeaning(v.members["field"].s); }
    hide IsTagName, IsBuiltin, HasTagPrefix, IsCustom, IsCustomName, BuiltinFields, IsField;
  }

  lemma OperatorRefused(v: Json, e: RuleError)
    requires v.Obj?
    ensures ReadOperator(v).Failure? <==> forall op: FieldOp :: !Holds(v, "operator", Str(Spelled(op)))
    ensures ReadOperator(v) == Failure(e) <==> ReadOperator(v).Failure? && OperatorFault(v, e)
  {
    forall op: FieldOp ensures ReadOperator(v) == Success(op) <==> Holds(v, "operator", Str(Spelled(op))) {
      OperatorRead(v, op);
    }
    hide OperatorNamed, Spelled;
  }

  lemma NoOperandRefused(v: Json, bare: Comparison, e: RuleError)
    requires v.Obj? && (bare.op == IsNull || bare.op == IsNotNull || bare.op == Between)
    ensures ReadOperands(v, bare) == Failure(e) <==> OperandFault(v, bare.op, e)
  {
    KeysMeaning(v);
    hide FirstKey, Lacks, ComesFirst, OperandFrom;
  }

  lemma ListValues(v: Json)
    requires v.Obj?
    ensures var list := "values" in v.members && v.members["values"].Arr?;
      && ((exists items :: Holds(v, "values", Arr(items)) && items != []) <==> list && v.members["values"].items != [])
      && ((exists items :: Holds(v, "values", Arr(items)) && |items| > 256) <==>
            list && |v.members["values"].items| > 256)
  {
    if "values" in v.members && v.members["values"].Arr? {
      assert Holds(v, "values", Arr(v.members["values"].items));
    }
  }

  /** The `in` case of parse_comparison's switch. */
  lemma ListRead(v: Json, bare: Comparison)
    requires v.Obj? && bare.op == In
    ensures var key, list := FirstKey(v, ["value", "from", "to"]), "values" in v.members && v.members["values"].Arr?;
      && (key.Some? ==> ReadOperands(v, bare) == Failure(InTakesOnlyValues(key.value)))
      && (key.None? && (!list || v.members["values"].items == []) ==> ReadOperands(v, bare) == Failure(InNeedsValues))
      && (key.None? && list && |v.members["values"].items| > 256 ==> ReadOperands(v, bare) == Failure(InTooLong))
      && (key.None? && list && 0 < |v.members["values"].items| <= 256 ==> ReadOperands(v, bare).Success?)
  {
    hide FirstKey, OperandFrom;
  }

  lemma ListRefused(v: Json, bare: Comparison, e: RuleError)
    requires v.Obj? && bare.op == In
    ensures ReadOperands(v, bare) == Failure(e) <==> OperandFault(v, bare.op, e)
  {
    hide FirstKey, Lacks, ComesFirst, ReadOperands, Holds;
    KeysMeaning(v);
    ListValues(v);
    ListRead(v, bare);
    if e.InTakesOnlyValues? { FirstKeyMeaning(v, ["value", "from", "to"], e.key); }
  }

  lemma ValueRefused(v: Json, bare: Comparison, e: RuleError)
    requires v.Obj? && TakesValue(bare.op)
    ensures ReadOperands(v, bare) == Failure(e) <==> OperandFault(v, bare.op, e)
  {
    KeysMeaning(v);
    KeyPairs(v);
    if e.TakesOneValue? { FirstKeyMeaning(v, ["values", "from", "to"], e.key); }
    hide FirstKey, Lacks, ComesFirst, OperandFrom;
  }

  lemma OperandsRefused(v: Json, bare: Comparison, e: RuleError)
    requires v.Obj?
    ensures ReadOperands(v, bare) == Failure(e) <==> OperandFault(v, bare.op, e)
  {
    hide ReadOperands, OperandFault;
    if bare.op == In {
      ListRefused(v, bare, e);
    } else if TakesValue(bare.op) {
      ValueRefused(v, bare, e);
    } else {
      NoOperandRefused(v, bare, e);
    }
  }

  lemma KeyPairs(v: Json)
    requires v.Obj?
    ensures forall items :: Holds(v, "values", Arr(items)) ==> items == v.members["values"].items
    ensures Lacks(v, {"values", "from", "to", "value"}) <==> Lacks(v, {"values", "from", "to"}) && "value" !in v.members
  {
  }

  /** A comparison is refused with exactly the first fault that is looked for. */
  lemma ComparisonRefused(v: Json, e: RuleError)
    ensures ReadComparison(v) == Failure(e) <==> ComparisonFault(v, e)
  {
    hide ReadField, ReadOperator, ReadOperands, ReadFlag, HasKnownField, FieldFault, OperatorFault, OperandFault;
    hide Spelled;
    if v.Obj? {
      FieldRefused(v, e);
      OperatorRefused(v, e);
      forall op: FieldOp ensures ReadOperator(v) == Success(op) <==> Holds(v, "operator", Str(Spelled(op))) {
        OperatorRead(v, op);
      }
      if ReadField(v).Success? && ReadOperator(v).Success? {
        OperandsRefused(v, Bare(ReadField(v).value, ReadOperator(v).value, ReadFlag(v, "not", false),
                                ReadFlag(v, "caseSensitive", false)), e);
      }
    }
  }

  // ----- Groups -----

  predicate IsConjunction(s: string) {
    s == "and" || s == "or"
  }

  ghost predicate GroupFault(v: Json, e: RuleError)
    decreases v, 0
  {
    if !v.Obj? then e == GroupNotObject
    else if !HasText(v, "op") then e == NoGroupOp
    else if !IsConjunction(v.members["op"].s) then e == BadGroupOp
    else if "rules" !in v.members || !v.members["rules"].Arr? then e == NoRules
    else
      var items := v.members["rules"].items;
      if |items| == 0 then e == EmptyRules
      else if |items| > 64 then e == TooManyRules
      else exists k | 0 <= k < |items| :: NodeFault(items[k], e) && forall j | 0 <= j < k :: ReadNode(items[j]).Success?
  }

  ghost predicate NodeFault(v: Json, e: RuleError)
    decreases v, 1
  {
    if v.Obj? && "rules" in v.members then GroupFault(v, e) else ComparisonFault(v, e)
  }

  lemma {:induction false} NodeRefused(v: Json, e: RuleError)
    ensures ReadNode(v) == Failure(e) <==> NodeFault(v, e)
    decreases v, 1
  {
    hide ReadGroup, ReadComparison, GroupFault, ComparisonFault;
    if v.Obj? && "rules" in v.members { GroupRefused(v, e); } else { ComparisonRefused(v, e); }
  }

  /** A group whose children are looked at. */
  predicate IsGroupOf(v: Json, items: seq<Json>) {
    && HasText(v, "op") && IsConjunction(v.members["op"].s)
    && Holds(v, "rules", Arr(items)) && 0 < |items| <= 64
  }

  lemma ChildrenDecide(v: Json, items: seq<Json>, e: RuleError)
    requires IsGroupOf(v, items)
    ensures ReadGroup(v) == Failure(e) <==> ReadNodes(items) == Failure(e)
    ensures GroupFault(v, e) <==> exists k | 0 <= k < |items| ::
              NodeFault(items[k], e) && forall j | 0 <= j < k :: ReadNode(items[j]).Success?
  {
    hide ReadNodes, ReadNode, NodeFault;
  }

  lemma ItselfFault(v: Json, e: RuleError)
    requires !v.Obj? || !HasText(v, "op") || !IsConjunction(v.members["op"].s)
    ensures ReadGroup(v) == Failure(e) <==> GroupFault(v, e)
  {
    if v.Obj? { ConjunctionRefused(v); }
    hide ReadConjunction, ReadNodes, ReadNode, NodeFault, ReadFlag;
  }

  /** parse_group, once its `op` is known. */
  lemma GroupRead(v: Json)
    requires HasText(v, "op") && ReadConjunction(v).Success?
    ensures var list := "rules" in v.members && v.members["rules"].Arr?;
      && (!list ==> ReadGroup(v) == Failure(NoRules))
      && (list && v.members["rules"].items == [] ==> ReadGroup(v) == Failure(EmptyRules))
      && (list && |v.members["rules"].items| > 64 ==> ReadGroup(v) == Failure(TooManyRules))
  {
    hide ReadConjunction, ReadNodes, ReadFlag;
  }

  predicate HasItems(v: Json) {
    v.Obj? && "rules" in v.members && v.members["rules"].Arr? && 0 < |v.members["rules"].items| <= 64
  }

  lemma ItemsFault(v: Json, e: RuleError)
    requires HasText(v, "op") && IsConjunction(v.members["op"].s) && !HasItems(v)
    ensures ReadGroup(v) == Failure(e) <==> GroupFault(v, e)
  {
    ConjunctionRefused(v);
    hide IsConjunction, ReadConjunction, ReadNode, NodeFault, ReadNodes;
    GroupRead(v);
    hide ReadGroup;
  }

  lemma OwnFault(v: Json, e: RuleError)
    requires forall items :: !IsGroupOf(v, items)
    ensures ReadGroup(v) == Failure(e) <==> GroupFault(v, e)
  {
    hide ReadGroup, GroupFault;
    if HasItems(v) { assert !IsGroupOf(v, v.members["rules"].items); }
    hide IsGroupOf;
    if HasText(v, "op") && IsConjunction(v.members["op"].s) { ItemsFault(v, e); } else { ItselfFault(v, e); }
  }

  lemma ConjunctionRefused(v: Json)
    requires v.Obj?
    ensures ReadConjunction(v).Success? <==> HasText(v, "op") && IsConjunction(v.members["op"].s)
    ensures ReadConjunction(v).Failure? ==>
            ReadConjunction(v) == Failure(if HasText(v, "op") then BadGroupOp else NoGroupOp)
  {
  }

  /** A group is refused for its own first fault or for that of the first child that has one. */
  lemma {:induction false} GroupRefused(v: Json, e: RuleError)
    ensures ReadGroup(v) == Failure(e) <==> GroupFault(v, e)
    decreases v, 0
  {
    hide ReadGroup, GroupFault, ReadNodes, ReadNode, NodeFault;
    if items :| IsGroupOf(v, items) {
      forall k | 0 <= k < |items| ensures ReadNode(items[k]) == Failure(e) <==> NodeFault(items[k], e) {
        NodeRefused(items[k], e);
      }
      FirstRefused(items, e);
      ChildrenDecide(v, items, e);
      if k: nat :| RefusedAt(items, k, e) { assert NodeFault(items[k], e); }
      if k :| 0 <= k < |items| && NodeFault(items[k], e) && forall j | 0 <= j < k :: ReadNode(items[j]).Success? {
        assert RefusedAt(items, k, e);
      }
    } else {
      OwnFault(v, e);
    }
  }

  ghost predicate RefusedAt(items: seq<Json>, k: nat, e: RuleError) {
    k < |items| && ReadNode(items[k]) == Failure(e) && forall j | 0 <= j < k :: ReadNode(items[j]).Success?
  }

  lemma {:induction false} FirstRefused(items: seq<Json>, e: RuleError)
    ensures ReadNodes(items) == Failure(e) <==> exists k :: RefusedAt(items, k, e)
    decreases |items|
  {
    hide ReadNode;
    if items != [] {
      var rest := items[1..];
      FirstRefused(rest, e);
      if ReadNode(items[0]).Failure? {
        assert ReadNode(items[0]) == Failure(e) ==> RefusedAt(items, 0, e);
        assert forall k | RefusedAt(items, k, e) :: k == 0;
      } else {
        forall k: nat ensures RefusedAt(rest, k, e) <==> RefusedAt(items, k + 1, e) {
          assert forall j | 0 <= j < k && j < |rest| :: rest[j] == items[j + 1];
          assert forall j | 0 < j < k + 1 && j < |items| :: items[j] == rest[j - 1];
        }
        if k: nat :| RefusedAt(items, k, e) {
          assert k > 0;
          assert RefusedAt(rest, k - 1, e);
        }
      }
    }
  }

  // ----- Rules -----

  predicate TermFault(v: Json, e: RuleError) {
    if !v.Obj? then e == OrderTermNotObject
    else if !HasText(v, "field") then e == OrderTermNoField
    else
      var field := v.members["field"].s;
      if field != "random" && !HasTagPrefix(field) && !IsBuiltin(field) then e == UnknownOrderField(field)
      else HasText(v, "direction") && !(v.members["direction"].s in {"asc", "desc"}) && e == BadDirection
  }

  lemma TermRefused(v: Json, e: RuleError)
    ensures ReadTerm(v) == Failure(e) <==> TermFault(v, e)
  {
    if HasText(v, "field") { FieldMeaning(v.members["field"].s); }
    hide IsBuiltin, HasTagPrefix, IsCustom, IsCustomName, BuiltinFields, IsField;
  }

  ghost predicate TermRefusedAt(items: seq<Json>, k: nat, e: RuleError) {
    k < |items| && TermFault(items[k], e) && forall j | 0 <= j < k :: ReadTerm(items[j]).Success?
  }

  ghost predicate OrderFault(doc: Json, e: RuleError)
    requires doc.Obj?
  {
    && "orderBy" in doc.members
    && var v := doc.members["orderBy"];
       if !v.Arr? || |v.items| == 0 then e == BadOrderBy
       else if |v.items| > 8 then e == OrderByTooLong
       else exists k :: TermRefusedAt(v.items, k, e)
  }

  lemma {:induction false} FirstTermRefused(items: seq<Json>, e: RuleError)
    ensures ReadTerms(items) == Failure(e) <==> exists k :: TermRefusedAt(items, k, e)
    decreases |items|
  {
    hide ReadTerm, TermFault;
    if items != [] {
      var n := |items| - 1;
      var front := items[..n];
      FirstTermRefused(front, e);
      TermsAccepted(front);
      TermRefused(items[n], e);
      forall k: nat | k < n ensures TermRefusedAt(front, k, e) <==> TermRefusedAt(items, k, e) {
      }
      forall k: nat | k < n ensures ReadTerm(front[k]) == ReadTerm(items[k]) {
      }
      if k: nat :| k < n && TermRefusedAt(items, k, e) {
        assert TermRefusedAt(front, k, e);
      }
      if ReadTerms(front).Success? {
        assert forall j | 0 <= j < n :: ReadTerm(items[j]) == ReadTerm(front[j]);
        assert ReadTerms(items) == Failure(e) <==> TermRefusedAt(items, n, e);
      }
    }
  }

  lemma OrderRefused(doc: Json, e: RuleError)
    requires doc.Obj?
    ensures ReadOrderBy(doc) == Failure(e) <==> OrderFault(doc, e)
  {
    hide ReadTerms, TermRefusedAt;
    if "orderBy" in doc.members && doc.members["orderBy"].Arr? { FirstTermRefused(doc.members["orderBy"].items, e); }
  }

  predicate LimitFault(doc: Json, e: RuleError)
    requires doc.Obj?
  {
    && "limit" in doc.members
    && var v := doc.members["limit"];
       if !v.Num? || v.n != v.n.Floor as real || v.n < -9223372036854775808.0 || v.n > 9223372036854775808.0 then
         e == LimitNotInteger
       else if v.n < 1.0 then e == LimitTooSmall
       else v.n > 100000.0 && e == LimitTooLarge
  }

  lemma LimitRefused(doc: Json, e: RuleError)
    requires doc.Obj?
    ensures ReadLimit(doc) == Failure(e) <==> LimitFault(doc, e)
  {
    if "limit" in doc.members && doc.members["limit"].Num? { WholeIs(doc.members["limit"].n); }
    hide AsInt, IsInteger;
  }

  lemma WholeIs(x: real)
    ensures IsInteger(x) <==> x == x.Floor as real && -9223372036854775808.0 <= x <= 9223372036854775808.0
    ensures IsInteger(x) ==> AsInt(x) as real == x
  {
    assert TWO_63 as real == 9223372036854775808.0;
    if x == x.Floor as real { TruncateOfInt(x.Floor); }
  }

  ghost predicate MatchFault(v: Json, e: RuleError) {
    if !v.Obj? then e == MatchNotObject else NodeFault(v, e)
  }

  lemma MatchRefused(v: Json, e: RuleError)
    ensures ReadExpression(v) == Failure(e) <==> MatchFault(v, e)
  {
    NodeRefused(v, e);
    hide ReadGroup, ReadComparison, NodeFault;
  }

  /** The faults of a document in the order in which they are looked for: version, match, order, limit. */
  ghost predicate RuleFault(doc: Json, e: RuleError) {
    if !doc.Obj? then e == RuleNotObject
    else if "schemaVersion" !in doc.members || !doc.members["schemaVersion"].Num?
            || !CutsOff(doc.members["schemaVersion"].n, 1) then
      e == BadSchemaVersion
    else if "match" !in doc.members then e == NoMatch
    else if ReadExpression(doc.members["match"]).Failure? then MatchFault(doc.members["match"], e)
    else if ReadOrderBy(doc).Failure? then OrderFault(doc, e)
    else LimitFault(doc, e)
  }

  /** A document is refused with exactly the first fault that is looked for. */
  lemma RuleRefused(doc: Json, e: RuleError)
    ensures ReadRule(doc) == Failure(e) <==> RuleFault(doc, e)
  {
    hide ReadExpression, ReadOrderBy, ReadLimit, AsInt, CutsOff, MatchFault, OrderFault, LimitFault;
    if doc.Obj? {
      if "match" in doc.members { MatchRefused(doc.members["match"], e); }
      OrderRefused(doc, e);
      LimitRefused(doc, e);
      if "schemaVersion" in doc.members && doc.members["schemaVersion"].Num? {
        CutsOffIs(doc.members["schemaVersion"].n, 1);
      }
    }
  }
}

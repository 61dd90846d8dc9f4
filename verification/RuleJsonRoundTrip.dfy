/**
 Rules and the JSON values they are written as: what dump_* builds, parse_* reads back unchanged, for exactly the
 rules parsing can return.  The text in between is added in RuleStorage.
 */
module RuleJsonRoundTrip {
  import opened Wrappers
  import opened Rules
  import opened Doubles
  import opened JsonValues
  import opened RuleJson

  // ----- What parsing can return -----

  /** An integer operand is a truncated double, so it is exactly a double itself. */
  ghost predicate CanonicalOperand(o: Operand) {
    o.Number? ==> IsExact(o.number) && -TWO_63 <= o.number <= TWO_63
  }

  /** A comparison with a known field, the operands its operator takes, and no others. */
  ghost predicate CanonicalComparison(c: Comparison) {
    && (if IsCustom(c.field) then IsCustomName(c.field) else c.field in BuiltinFields())
    && CanonicalOperand(c.value) && CanonicalOperand(c.from) && CanonicalOperand(c.to)
    && (forall i | 0 <= i < |c.values| :: CanonicalOperand(c.values[i]))
    && (c.op != Between ==> c.from == NO_OPERAND && c.to == NO_OPERAND)
    && (if c.op == In then 1 <= |c.values| <= 256 else c.values == [])
    && (c.op == Between || c.op == In || c.op == IsNull || c.op == IsNotNull ==> c.value == NO_OPERAND)
  }

  ghost predicate CanonicalNode(node: Node) {
    match node
    case Leaf(c) => CanonicalComparison(c)
    case Branch(g) => 1 <= |g.children| <= 64 && CanonicalNodes(g.children)
  }

  ghost predicate CanonicalNodes(nodes: seq<Node>) {
    nodes == [] || (CanonicalNode(nodes[0]) && CanonicalNodes(nodes[1..]))
  }

  ghost predicate CanonicalRule(rule: PlaylistRule) {
    && CanonicalNode(Branch(rule.root))
    && |rule.orderBy| <= 8
    && (forall i | 0 <= i < |rule.orderBy| :: IsOrderField(rule.orderBy[i].field))
    && (rule.limit.Some? ==> 1 <= rule.limit.value <= 100000)
  }

  ghost predicate ItemDoubles(items: seq<Json>) {
    forall i | 0 <= i < |items| :: AllDoubles(items[i])
  }

  // ----- Parsing returns canonical rules -----

  lemma ReadOperandIsCanonical(v: Json)
    requires AllDoubles(v)
    ensures CanonicalOperand(OperandFrom(v))
  {
    hide IsExact, IsDouble;
    if v.Num? { AsIntIsExact(v.n); }
  }

  lemma MemberIsDouble(v: Json, key: string)
    requires AllDoubles(v)
    ensures Has(v, key) ==> AllDoubles(v.members[key])
  {
  }

  lemma ReadOperandsIsCanonical(v: Json, bare: Comparison)
    requires AllDoubles(v) && ReadOperands(v, bare).Success?
    requires bare == Bare(bare.field, bare.op, bare.negated, bare.caseSensitive)
    requires if IsCustom(bare.field) then IsCustomName(bare.field) else bare.field in BuiltinFields()
    ensures CanonicalComparison(ReadOperands(v, bare).value)
    ensures ReadOperands(v, bare).value.op == bare.op
  {
    hide BuiltinFields, IsCustomName, IsCustom, FirstKey, OperandFrom, AllDoubles, CanonicalOperand;
    PlainOperand();
    MemberIsDouble(v, "value"); MemberIsDouble(v, "from"); MemberIsDouble(v, "to"); MemberIsDouble(v, "values");
    match bare.op {
      case IsNull => case IsNotNull =>
      case Between =>
        ReadOperandIsCanonical(v.members["from"]);
        ReadOperandIsCanonical(v.members["to"]);
      case In => ReadValuesAreCanonical(v.members["values"]);
      case _ => ReadOperandIsCanonical(v.members["value"]);
    }
  }

  lemma PlainOperand()
    ensures CanonicalOperand(NO_OPERAND)
  {
  }

  lemma ReadValuesAreCanonical(v: Json)
    requires AllDoubles(v) && v.Arr?
    ensures forall i | 0 <= i < |v.items| :: CanonicalOperand(ReadValues(v.items)[i])
  {
    hide OperandFrom, CanonicalOperand;
    forall i | 0 <= i < |v.items| ensures CanonicalOperand(ReadValues(v.items)[i]) {
      ReadOperandIsCanonical(v.items[i]);
    }
  }

  lemma ReadComparisonIsCanonical(v: Json)
    requires AllDoubles(v) && ReadComparison(v).Success?
    ensures CanonicalComparison(ReadComparison(v).value)
  {
    hide BuiltinFields, IsCustomName, OperatorNamed, ReadOperands, CanonicalComparison, AllDoubles;
    ReadOperandsIsCanonical(v, Bare(ReadField(v).value, ReadOperator(v).value,
                                    ReadFlag(v, "not", false), ReadFlag(v, "caseSensitive", false)));
  }

  lemma {:induction false} ReadNodeIsCanonical(v: Json)
    requires AllDoubles(v) && ReadNode(v).Success?
    ensures CanonicalNode(ReadNode(v).value)
    decreases v, 2
  {
    hide ReadComparison, CanonicalComparison;
    if Has(v, "rules") {
      ReadGroupIsCanonical(v);
    } else {
      ReadComparisonIsCanonical(v);
    }
  }

  lemma {:induction false} ReadNodesAreCanonical(items: seq<Json>)
    requires ItemDoubles(items) && ReadNodes(items).Success?
    ensures CanonicalNodes(ReadNodes(items).value)
    decreases items, 0
  {
    hide ReadNode, CanonicalNode, AllDoubles;
    if items != [] {
      ReadNodeIsCanonical(items[0]);
      ReadNodesAreCanonical(items[1..]);
    }
  }

  lemma {:induction false} ReadGroupIsCanonical(v: Json)
    requires AllDoubles(v) && ReadGroup(v).Success?
    ensures CanonicalNode(Branch(ReadGroup(v).value))
    decreases v, 1
  {
    hide ReadNodes, ReadConjunction, CanonicalNodes;
    MemberIsDouble(v, "rules");
    ReadNodesAreCanonical(v.members["rules"].items);
  }

  lemma {:induction false} ReadTermsAreCanonical(items: seq<Json>)
    requires ReadTerms(items).Success?
    ensures forall i | 0 <= i < |items| :: IsOrderField(ReadTerms(items).value[i].field)
  {
    hide IsOrderField, ReadDirection;
    if items != [] {
      ReadTermsAreCanonical(items[..|items| - 1]);
    }
  }

  lemma ReadExpressionIsCanonical(v: Json)
    requires AllDoubles(v) && ReadExpression(v).Success?
    ensures CanonicalNode(Branch(ReadExpression(v).value))
  {
    hide ReadGroup, ReadComparison, CanonicalComparison, AllDoubles;
    if Has(v, "rules") {
      ReadGroupIsCanonical(v);
    } else {
      ReadComparisonIsCanonical(v);
      LoneLeaf(ReadComparison(v).value);
    }
  }

  lemma LoneLeaf(c: Comparison)
    requires CanonicalComparison(c)
    ensures CanonicalNode(Branch(Group(And, false, [Leaf(c)])))
  {
    hide CanonicalComparison;
    var nodes := [Leaf(c)];
    assert CanonicalNodes(nodes[1..]);
    assert CanonicalNode(nodes[0]);
  }

  lemma ReadOrderByIsCanonical(v: Json)
    requires ReadOrderBy(v).Success?
    ensures |ReadOrderBy(v).value| <= 8
    ensures forall i | 0 <= i < |ReadOrderBy(v).value| :: IsOrderField(ReadOrderBy(v).value[i].field)
  {
    hide ReadTerms, IsOrderField;
    if Has(v, "orderBy") { ReadTermsAreCanonical(v.members["orderBy"].items); }
  }

  /** Every rule the parser returns is canonical. */
  lemma ReadRuleIsCanonical(doc: Json)
    requires AllDoubles(doc) && ReadRule(doc).Success?
    ensures CanonicalRule(ReadRule(doc).value)
  {
    MemberIsDouble(doc, "match");
    if ReadLimit(doc).Success? && ReadLimit(doc).value.Some? { ReadLimitIsCanonical(doc); }
    hide ReadExpression, ReadOrderBy, ReadLimit, CanonicalNode, AllDoubles, AsInt, IsOrderField;
    ReadExpressionIsCanonical(doc.members["match"]);
    ReadOrderByIsCanonical(doc);
  }

  lemma ReadLimitIsCanonical(v: Json)
    requires ReadLimit(v).Success? && ReadLimit(v).value.Some?
    ensures 1 <= ReadLimit(v).value.value <= 100000
  {
    hide AsInt, IsInteger;
  }

  // ----- Canonical rules are read back -----

  lemma OperandRoundTrip(o: Operand)
    requires CanonicalOperand(o)
    ensures OperandFrom(DumpOperand(o)) == o
  {
    hide IsExact, ToDouble, AsInt;
    if o.Number? { StoredInteger(o.number); }
  }

  lemma ValuesRoundTrip(values: seq<Operand>)
    requires forall i | 0 <= i < |values| :: CanonicalOperand(values[i])
    ensures ReadValues(DumpValues(values)) == values
  {
    hide CanonicalOperand, DumpOperand, OperandFrom;
    forall i | 0 <= i < |values| ensures ReadValues(DumpValues(values))[i] == values[i] {
      OperandRoundTrip(values[i]);
    }
  }

  lemma ComparisonRoundTrip(c: Comparison)
    requires CanonicalComparison(c)
    ensures ReadComparison(DumpComparison(c)) == Success(c)
    ensures !Has(DumpComparison(c), "rules")
  {
    var v := DumpComparison(c);
    hide BuiltinFields, IsCustomName, OperatorNamed, OperatorName, CanonicalOperand, DumpOperand, OperandFrom;
    hide DumpValues;
    DumpedMembers(c);
    OperatorNames(c.op, "");
    hide DumpComparison;
    OperandsRoundTrip(c, v);
  }

  /** The members of a written comparison. */
  lemma DumpedMembers(c: Comparison)
    ensures var v := DumpComparison(c);
      && Find(v, "field") == Some(Str(c.field)) && Find(v, "operator") == Some(Str(OperatorName(c.op)))
      && Find(v, "not") == (if c.negated then Some(Bool(true)) else None)
      && Find(v, "caseSensitive") == (if c.caseSensitive then Some(Bool(true)) else None)
      && !Has(v, "rules")
      && forall key | key in ["value", "values", "from", "to"] ::
           Find(v, key) == if key in DumpOperands(c) then Some(DumpOperands(c)[key]) else None
  {
    hide OperatorName, DumpOperand, DumpValues;
  }

  lemma OperandsRoundTrip(c: Comparison, v: Json)
    requires CanonicalComparison(c) && v.Obj?
    requires forall key | key in ["value", "values", "from", "to"] ::
               Find(v, key) == if key in DumpOperands(c) then Some(DumpOperands(c)[key]) else None
    ensures ReadOperands(v, Bare(c.field, c.op, c.negated, c.caseSensitive)) == Success(c)
  {
    hide BuiltinFields, IsCustomName, IsCustom, CanonicalOperand, DumpOperand, OperandFrom, DumpValues, ReadValues;
    KeyLists(v);
    var keys := ["value", "values", "from", "to"];
    assert keys[0] in keys && keys[1] in keys && keys[2] in keys && keys[3] in keys;
    match c.op {
      case IsNull => case IsNotNull =>
      case Between =>
        OperandRoundTrip(c.from);
        OperandRoundTrip(c.to);
      case In =>
        ValuesRoundTrip(c.values);
        assert |DumpValues(c.values)| == |c.values| by { DumpLength(c.values); }
      case _ => OperandRoundTrip(c.value);
    }
  }

  lemma DumpLength(values: seq<Operand>)
    ensures |DumpValues(values)| == |values|
  {
  }

  lemma KeyLists(v: Json)
    ensures FirstKey(v, ["value", "values", "from", "to"]).Some? <==>
            Has(v, "value") || Has(v, "values") || Has(v, "from") || Has(v, "to")
    ensures FirstKey(v, ["value", "values"]).Some? <==> Has(v, "value") || Has(v, "values")
    ensures FirstKey(v, ["value", "from", "to"]).Some? <==> Has(v, "value") || Has(v, "from") || Has(v, "to")
    ensures FirstKey(v, ["values", "from", "to"]).Some? <==> Has(v, "values") || Has(v, "from") || Has(v, "to")
  {
    FirstKeyCons(v, "to", []);
    FirstKeyCons(v, "from", ["to"]);
    FirstKeyCons(v, "values", ["from", "to"]);
    FirstKeyCons(v, "value", ["from", "to"]);
    FirstKeyCons(v, "value", ["values", "from", "to"]);
    FirstKeyCons(v, "values", []);
    FirstKeyCons(v, "value", ["values"]);
    assert ["to"] + [] == ["to"] && ["from"] + ["to"] == ["from", "to"];
    assert ["values"] + ["from", "to"] == ["values", "from", "to"];
    assert ["value"] + ["from", "to"] == ["value", "from", "to"];
    assert ["value"] + ["values", "from", "to"] == ["value", "values", "from", "to"];
    assert ["values"] + [] == ["values"] && ["value"] + ["values"] == ["value", "values"];
  }

  lemma FirstKeyCons(v: Json, key: string, keys: seq<string>)
    ensures FirstKey(v, [key] + keys).Some? <==> Has(v, key) || FirstKey(v, keys).Some?
    ensures !FirstKey(v, []).Some?
  {
    assert ([key] + keys)[1..] == keys;
  }

  lemma {:induction false} NodeRoundTrip(node: Node)
    requires CanonicalNode(node)
    ensures ReadNode(DumpNode(node)) == Success(node)
    decreases node, 1
  {
    match node {
      case Leaf(c) =>
        hide ReadComparison, DumpComparison, CanonicalComparison;
        ComparisonRoundTrip(c);
      case Branch(g) =>
        GroupRoundTrip(g);
        hide ReadGroup;
    }
  }

  lemma {:induction false} GroupRoundTrip(g: Group)
    requires CanonicalNode(Branch(g))
    ensures Has(DumpNode(Branch(g)), "rules") && ReadGroup(DumpNode(Branch(g))) == Success(g)
    decreases g, 2
  {
    hide ReadNodes, DumpNodes, CanonicalNodes;
    NodesRoundTrip(g.children);
    var v := DumpNode(Branch(g));
    assert v == GroupObject(g, DumpNodes(g.children));
    GroupMembers(g, DumpNodes(g.children));
    hide GroupObject, DumpNode;
  }

  lemma GroupMembers(g: Group, items: seq<Json>)
    ensures var v := GroupObject(g, items);
      && ReadConjunction(v) == Success(g.op)
      && Find(v, "rules") == Some(Arr(items))
      && ReadFlag(v, "not", false) == g.negated
  {
  }

  lemma {:induction false} NodesRoundTrip(nodes: seq<Node>)
    requires CanonicalNodes(nodes)
    ensures ReadNodes(DumpNodes(nodes)) == Success(nodes)
    decreases nodes, 0
  {
    if nodes != [] {
      NodeRoundTrip(nodes[0]);
      NodesRoundTrip(nodes[1..]);
      hide ReadNode, DumpNode, CanonicalNode;
      assert DumpNodes(nodes)[1..] == DumpNodes(nodes[1..]);
      assert nodes == [nodes[0]] + nodes[1..];
    }
  }

  lemma TermRoundTrip(t: OrderTerm)
    requires IsOrderField(t.field)
    ensures ReadTerm(DumpTerm(t)) == Success(t)
  {
    hide IsOrderField;
  }

  lemma {:induction false} TermsRoundTrip(terms: seq<OrderTerm>)
    requires forall i | 0 <= i < |terms| :: IsOrderField(terms[i].field)
    ensures ReadTerms(DumpTerms(terms)) == Success(terms)
  {
    hide IsOrderField, ReadTerm, DumpTerm;
    if terms != [] {
      var last := |terms| - 1;
      TermsRoundTrip(terms[..last]);
      TermRoundTrip(terms[last]);
      assert DumpTerms(terms)[..last] == DumpTerms(terms[..last]);
      assert terms == terms[..last] + [terms[last]];
    }
  }

  /** The members of a written rule. */
  lemma RuleMembers(rule: PlaylistRule)
    ensures var v := DumpRule(rule);
      && v.Obj?
      && Find(v, "schemaVersion") == Some(Num(1.0))
      && Find(v, "match") == Some(DumpNode(Branch(rule.root)))
      && Find(v, "orderBy") == (if rule.orderBy == [] then None else Some(Arr(DumpTerms(rule.orderBy))))
      && Find(v, "limit") == (if rule.limit.Some? then Some(Num(ToDouble(rule.limit.value))) else None)
  {
    hide DumpNode, DumpTerms, ToDouble;
  }

  lemma RuleTexts(rule: PlaylistRule)
    ensures var v := DumpRule(rule);
      && ReadString(v, "name") == rule.name && ReadString(v, "description") == rule.description
      && ReadFlag(v, "autoRefresh", true) == rule.autoRefresh
  {
    hide DumpNode, DumpTerms, ToDouble;
  }

  lemma SmallIntegers(n: int)
    requires 1 <= n <= 100000
    ensures IsInteger(ToDouble(n)) && AsInt(ToDouble(n)) == n
  {
    assert ToDouble(n) == n as real;
    TruncateOfInt(n);
  }

  /** A canonical rule is read back from what is written. */
  lemma CanonicalRoundTrip(rule: PlaylistRule)
    requires CanonicalRule(rule)
    ensures ReadRule(DumpRule(rule)) == Success(rule)
  {
    RuleMembers(rule);
    RuleTexts(rule);
    GroupRoundTrip(rule.root);
    TermsRoundTrip(rule.orderBy);
    TruncateOfInt(1);
    assert AsInt(1.0) == 1;
    if rule.limit.Some? { SmallIntegers(rule.limit.value); }
    DumpTermsLength(rule.orderBy);
    hide DumpRule, ReadGroup, ReadComparison, ReadTerms, DumpTerms, DumpNode, CanonicalNode, IsInteger, AsInt;
    hide ToDouble, IsOrderField;
    var v := DumpRule(rule);
    assert ReadExpression(v.members["match"]) == Success(rule.root);
    assert ReadOrderBy(v) == Success(rule.orderBy);
    assert ReadLimit(v) == Success(rule.limit);
  }

  lemma DumpTermsLength(terms: seq<OrderTerm>)
    ensures |DumpTerms(terms)| == |terms|
  {
  }

  // ----- The theorem -----

  lemma DumpOperandIsDouble(o: Operand)
    ensures AllDoubles(DumpOperand(o))
  {
    hide ToDouble, IsDouble;
    if o.Number? { ToDoubleIsDouble(o.number); }
  }

  lemma DumpComparisonIsDouble(c: Comparison)
    ensures AllDoubles(DumpComparison(c))
  {
    hide OperatorName, DumpOperand;
    DumpOperandIsDouble(c.value);
    DumpOperandIsDouble(c.from);
    DumpOperandIsDouble(c.to);
    forall i | 0 <= i < |c.values| ensures AllDoubles(DumpValues(c.values)[i]) {
      DumpOperandIsDouble(c.values[i]);
    }
    assert AllDoubles(Arr(DumpValues(c.values)));
    assert AllDoubles(Str(c.field)) && AllDoubles(Str(OperatorName(c.op))) && AllDoubles(Bool(true));
    var members := DumpComparison(c).members;
    forall key | key in members ensures AllDoubles(members[key]) {
    }
  }

  lemma {:induction false} DumpNodeIsDouble(node: Node)
    ensures AllDoubles(DumpNode(node))
    decreases node, 1
  {
    match node {
      case Leaf(c) =>
        hide DumpComparison;
        DumpComparisonIsDouble(c);
      case Branch(g) =>
        DumpNodesAreDouble(g.children);
        hide DumpNodes;
        var items := DumpNodes(g.children);
        assert AllDoubles(Arr(items)) && AllDoubles(Bool(true));
        assert AllDoubles(Str("and")) && AllDoubles(Str("or"));
    }
  }

  lemma {:induction false} DumpNodesAreDouble(nodes: seq<Node>)
    ensures ItemDoubles(DumpNodes(nodes))
    decreases nodes, 0
  {
    if nodes != [] {
      DumpNodeIsDouble(nodes[0]);
      DumpNodesAreDouble(nodes[1..]);
      hide DumpNode, AllDoubles;
    }
  }

  lemma DumpRuleIsDouble(rule: PlaylistRule)
    ensures AllDoubles(DumpRule(rule))
  {
    DumpNodeIsDouble(Branch(rule.root));
    assert AllDoubles(Num(1.0)) by { assert Pow2(0) == 1; assert IsScaled(1.0, 1, 0); }
    if rule.limit.Some? { ToDoubleIsDouble(rule.limit.value); }
    DumpTermsAreDouble(rule.orderBy);
    hide DumpNode, DumpTerms, ToDouble, IsDouble;
    var v := DumpRule(rule);
    forall key | key in v.members ensures AllDoubles(v.members[key]) {
    }
  }

  lemma DumpTermsAreDouble(terms: seq<OrderTerm>)
    ensures AllDoubles(Arr(DumpTerms(terms)))
  {
    forall i | 0 <= i < |terms| ensures AllDoubles(DumpTerms(terms)[i]) {
      var v := DumpTerm(terms[i]);
      assert AllDoubles(Str(terms[i].field)) && AllDoubles(Str("asc")) && AllDoubles(Str("desc"));
    }
  }

  /** A rule is read back unchanged exactly when it is canonical. */
  lemma SurvivesExactly(rule: PlaylistRule)
    ensures ReadRule(DumpRule(rule)) == Success(rule) <==> CanonicalRule(rule)
  {
    if CanonicalRule(rule) {
      CanonicalRoundTrip(rule);
    }
    if ReadRule(DumpRule(rule)) == Success(rule) {
      DumpRuleIsDouble(rule);
      ReadRuleIsCanonical(DumpRule(rule));
    }
  }

  /** Whatever document a rule came from, storing it and loading it again changes nothing. */
  lemma ParsedRuleSurvives(doc: Json, rule: PlaylistRule)
    requires AllDoubles(doc) && ReadRule(doc) == Success(rule)
    ensures ReadRule(DumpRule(rule)) == Success(rule)
  {
    ReadRuleIsCanonical(doc);
    CanonicalRoundTrip(rule);
  }
}

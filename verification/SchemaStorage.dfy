/**
 What is stored conforms (desktop/src/library/smart_playlist.cpp: to_json): a rule read from a document that conforms
 to shared-spec/schemas/smart-playlist.schema.json is written as a document that does.
 */
module SchemaStorage {
  import opened Wrappers
  import opened Utf8
  import opened Rules
  import opened Doubles
  import opened JsonValues
  import opened RuleJson
  import opened RuleJsonRoundTrip
  import opened RuleSchema

  // ----- Which members are written -----

  /** A member is written only where it says something: a name or description that is not empty, a flag that is not
      the default, an order and a limit that are there. */
  lemma WrittenMembers(rule: PlaylistRule)
    ensures var doc := DumpRule(rule);
      && doc.Obj? && Holds(doc, "schemaVersion", Num(1.0)) && Holds(doc, "match", DumpNode(Branch(rule.root)))
      && (if rule.name != "" then Holds(doc, "name", Str(rule.name)) else "name" !in doc.members)
      && (if rule.description != "" then Holds(doc, "description", Str(rule.description))
          else "description" !in doc.members)
      && (if rule.autoRefresh then "autoRefresh" !in doc.members else Holds(doc, "autoRefresh", Bool(false)))
      && (if rule.orderBy != [] then Holds(doc, "orderBy", Arr(DumpTerms(rule.orderBy))) else "orderBy" !in doc.members)
      && (rule.limit.None? ==> "limit" !in doc.members)
    ensures DumpRule(rule).members.Keys <=
            {"schemaVersion", "name", "description", "match", "orderBy", "limit", "autoRefresh"}
  {
    hide *;
    WrittenNames(rule);
    WrittenParts(rule);
    WrittenWords(rule);
  }

  lemma WrittenParts(rule: PlaylistRule)
    ensures var doc := DumpRule(rule);
      && doc.Obj? && Holds(doc, "schemaVersion", Num(1.0)) && Holds(doc, "match", DumpNode(Branch(rule.root)))
      && (if rule.orderBy != [] then Holds(doc, "orderBy", Arr(DumpTerms(rule.orderBy))) else "orderBy" !in doc.members)
      && (rule.limit.None? ==> "limit" !in doc.members)
  {
    hide DumpNode, DumpTerms, ToDouble;
  }

  lemma WrittenWords(rule: PlaylistRule)
    ensures var doc := DumpRule(rule);
      && doc.Obj?
      && (if rule.name != "" then Holds(doc, "name", Str(rule.name)) else "name" !in doc.members)
      && (if rule.description != "" then Holds(doc, "description", Str(rule.description))
          else "description" !in doc.members)
      && (if rule.autoRefresh then "autoRefresh" !in doc.members else Holds(doc, "autoRefresh", Bool(false)))
  {
    hide DumpNode, DumpTerms, ToDouble;
  }

  lemma WrittenNames(rule: PlaylistRule)
    ensures DumpRule(rule).Obj?
    ensures DumpRule(rule).members.Keys <=
            {"schemaVersion", "name", "description", "match", "orderBy", "limit", "autoRefresh"}
  {
    hide DumpNode, DumpTerms, ToDouble;
  }

  lemma WrittenComparison(c: Comparison)
    ensures var v := DumpComparison(c);
      && v.Obj?
      && (if c.negated then Holds(v, "not", Bool(true)) else "not" !in v.members)
      && (if c.caseSensitive then Holds(v, "caseSensitive", Bool(true)) else "caseSensitive" !in v.members)
      && v.members.Keys <= {"field", "not", "operator", "value", "from", "to", "values", "caseSensitive"}
      && ("value" in v.members ==> v.members["value"] == DumpOperand(c.value))
      && ("from" in v.members ==> v.members["from"] == DumpOperand(c.from))
      && ("to" in v.members ==> v.members["to"] == DumpOperand(c.to))
      && ("values" in v.members ==> v.members["values"] == Arr(DumpValues(c.values)))
  {
    hide DumpOperand, DumpValues, OperatorName;
  }

  lemma WrittenGroup(g: Group, items: seq<Json>)
    ensures var v := GroupObject(g, items);
      && Holds(v, "op", Str(if g.op == And then "and" else "or")) && Holds(v, "rules", Arr(items))
      && (if g.negated then Holds(v, "not", Bool(true)) else "not" !in v.members)
      && v.members.Keys <= {"op", "not", "rules"}
  {
  }

  // ----- Texts that are not too long -----

  predicate IsShortOperand(o: Operand) {
    o.Text? ==> Characters(o.text) <= 512
  }

  predicate IsShortComparison(c: Comparison) {
    && IsShortOperand(c.value) && IsShortOperand(c.from) && IsShortOperand(c.to)
    && forall i | 0 <= i < |c.values| :: IsShortOperand(c.values[i])
  }

  predicate IsShortNode(node: Node) {
    match node
    case Leaf(c) => IsShortComparison(c)
    case Branch(g) => forall i | 0 <= i < |g.children| :: IsShortNode(g.children[i])
  }

  predicate IsShortRule(rule: PlaylistRule) {
    && Characters(rule.name) <= 128 && Characters(rule.description) <= 512 && IsShortNode(Branch(rule.root))
    && forall i | 0 <= i < |rule.orderBy| && HasTagPrefix(rule.orderBy[i].field) :: IsField(rule.orderBy[i].field)
  }

  lemma NothingIsShort()
    ensures Characters("") == 0
  {
    assert BytesOf("") == [];
  }

  lemma SomethingHasCharacters(s: string)
    requires s != ""
    ensures Characters(s) >= 1
  {
    assert BytesOf(s) != [];
  }

  lemma ShortFromDocument(v: Json, c: Comparison)
    requires ReadsComparison(v, c) && TidyComparison(v)
    ensures IsShortComparison(c)
  {
    NothingIsShort();
    hide Characters, IsField, Spelled, CutsOff;
  }

  lemma {:induction false} ShortNode(v: Json, node: Node)
    requires ReadsNode(v, node) && TidyExpression(v)
    ensures IsShortNode(node)
    decreases v
  {
    hide ReadsComparison, TidyComparison, IsShortComparison;
    if v.Obj? && "rules" in v.members {
      var items := v.members["rules"].items;
      forall i | 0 <= i < |items| ensures IsShortNode(node.group.children[i]) {
        ShortNode(items[i], node.group.children[i]);
      }
    } else {
      ShortFromDocument(v, node.comparison);
    }
  }

  lemma ShortRule(doc: Json, rule: PlaylistRule)
    requires ReadsRule(doc, rule) && Tidy(doc)
    ensures IsShortRule(rule)
  {
    NothingIsShort();
    ShortMatch(doc.members["match"], rule.root);
    if "orderBy" in doc.members { ShortOrder(doc.members["orderBy"].items, rule.orderBy); }
    hide Characters, ReadsMatch, TidyExpression, TidyOrder, IsShortNode, IsField, HasTagPrefix, CutsOff, ReadsTerm;
  }

  lemma ShortMatch(v: Json, g: Group)
    requires ReadsMatch(v, g) && TidyExpression(v)
    ensures IsShortNode(Branch(g))
  {
    if "rules" in v.members { ShortNode(v, Branch(g)); } else { ShortNode(v, g.children[0]); }
    hide ReadsNode, TidyExpression;
  }

  lemma ShortOrder(items: seq<Json>, terms: seq<OrderTerm>)
    requires |items| == |terms| && forall i | 0 <= i < |items| :: ReadsTerm(items[i], terms[i]) && TidyTerm(items[i])
    ensures forall i | 0 <= i < |terms| && HasTagPrefix(terms[i].field) :: IsField(terms[i].field)
  {
    hide IsField, HasTagPrefix, IsBuiltin;
  }

  // ----- What is written for them -----

  lemma TidyOperand(o: Operand)
    requires IsShortOperand(o)
    ensures IsLiteral(DumpOperand(o))
  {
    hide Characters, ToDouble;
  }

  lemma WrittenIsTidy(c: Comparison)
    requires IsShortComparison(c)
    ensures TidyComparison(DumpComparison(c)) && !Has(DumpComparison(c), "rules")
  {
    WrittenComparison(c);
    TidyOperand(c.value);
    TidyOperand(c.from);
    TidyOperand(c.to);
    forall i | 0 <= i < |c.values| ensures IsLiteral(DumpValues(c.values)[i]) { TidyOperand(c.values[i]); }
    hide DumpComparison, IsLiteral, DumpOperand, IsShortOperand;
  }

  lemma {:induction false} WrittenNodeIsTidy(node: Node)
    requires IsShortNode(node)
    ensures TidyExpression(DumpNode(node))
    decreases node, 1
  {
    match node {
      case Leaf(c) =>
        hide DumpComparison, IsShortComparison, TidyComparison;
        WrittenIsTidy(c);
      case Branch(g) =>
        WrittenNodesAreTidy(g.children);
        hide DumpNodes, IsShortNode;
        WrittenGroup(g, DumpNodes(g.children));
        assert DumpNode(node) == GroupObject(g, DumpNodes(g.children));
    }
  }

  lemma {:induction false} WrittenNodesAreTidy(nodes: seq<Node>)
    requires forall i | 0 <= i < |nodes| :: IsShortNode(nodes[i])
    ensures forall i | 0 <= i < |DumpNodes(nodes)| :: TidyExpression(DumpNodes(nodes)[i])
    decreases nodes, 0
  {
    hide DumpNode, TidyExpression, IsShortNode;
    if nodes != [] {
      WrittenNodeIsTidy(nodes[0]);
      var more := nodes[1..];
      assert forall i | 0 <= i < |more| :: more[i] == nodes[i + 1];
      WrittenNodesAreTidy(more);
      assert DumpNodes(nodes) == [DumpNode(nodes[0])] + DumpNodes(more);
    }
  }

  lemma WrittenOrderIsTidy(terms: seq<OrderTerm>)
    requires forall i | 0 <= i < |terms| && HasTagPrefix(terms[i].field) :: IsField(terms[i].field)
    ensures TidyOrder(Arr(DumpTerms(terms)))
  {
    hide IsField, HasTagPrefix;
  }

  lemma WrittenRuleIsTidy(rule: PlaylistRule)
    requires IsShortRule(rule)
    ensures Tidy(DumpRule(rule))
  {
    WrittenMembers(rule);
    WrittenNodeIsTidy(Branch(rule.root));
    WrittenOrderIsTidy(rule.orderBy);
    if rule.name != "" { SomethingHasCharacters(rule.name); }
    hide Characters, DumpNode, DumpTerms, DumpRule, TidyExpression, TidyOrder, IsShortNode, IsField, HasTagPrefix;
  }

  /** Storing keeps to the schema: whatever conforming document a rule was read from, the one written for it
      conforms. */
  lemma StoredConforms(doc: Json, rule: PlaylistRule)
    requires Conforms(doc) && AllDoubles(doc) && ReadRule(doc) == Success(rule)
    ensures Conforms(DumpRule(rule)) && ReadRule(DumpRule(rule)) == Success(rule)
  {
    hide *;
    ConformsExactly(doc);
    RuleMeaning(doc, rule);
    ShortRule(doc, rule);
    WrittenRuleIsTidy(rule);
    ParsedRuleSurvives(doc, rule);
    ConformsExactly(DumpRule(rule));
  }
}

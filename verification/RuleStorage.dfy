/**
 A smart-playlist rule as the text stored for it: parse_rule_json and to_json of
 desktop/src/library/smart_playlist.cpp on whole documents, with the JSON text between them
 (desktop/src/core/json/json.cpp).

 A rule survives being stored and loaded exactly when it is one parse_rule_json can return, its texts are
 well-formed and its document keeps within the parser's limits; and a rule that was loaded and compiles has a
 fragment that means the rule.
 */
module RuleStorage {
  import opened Wrappers
  import opened Ordering
  import opened Utf8
  import opened Numbers
  import opened Rules
  import opened Doubles
  import opened JsonValues
  import opened JsonText
  import opened JsonRoundTrip
  import opened JsonParser
  import opened RuleJson
  import opened RuleJsonRoundTrip
  import Sql
  import Compilation
  import CompilerCorrectness

  datatype LoadError = NotJson(json: JsonError) | NotRule(rule: RuleError)

  /** parse_rule_json. */
  function LoadRule(platform: Platform, text: Bytes): Result<PlaylistRule, LoadError> {
    match ReadDocument(platform, DEFAULT_LIMITS, text)
    case Failure(e) => Failure(NotJson(e))
    case Success(doc) => match ReadRule(doc) case Failure(e) => Failure(NotRule(e)) case Success(rule) => Success(rule)
  }

  /** to_json. */
  ghost function StoreRule(platform: Platform, rule: PlaylistRule): Bytes {
    Dump(platform, DumpRule(rule))
  }

  method ParseRuleText(platform: Platform, text: Bytes) returns (r: Result<PlaylistRule, LoadError>)
    ensures r == LoadRule(platform, text)
  {
    var doc := ParseText(platform, DEFAULT_LIMITS, text);
    if doc.Failure? { return Failure(NotJson(doc.error)); }
    var rule := ParseRule(doc.value);
    if rule.Failure? { return Failure(NotRule(rule.error)); }
    return Success(rule.value);
  }

  method RuleText(platform: Platform, rule: PlaylistRule) returns (text: Bytes)
    ensures text == StoreRule(platform, rule)
  {
    text := DumpText(platform, DumpRule(rule));
  }

  // ----- The C library -----

  /** What the C standard promises of printf and strtod, for the integers a rule holds: digits are read as the
      number they write, and seventeen significant digits are enough for any double. */
  ghost predicate Faithful(platform: Platform) {
    && ReadsDoubles(platform)
    && (forall n: int | -DECIMAL_BOUND < n < DECIMAL_BOUND :: platform.read(Decimal(n)) == Some(n as real))
    && (forall n: int | IsExact(n) && -TWO_63 <= n <= TWO_63 ::
          && IsNumberText(platform.format(n as real))
          && ReadDouble(platform, platform.format(n as real)) == Some(n as real))
  }

  lemma {:induction false} DigitsBound(n: nat, k: nat, bound: nat)
    requires k > 0 && bound == Pow10(k) && n < bound
    ensures |DecimalDigits(n)| <= k
    decreases k
  {
    if n >= 10 {
      assert k > 1;
      DigitsBound(n / 10, k - 1, Pow10(k - 1));
    }
  }

  function Pow10(k: nat): nat {
    if k == 0 then 1 else 10 * Pow10(k - 1)
  }

  lemma ShortDecimal(n: int)
    requires -TWO_63 <= n <= TWO_63
    ensures |Decimal(n)| <= 21
  {
    assert Pow10(5) == 100_000 && Pow10(10) == 100_000 * Pow10(5);
    assert Pow10(15) == 100_000 * Pow10(10) && Pow10(20) == 100_000 * Pow10(15);
    DigitsBound(if n < 0 then -n else n, 20, Pow10(20));
  }

  /** Reads whole numbers and nothing else. */
  ghost function ReadWhole(t: Bytes): Option<real> {
    if IsIntText(t) && IsExact(IntValue(t)) then Some(IntValue(t) as real) else None
  }

  lemma WholeReads(n: int)
    requires IsExact(n)
    ensures ReadWhole(Decimal(n)) == Some(n as real)
  {
    ParsesDecimal(n);
    hide Decimal, Trim, IsExact;
  }

  lemma WholesAreDoubles(t: Bytes)
    ensures ReadWhole(t).Some? ==> IsDouble(ReadWhole(t).value)
  {
    hide IsIntText, IntValue, IsExact, IsDouble, ToDouble;
    if IsIntText(t) && IsExact(IntValue(t)) {
      ExactRoundTrip(IntValue(t));
      ToDoubleIsDouble(IntValue(t));
    }
  }

  lemma SmallIsExact(n: int)
    requires -DECIMAL_BOUND < n < DECIMAL_BOUND
    ensures IsExact(n)
  {
    ExactBy(n, Abs(n), 0);
  }

  /** A decimal integer is a JSON number that trimming leaves alone and that is not too long. */
  lemma DecimalReads(platform: Platform, n: int)
    requires -TWO_63 <= n <= TWO_63
    ensures IsNumberText(Decimal(n)) && ReadDouble(platform, Decimal(n)) == platform.read(Decimal(n))
  {
    DecimalIsNumber(n);
    PlainToTrim(Decimal(n));
    ShortDecimal(n);
    hide Decimal, Trim, IsNumberText;
  }

  /** There is such a library. */
  lemma SomeLibraryIsFaithful() returns (platform: Platform)
    ensures Faithful(platform)
  {
    platform := Platform(x => Decimal(Truncate(x)), ReadWhole);
    hide ReadWhole, Decimal, IsNumberText, ReadDouble, IsExact, IsDouble, Truncate;
    forall t ensures platform.read(t).Some? ==> IsDouble(platform.read(t).value) {
      WholesAreDoubles(t);
    }
    forall n: int | -DECIMAL_BOUND < n < DECIMAL_BOUND ensures platform.read(Decimal(n)) == Some(n as real) {
      SmallIsExact(n);
      WholeReads(n);
    }
    forall n: int | IsExact(n) && -TWO_63 <= n <= TWO_63
      ensures IsNumberText(platform.format(n as real)) &&
              ReadDouble(platform, platform.format(n as real)) == Some(n as real)
    {
      TruncateOfInt(n);
      DecimalReads(platform, n);
      WholeReads(n);
    }
  }

  /** An integer a rule may hold survives. */
  lemma IntegerSurvives(platform: Platform, n: int)
    requires Faithful(platform) && IsExact(n) && -TWO_63 <= n <= TWO_63
    ensures Survives(platform, n as real)
  {
    hide Decimal, IsNumberText, ReadDouble, IsExact, IsDouble, Truncate, ReadsDoubles;
    TruncateOfInt(n);
    DecimalReads(platform, n);
  }

  // ----- Its numbers -----

  /** What a member of a rule's document may be. */
  lemma RuleMember(rule: PlaylistRule, key: string)
    requires key in DumpRule(rule).members
    ensures var v := DumpRule(rule).members[key];
      || v == Num(1.0) || v == Bool(false) || v == Str(rule.name) || v == Str(rule.description)
      || v == DumpNode(Branch(rule.root)) || v == Arr(DumpTerms(rule.orderBy))
      || (rule.limit.Some? && v == Num(ToDouble(rule.limit.value)))
    ensures key in {"schemaVersion", "match", "name", "description", "autoRefresh", "orderBy", "limit"}
  {
    hide DumpNode, DumpTerms, ToDouble;
  }

  lemma DumpedInteger(platform: Platform, n: int)
    requires Faithful(platform) && IsExact(n) && -TWO_63 <= n <= TWO_63
    ensures NumbersSurvive(platform, Num(ToDouble(n)))
  {
    hide ToDouble, Survives, IsExact, Faithful;
    ExactRoundTrip(n);
    IntegerSurvives(platform, n);
  }

  lemma DumpedOperand(platform: Platform, o: Operand)
    requires Faithful(platform) && CanonicalOperand(o)
    ensures NumbersSurvive(platform, DumpOperand(o))
  {
    hide Faithful, IsExact, ToDouble, Survives;
    if o.Number? { DumpedInteger(platform, o.number); }
  }

  lemma DumpedComparison(platform: Platform, c: Comparison)
    requires Faithful(platform) && CanonicalComparison(c)
    ensures NumbersSurvive(platform, DumpComparison(c))
  {
    hide Faithful, OperatorName, DumpOperand, CanonicalOperand, IsCustomName, BuiltinFields, Survives;
    DumpedOperand(platform, c.value);
    DumpedOperand(platform, c.from);
    DumpedOperand(platform, c.to);
    forall i | 0 <= i < |c.values| ensures NumbersSurvive(platform, DumpValues(c.values)[i]) {
      DumpedOperand(platform, c.values[i]);
    }
    assert NumbersSurvive(platform, Arr(DumpValues(c.values)));
    assert forall s: string :: NumbersSurvive(platform, Str(s));
    var members := DumpComparison(c).members;
    forall key | key in members ensures NumbersSurvive(platform, members[key]) {
    }
  }

  lemma {:induction false} DumpedNode(platform: Platform, node: Node)
    requires Faithful(platform) && CanonicalNode(node)
    ensures NumbersSurvive(platform, DumpNode(node))
    decreases node, 1
  {
    hide Faithful, Survives, CanonicalComparison;
    match node {
      case Leaf(c) =>
        hide DumpComparison;
        DumpedComparison(platform, c);
      case Branch(g) =>
        DumpedNodes(platform, g.children);
        hide DumpNodes;
        assert forall s: string :: NumbersSurvive(platform, Str(s));
    }
  }

  lemma {:induction false} DumpedNodes(platform: Platform, nodes: seq<Node>)
    requires Faithful(platform) && CanonicalNodes(nodes)
    ensures NumbersSurvive(platform, Arr(DumpNodes(nodes)))
    decreases nodes, 0
  {
    if nodes != [] {
      DumpedNode(platform, nodes[0]);
      DumpedNodes(platform, nodes[1..]);
      hide DumpNode, Faithful, CanonicalNode, Survives;
      var items := DumpNodes(nodes);
      assert items[0] == DumpNode(nodes[0]) && items[1..] == DumpNodes(nodes[1..]);
      forall i | 0 <= i < |items| ensures NumbersSurvive(platform, items[i]) {
        if i > 0 { assert items[i] == DumpNodes(nodes[1..])[i - 1]; }
      }
    }
  }

  lemma DumpedTerms(platform: Platform, terms: seq<OrderTerm>)
    ensures NumbersSurvive(platform, Arr(DumpTerms(terms)))
  {
    hide Survives;
    assert forall s: string :: NumbersSurvive(platform, Str(s));
    forall i | 0 <= i < |terms| ensures NumbersSurvive(platform, DumpTerms(terms)[i]) {
      var v := DumpTerm(terms[i]);
    }
  }

  /** Every number in the document of a canonical rule survives. */
  lemma DumpedRule(platform: Platform, rule: PlaylistRule)
    requires Faithful(platform) && CanonicalRule(rule)
    ensures NumbersSurvive(platform, DumpRule(rule))
  {
    hide DumpRule, DumpNode, DumpTerms, Faithful, IsExact, CanonicalNode, ToDouble, Survives;
    DumpedNode(platform, Branch(rule.root));
    DumpedTerms(platform, rule.orderBy);
    DumpedNumbers(platform, rule.limit);
    assert NumbersSurvive(platform, Str(rule.name)) && NumbersSurvive(platform, Str(rule.description));
    DocumentIsObject(rule);
    forall key | key in DumpRule(rule).members ensures NumbersSurvive(platform, DumpRule(rule).members[key]) {
      RuleMember(rule, key);
      hide *;
    }
  }

  lemma DocumentIsObject(rule: PlaylistRule)
    ensures DumpRule(rule).Obj?
  {
  }

  lemma DumpedNumbers(platform: Platform, limit: Option<int>)
    requires Faithful(platform) && (limit.Some? ==> 1 <= limit.value <= 100000)
    ensures NumbersSurvive(platform, Num(1.0)) && NumbersSurvive(platform, Bool(false))
    ensures limit.Some? ==> NumbersSurvive(platform, Num(ToDouble(limit.value)))
  {
    hide Faithful, IsExact, ToDouble, Survives;
    SmallIsExact(1);
    IntegerSurvives(platform, 1);
    if limit.Some? {
      SmallIsExact(limit.value);
      DumpedInteger(platform, limit.value);
    }
  }

  // ----- Its texts -----

  ghost predicate TextOperand(o: Operand) {
    o.Text? ==> IsText(o.text)
  }

  ghost predicate TextComparison(c: Comparison) {
    && IsText(c.field) && TextOperand(c.value) && TextOperand(c.from) && TextOperand(c.to)
    && forall i | 0 <= i < |c.values| :: TextOperand(c.values[i])
  }

  ghost predicate TextNode(node: Node) {
    match node
    case Leaf(c) => TextComparison(c)
    case Branch(g) => TextNodes(g.children)
  }

  ghost predicate TextNodes(nodes: seq<Node>) {
    nodes == [] || (TextNode(nodes[0]) && TextNodes(nodes[1..]))
  }

  /** Every text the user gave is well-formed. */
  ghost predicate TextRule(rule: PlaylistRule) {
    && IsText(rule.name) && IsText(rule.description) && TextNode(Branch(rule.root))
    && forall i | 0 <= i < |rule.orderBy| :: IsText(rule.orderBy[i].field)
  }

  lemma {:induction false} AsciiIsUtf8(m: Bytes)
    requires forall i | 0 <= i < |m| :: m[i] < 0x80
    ensures WalkIsClean(m)
  {
    if m != [] {
      LeadLengthUnique(m, 1);
      AsciiIsUtf8(m[1..]);
    }
  }

  predicate IsAscii(s: string) {
    forall i | 0 <= i < |s| :: s[i] as int < 0x80
  }

  lemma AsciiIsText(s: string)
    ensures IsAscii(s) ==> IsText(s)
  {
    if IsAscii(s) {
      AsciiIsUtf8(BytesOf(s));
      CleanWalkIsUtf8(BytesOf(s));
    }
  }

  lemma OperatorNameIsText(op: FieldOp)
    ensures IsText(OperatorName(op))
  {
    AsciiIsText(OperatorName(op));
    hide IsText;
    assert IsAscii(OperatorName(op));
  }

  /** The words the format itself uses. */
  lemma WordsAreText(s: string)
    requires s in {"schemaVersion", "match", "name", "description", "autoRefresh", "orderBy", "limit", "op", "not",
                   "rules", "field", "operator", "caseSensitive", "from", "to", "values", "value", "direction",
                   "and", "or", "asc", "desc"}
    ensures IsText(s)
  {
    AsciiIsText(s);
    hide IsText;
    assert IsAscii(s);
  }

  // ----- Reading gives well-formed texts -----

  lemma EmptyIsText()
    ensures IsText("") && TextOperand(NO_OPERAND)
  {
    AsciiIsText("");
  }

  lemma ReadOperandIsText(v: Json)
    requires AllTexts(v)
    ensures TextOperand(OperandFrom(v))
  {
    EmptyIsText();
    hide IsText, AsInt;
  }

  lemma MemberIsText(v: Json, key: string)
    requires AllTexts(v) && Has(v, key)
    ensures AllTexts(v.members[key])
  {
    hide IsText;
  }

  lemma ReadComparisonIsText(v: Json)
    requires AllTexts(v) && ReadComparison(v).Success?
    ensures TextComparison(ReadComparison(v).value)
  {
    MemberIsText(v, "field");
    var bare := Bare(ReadField(v).value, ReadOperator(v).value, ReadFlag(v, "not", false),
                     ReadFlag(v, "caseSensitive", false));
    EmptyIsText();
    assert TextComparison(bare) by { hide BuiltinFields, IsCustomName, IsText; }
    hide ReadField, ReadOperator, ReadFlag, AllTexts;
    ReadOperandsAreText(v, bare);
  }

  lemma ReadOperandsAreText(v: Json, bare: Comparison)
    requires AllTexts(v) && TextComparison(bare) && ReadOperands(v, bare).Success?
    ensures TextComparison(ReadOperands(v, bare).value)
  {
    forall key | Has(v, key) ensures AllTexts(v.members[key]) && TextOperand(OperandFrom(v.members[key])) {
      MemberIsText(v, key);
      ReadOperandIsText(v.members[key]);
    }
    hide TextOperand, FirstKey, OperandFrom, IsText;
    if bare.op == In {
      var items := v.members["values"].items;
      forall i | 0 <= i < |items| ensures TextOperand(ReadValues(items)[i]) {
        ReadOperandIsText(items[i]);
      }
    }
  }

  lemma {:induction false} ReadNodeIsText(v: Json)
    requires AllTexts(v) && ReadNode(v).Success?
    ensures TextNode(ReadNode(v).value)
    decreases v, 2
  {
    hide ReadComparison, TextComparison;
    if Has(v, "rules") {
      ReadGroupIsText(v);
    } else {
      ReadComparisonIsText(v);
    }
  }

  lemma {:induction false} ReadNodesAreText(items: seq<Json>)
    requires ReadNodes(items).Success? && forall i | 0 <= i < |items| :: AllTexts(items[i])
    ensures TextNodes(ReadNodes(items).value)
    decreases items, 0
  {
    hide ReadNode, TextNode, AllTexts;
    if items != [] {
      ReadNodeIsText(items[0]);
      ReadNodesAreText(items[1..]);
    }
  }

  lemma {:induction false} ReadGroupIsText(v: Json)
    requires AllTexts(v) && ReadGroup(v).Success?
    ensures TextNode(Branch(ReadGroup(v).value))
    decreases v, 1
  {
    MemberIsText(v, "rules");
    hide ReadNodes, ReadConjunction, TextNodes;
    ReadNodesAreText(v.members["rules"].items);
  }

  lemma ReadExpressionIsText(v: Json)
    requires AllTexts(v) && ReadExpression(v).Success?
    ensures TextNode(Branch(ReadExpression(v).value))
  {
    hide ReadGroup, ReadComparison, TextComparison, AllTexts;
    if Has(v, "rules") {
      ReadGroupIsText(v);
    } else {
      ReadComparisonIsText(v);
      LoneText(ReadComparison(v).value);
    }
  }

  lemma LoneText(c: Comparison)
    requires TextComparison(c)
    ensures TextNode(Branch(Group(And, false, [Leaf(c)])))
  {
    hide TextComparison;
    var nodes := [Leaf(c)];
    assert TextNodes(nodes[1..]) && TextNode(nodes[0]);
  }

  lemma {:induction false} ReadTermsAreText(items: seq<Json>)
    requires ReadTerms(items).Success? && forall i | 0 <= i < |items| :: AllTexts(items[i])
    ensures forall i | 0 <= i < |items| :: IsText(ReadTerms(items).value[i].field)
  {
    if items != [] {
      var last := |items| - 1;
      MemberIsText(items[last], "field");
      hide IsOrderField, ReadDirection, IsText;
      ReadTermsAreText(items[..last]);
    }
  }

  /** A rule read from a document with well-formed texts has well-formed texts. */
  lemma ReadRuleIsText(doc: Json)
    requires AllTexts(doc) && ReadRule(doc).Success?
    ensures TextRule(ReadRule(doc).value)
  {
    hide ReadExpression, ReadOrderBy, ReadLimit, ReadString, TextNode, IsText, AsInt, ReadFlag, AllTexts;
    MemberIsText(doc, "match");
    ReadExpressionIsText(doc.members["match"]);
    ReadOrderByIsText(doc);
    ReadStringIsText(doc, "name");
    ReadStringIsText(doc, "description");
  }

  lemma ReadOrderByIsText(v: Json)
    requires AllTexts(v) && ReadOrderBy(v).Success?
    ensures forall i | 0 <= i < |ReadOrderBy(v).value| :: IsText(ReadOrderBy(v).value[i].field)
  {
    if Has(v, "orderBy") {
      MemberIsText(v, "orderBy");
      hide ReadTerms, IsText;
      ReadTermsAreText(v.members["orderBy"].items);
    }
  }

  lemma ReadStringIsText(v: Json, key: string)
    requires AllTexts(v)
    ensures IsText(ReadString(v, key))
  {
    EmptyIsText();
    if Has(v, key) { MemberIsText(v, key); }
    hide IsText;
  }

  // ----- Writing keeps them so -----

  lemma DumpedOperandText(o: Operand)
    requires TextOperand(o)
    ensures AllTexts(DumpOperand(o))
  {
  }

  /** What a member of a comparison's object may be. */
  lemma ComparisonMember(c: Comparison, key: string)
    requires key in DumpComparison(c).members
    ensures key in {"field", "operator", "not", "caseSensitive", "from", "to", "values", "value"}
    ensures var v := DumpComparison(c).members[key];
      || v == Str(c.field) || v == Str(OperatorName(c.op)) || v == Bool(true)
      || v == DumpOperand(c.value) || v == DumpOperand(c.from) || v == DumpOperand(c.to)
      || (c.op == In && v == Arr(DumpValues(c.values)))
  {
    hide OperatorName, DumpOperand, DumpValues;
  }

  lemma DumpedComparisonText(c: Comparison)
    requires TextComparison(c)
    ensures AllTexts(DumpComparison(c))
  {
    hide TextOperand, OperatorName, IsText;
    DumpedOperandText(c.value);
    DumpedOperandText(c.from);
    DumpedOperandText(c.to);
    forall i | 0 <= i < |c.values| ensures AllTexts(DumpValues(c.values)[i]) {
      DumpedOperandText(c.values[i]);
    }
    assert AllTexts(Arr(DumpValues(c.values)));
    OperatorNameIsText(c.op);
    assert AllTexts(Str(OperatorName(c.op))) && AllTexts(Str(c.field)) && AllTexts(Bool(true));
    var members := DumpComparison(c).members;
    forall key | key in members ensures IsText(key) && AllTexts(members[key]) {
      ComparisonMember(c, key);
      WordsAreText(key);
      hide *;
    }
    hide DumpComparison;
  }

  lemma {:induction false} DumpedNodeText(node: Node)
    requires TextNode(node)
    ensures AllTexts(DumpNode(node))
    decreases node, 1
  {
    match node {
      case Leaf(c) =>
        hide DumpComparison, TextComparison;
        DumpedComparisonText(c);
      case Branch(g) =>
        DumpedNodesText(g.children);
        hide DumpNodes, TextNodes, IsText;
        WordsAreText("and"); WordsAreText("or"); WordsAreText("op"); WordsAreText("not"); WordsAreText("rules");
        assert AllTexts(Str("and")) && AllTexts(Str("or")) && AllTexts(Bool(true));
    }
  }

  lemma {:induction false} DumpedNodesText(nodes: seq<Node>)
    requires TextNodes(nodes)
    ensures AllTexts(Arr(DumpNodes(nodes)))
    decreases nodes, 0
  {
    if nodes != [] {
      DumpedNodeText(nodes[0]);
      DumpedNodesText(nodes[1..]);
      hide DumpNode, TextNode, IsText;
      var items := DumpNodes(nodes);
      assert items[0] == DumpNode(nodes[0]) && items[1..] == DumpNodes(nodes[1..]);
      forall i | 0 <= i < |items| ensures AllTexts(items[i]) {
        if i > 0 { assert items[i] == DumpNodes(nodes[1..])[i - 1]; }
      }
    }
  }

  lemma DumpedTermsText(terms: seq<OrderTerm>)
    requires forall i | 0 <= i < |terms| :: IsText(terms[i].field)
    ensures AllTexts(Arr(DumpTerms(terms)))
  {
    hide IsText;
    WordsAreText("field"); WordsAreText("direction"); WordsAreText("asc"); WordsAreText("desc");
    forall i | 0 <= i < |terms| ensures AllTexts(DumpTerms(terms)[i]) {
      var v := DumpTerm(terms[i]);
      assert AllTexts(Str(terms[i].field)) && AllTexts(Str("asc")) && AllTexts(Str("desc"));
    }
  }

  /** The document of a rule with well-formed texts has well-formed texts. */
  lemma DumpedRuleText(rule: PlaylistRule)
    requires TextRule(rule)
    ensures AllTexts(DumpRule(rule))
  {
    DumpedNodeText(Branch(rule.root));
    DumpedTermsText(rule.orderBy);
    assert AllTexts(Str(rule.name)) && AllTexts(Str(rule.description)) && AllTexts(Num(1.0)) && AllTexts(Bool(false));
    assert rule.limit.Some? ==> AllTexts(Num(ToDouble(rule.limit.value)));
    var members := DumpRule(rule).members;
    forall key | key in members ensures IsText(key) && AllTexts(members[key]) {
      RuleMember(rule, key);
      WordsAreText(key);
      hide *;
    }
    hide DumpRule, IsText;
  }

  // ----- Its depth -----

  /** How many levels the JSON of a node has below it: a group adds its object and its list. */
  function Height(node: Node): nat
    decreases node, 1
  {
    match node
    case Leaf(c) => if c.op == In && c.values != [] then 2 else 1
    case Branch(g) => if g.children == [] then 1 else 2 + TallestOf(g.children)
  }

  function TallestOf(nodes: seq<Node>): nat
    decreases nodes, 0
  {
    if nodes == [] then 0 else Max(Height(nodes[0]), TallestOf(nodes[1..]))
  }

  lemma ComparisonDepth(c: Comparison, depth: int)
    ensures FitsDepth(DumpComparison(c), depth) <==> Height(Leaf(c)) <= depth
  {
    hide OperatorName;
    var v := DumpComparison(c);
    assert Has(v, "field") && v.members["field"] == Str(c.field);
    if c.op == In {
      var list := Arr(DumpValues(c.values));
      assert v.members["values"] == list;
      assert FitsDepth(list, depth - 1) <==> Height(Leaf(c)) <= depth by { ValuesDepth(c.values, depth - 1); }
      if FitsDepth(v, depth) { assert FitsDepth(v.members["values"], depth - 1); }
    } else if FitsDepth(v, depth) {
      assert FitsDepth(v.members["field"], depth - 1);
    }
    forall key | key in v.members && Height(Leaf(c)) <= depth ensures FitsDepth(v.members[key], depth - 1) {
      ComparisonMember(c, key);
      hide DumpComparison;
      if c.op == In { ValuesDepth(c.values, depth - 1); }
    }
  }

  lemma ValuesDepth(values: seq<Operand>, depth: int)
    ensures FitsDepth(Arr(DumpValues(values)), depth) <==> depth >= if values == [] then 0 else 1
  {
    var items := DumpValues(values);
    if values != [] && FitsDepth(Arr(items), depth) { assert FitsDepth(items[0], depth - 1); }
  }

  lemma {:induction false} NodeDepth(node: Node, depth: int)
    ensures FitsDepth(DumpNode(node), depth) <==> Height(node) <= depth
    decreases node, 1
  {
    match node {
      case Leaf(c) =>
        hide DumpComparison;
        ComparisonDepth(c, depth);
      case Branch(g) =>
        NodesDepth(g.children, depth - 2);
        hide DumpNodes, TallestOf;
        GroupDepth(g, DumpNodes(g.children), depth);
    }
  }

  lemma GroupDepth(g: Group, items: seq<Json>, depth: int)
    ensures FitsDepth(GroupObject(g, items), depth) <==>
            depth >= 1 && AllFit(items, depth - 2)
  {
    var v := GroupObject(g, items);
    assert v.members["rules"] == Arr(items) && v.members["op"].Str?;
    if FitsDepth(v, depth) {
      assert FitsDepth(v.members["rules"], depth - 1);
    }
    if depth >= 1 && AllFit(items, depth - 2) {
      assert FitsDepth(Arr(items), depth - 1);
      forall key | key in v.members ensures FitsDepth(v.members[key], depth - 1) {
      }
    }
  }

  lemma {:induction false} NodesDepth(nodes: seq<Node>, depth: int)
    ensures AllFit(DumpNodes(nodes), depth) <==> nodes == [] || TallestOf(nodes) <= depth
    decreases nodes, 0
  {
    if nodes != [] {
      NodeDepth(nodes[0], depth);
      NodesDepth(nodes[1..], depth);
      ItemsFit(DumpNodes(nodes), depth);
      hide DumpNode, Height, FitsDepth, AllFit;
      assert DumpNodes(nodes)[0] == DumpNode(nodes[0]) && DumpNodes(nodes)[1..] == DumpNodes(nodes[1..]);
      if |nodes| == 1 { assert nodes[1..] == []; }
    }
  }

  lemma TermsDepth(terms: seq<OrderTerm>, depth: int)
    requires depth >= 2
    ensures FitsDepth(Arr(DumpTerms(terms)), depth)
  {
    forall i | 0 <= i < |terms| ensures FitsDepth(DumpTerms(terms)[i], depth - 1) {
      var v := DumpTerm(terms[i]);
      assert forall s: string :: FitsDepth(Str(s), depth - 2);
    }
  }

  /** How deep the document of a rule is. */
  lemma RuleDepth(rule: PlaylistRule, depth: int)
    requires depth >= 3
    ensures FitsDepth(DumpRule(rule), depth) <==> Height(Branch(rule.root)) < depth
  {
    NodeDepth(Branch(rule.root), depth - 1);
    TermsDepth(rule.orderBy, depth - 1);
    RuleMembers(rule);
    var members := DumpRule(rule).members;
    if FitsDepth(DumpRule(rule), depth) {
      assert FitsDepth(members["match"], depth - 1);
    }
    if Height(Branch(rule.root)) < depth {
      forall key | key in members ensures FitsDepth(members[key], depth - 1) {
        RuleMember(rule, key);
        hide DumpRule, DumpNode, DumpTerms, Height, ToDouble;
      }
    }
    hide DumpRule, DumpNode, DumpTerms, Height, ToDouble;
  }

  // ----- The depth of what was read -----

  lemma MemberDepth(v: Json, key: string, depth: int)
    requires FitsDepth(v, depth) && Has(v, key)
    ensures FitsDepth(v.members[key], depth - 1) && depth >= 1
  {
  }

  lemma ReadComparisonDepth(v: Json, depth: int)
    requires FitsDepth(v, depth) && ReadComparison(v).Success?
    ensures Height(Leaf(ReadComparison(v).value)) <= depth
  {
    MemberDepth(v, "field", depth);
    var bare := Bare(ReadField(v).value, ReadOperator(v).value, ReadFlag(v, "not", false),
                     ReadFlag(v, "caseSensitive", false));
    hide ReadField, ReadOperator, ReadFlag, FitsDepth;
    ReadOperandsDepth(v, bare, depth);
  }

  lemma ReadOperandsDepth(v: Json, bare: Comparison, depth: int)
    requires FitsDepth(v, depth) && depth >= 1 && bare.values == [] && ReadOperands(v, bare).Success?
    ensures Height(Leaf(ReadOperands(v, bare).value)) <= depth
  {
    hide OperandFrom, FirstKey;
    if bare.op == In {
      MemberDepth(v, "values", depth);
      var list := v.members["values"];
      assert list.items != [] && FitsDepth(list.items[0], depth - 2);
    }
  }

  lemma {:induction false} ReadNodeDepth(v: Json, depth: int)
    requires FitsDepth(v, depth) && ReadNode(v).Success?
    ensures Height(ReadNode(v).value) <= depth
    decreases v, 2
  {
    hide ReadComparison;
    if Has(v, "rules") {
      ReadGroupDepth(v, depth);
    } else {
      hide Height;
      ReadComparisonDepth(v, depth);
    }
  }

  lemma {:induction false} ReadNodesDepth(items: seq<Json>, depth: int)
    requires AllFit(items, depth) && items != [] && ReadNodes(items).Success?
    ensures TallestOf(ReadNodes(items).value) <= depth
    decreases items, 0
  {
    ItemsFit(items, depth);
    hide ReadNode, Height, FitsDepth, AllFit;
    ReadNodeDepth(items[0], depth);
    if |items| > 1 {
      ReadNodesDepth(items[1..], depth);
    } else {
      assert items[1..] == [];
      HeightIsPositive(ReadNode(items[0]).value);
    }
  }

  lemma HeightIsPositive(node: Node)
    ensures Height(node) >= 1
  {
  }

  lemma {:induction false} ReadGroupDepth(v: Json, depth: int)
    requires FitsDepth(v, depth) && ReadGroup(v).Success?
    ensures Height(Branch(ReadGroup(v).value)) <= depth
    decreases v, 1
  {
    MemberDepth(v, "rules", depth);
    var items := v.members["rules"].items;
    assert AllFit(items, depth - 2);
    hide ReadNodes, ReadConjunction, TallestOf, AllFit, FitsDepth;
    ReadNodesDepth(items, depth - 2);
  }

  /** A rule read from a document of some depth is no deeper, but for a lone comparison, which gets a group. */
  lemma ReadRuleDepth(doc: Json, depth: int)
    requires FitsDepth(doc, depth) && depth >= 5 && ReadRule(doc).Success?
    ensures Height(Branch(ReadRule(doc).value.root)) < depth
  {
    MemberDepth(doc, "match", depth);
    var v := doc.members["match"];
    hide ReadOrderBy, ReadLimit, AsInt, FitsDepth, ReadString, ReadFlag;
    if Has(v, "rules") {
      ReadGroupDepth(v, depth - 1);
    } else {
      var c := ReadComparison(v).value;
      assert ReadRule(doc).value.root == Group(And, false, [Leaf(c)]) by { hide ReadComparison, ReadGroup; }
      LoneHeight(c);
    }
  }

  lemma LoneHeight(c: Comparison)
    ensures Height(Branch(Group(And, false, [Leaf(c)]))) <= 4
  {
    var nodes := [Leaf(c)];
    assert nodes[1..] == [];
    assert TallestOf(nodes) == Max(Height(Leaf(c)), 0);
  }

  // ----- The theorems -----

  /** A rule is read back from its text exactly when parsing could have returned it, its texts are well-formed,
      its groups are not nested too deeply and its document is neither too large nor has too many values. */
  lemma SurvivesStorage(platform: Platform, rule: PlaylistRule)
    requires Faithful(platform)
    ensures LoadRule(platform, StoreRule(platform, rule)) == Success(rule) <==>
            && CanonicalRule(rule) && TextRule(rule)
            && Height(Branch(rule.root)) < DEFAULT_LIMITS.maxDepth
            && Elements(DumpRule(rule)) <= DEFAULT_LIMITS.maxElements
            && |StoreRule(platform, rule)| <= DEFAULT_LIMITS.maxBytes
  {
    RuleDepth(rule, DEFAULT_LIMITS.maxDepth);
    if CanonicalRule(rule) && TextRule(rule) {
      CanonicalSurvives(platform, rule);
    } else if LoadRule(platform, StoreRule(platform, rule)) == Success(rule) {
      LoadedIsCanonical(platform, StoreRule(platform, rule));
    }
  }

  /** What loading returns. */
  lemma LoadedIsCanonical(platform: Platform, text: Bytes)
    requires Faithful(platform) && LoadRule(platform, text).Success?
    ensures var rule := LoadRule(platform, text).value;
            CanonicalRule(rule) && TextRule(rule) && Height(Branch(rule.root)) < DEFAULT_LIMITS.maxDepth
  {
    hide ReadDocument, ReadRule, CanonicalRule, TextRule, Height, FitsDepth, ReadsDoubles;
    ParsedIsDocument(platform, DEFAULT_LIMITS, text);
    var doc := ReadDocument(platform, DEFAULT_LIMITS, text).value;
    ReadRuleIsCanonical(doc);
    ReadRuleIsText(doc);
    ReadRuleDepth(doc, DEFAULT_LIMITS.maxDepth);
  }

  lemma CanonicalSurvives(platform: Platform, rule: PlaylistRule)
    requires Faithful(platform) && CanonicalRule(rule) && TextRule(rule)
    ensures LoadRule(platform, StoreRule(platform, rule)) == Success(rule) <==>
            KeepsLimits(platform, DEFAULT_LIMITS, DumpRule(rule))
  {
    hide ReadDocument, ReadRule, CanonicalRule, TextRule, KeepsLimits, Dump, Faithful, DumpRule;
    DumpedRule(platform, rule);
    DumpedRuleText(rule);
    ParseOfDump(platform, DEFAULT_LIMITS, DumpRule(rule));
    CanonicalRoundTrip(rule);
  }

  /** Whatever text a rule was loaded from, storing it and loading it again changes nothing, unless its document
      has grown past the size limits. */
  lemma LoadedRuleSurvives(platform: Platform, text: Bytes, rule: PlaylistRule)
    requires Faithful(platform) && LoadRule(platform, text) == Success(rule)
    ensures LoadRule(platform, StoreRule(platform, rule)) == Success(rule) <==>
            && Elements(DumpRule(rule)) <= DEFAULT_LIMITS.maxElements
            && |StoreRule(platform, rule)| <= DEFAULT_LIMITS.maxBytes
  {
    LoadedIsCanonical(platform, text);
    hide LoadRule, StoreRule, CanonicalRule, TextRule, Height, Elements;
    SurvivesStorage(platform, rule);
  }

  // ----- From the text to the query -----

  lemma {:induction false} CanonicalHasNoEmptyGroup(node: Node)
    requires CanonicalNode(node)
    ensures NoEmptyGroup(node)
    decreases node, 1
  {
    if node.Branch? { CanonicalNoneEmpty(node.group.children); }
  }

  lemma {:induction false} CanonicalNoneEmpty(nodes: seq<Node>)
    requires CanonicalNodes(nodes)
    ensures NoneEmpty(nodes)
    decreases nodes, 0
  {
    if nodes != [] {
      CanonicalHasNoEmptyGroup(nodes[0]);
      CanonicalNoneEmpty(nodes[1..]);
    }
  }

  /** A rule that was loaded from text and compiles: its fragment is an SQL expression that has on every row the
      value of the rule, with as many placeholders as parameters. */
  lemma LoadedRuleCompilesToItsMeaning(
      platform: Platform, text: Bytes, rule: PlaylistRule, query: Compilation.CompiledQuery)
    requires Faithful(platform) && LoadRule(platform, text) == Success(rule)
    requires Compilation.CompileResult(rule) == Success(query)
    ensures Sql.CountMarks(query.filter) == |query.params|
    ensures Sql.ParseWhere(query.filter).Some?
    ensures forall world: Sql.World ::
              Sql.Eval(Sql.ParseWhere(query.filter).value.value, query.params, world, Sql.Track) ==
              CompilerCorrectness.NodeTruth(Branch(rule.root), world)
  {
    LoadedIsCanonical(platform, text);
    CanonicalHasNoEmptyGroup(Branch(rule.root));
    hide LoadRule, TextRule, Height, CanonicalNode, NoEmptyGroup;
    CompilerCorrectness.CompiledQueryMeansRule(rule, query);
  }
}

/**
 The documents parse_rule_json accepts and the rules they mean (desktop/src/library/smart_playlist.cpp), compared
 with the published schema of the format (shared-spec/schemas/smart-playlist.schema.json).

 `ReadsRule` relates a document to a rule, member by member and in the format's own words; parsing is exactly that
 relation.  `Conforms` is the schema.  Every document that conforms is accepted; one that is accepted conforms
 exactly when it is tidy: no other members, flags and operands of the right kind, names and texts not too long.
 */
module RuleSchema {
  import opened Wrappers
  import opened Utf8
  import opened Rules
  import opened Doubles
  import opened JsonValues
  import opened RuleJson

  // ----- The words of the format -----

  predicate IsBuiltin(field: string) {
    field in {"title", "artist", "albumartist", "album", "genre", "composer", "comment", "grouping", "year", "date",
              "tracknumber", "discnumber", "duration", "bitrate", "samplerate", "bitdepth", "channels", "codec",
              "container", "islossless", "rating", "loved", "playcount", "skipcount", "lastplayed", "added", "bpm",
              "key", "path", "filename", "filesize", "source", "playlist", "missing", "hasartwork", "haslyrics",
              "rgtrackgain"}
  }

  predicate IsWordChar(c: char) {
    'A' <= c <= 'Z' || 'a' <= c <= 'z' || '0' <= c <= '9' || c == '_'
  }

  /** The name of a user's own tag: up to 64 word characters, the first no digit. */
  predicate IsTagName(name: string) {
    && 1 <= |name| <= 64 && !('0' <= name[0] <= '9')
    && forall i | 0 <= i < |name| :: IsWordChar(name[i])
  }

  predicate HasTagPrefix(field: string) {
    |field| >= 7 && field[..7] == "custom:"
  }

  predicate IsField(field: string) {
    if HasTagPrefix(field) then IsTagName(field[7..]) else IsBuiltin(field)
  }

  function Spelled(op: FieldOp): string {
    match op
    case Eq => "eq" case Ne => "ne" case Gt => "gt" case Lt => "lt" case Gte => "gte" case Lte => "lte"
    case Contains => "contains" case NotContains => "notContains" case StartsWith => "startsWith"
    case EndsWith => "endsWith" case Glob => "matches" case Between => "between" case In => "in"
    case IsNull => "isNull" case IsNotNull => "isNotNull"
  }

  predicate Holds(v: Json, key: string, value: Json) {
    v.Obj? && key in v.members && v.members[key] == value
  }

  predicate Lacks(v: Json, keys: set<string>) {
    v.Obj? && forall key | key in keys :: key !in v.members
  }

  // ----- The rule a document means -----

  /** A number is cut off towards zero, and reads as 0 outside the 64-bit range. */
  predicate CutsOff(x: real, n: int) {
    if -9223372036854775808.0 <= x <= 9223372036854775808.0 then
      if x >= 0.0 then n as real <= x < n as real + 1.0 else n as real - 1.0 < x <= n as real
    else n == 0
  }

  ghost predicate ReadsOperand(v: Json, o: Operand) {
    match v
    case Str(s) => o == Text(s)
    case Bool(b) => o == Flag(b)
    case Num(x) => o.Number? && CutsOff(x, o.number)
    case _ => o == Text("")
  }

  ghost predicate ReadsComparison(v: Json, c: Comparison) {
    && Holds(v, "field", Str(c.field)) && IsField(c.field)
    && Holds(v, "operator", Str(Spelled(c.op)))
    && (c.negated <==> Holds(v, "not", Bool(true)))
    && (c.caseSensitive <==> Holds(v, "caseSensitive", Bool(true)))
    && ReadsOperands(v, c)
  }

  ghost predicate ReadsOperands(v: Json, c: Comparison)
    requires v.Obj?
  {
    match c.op
    case IsNull =>
      Lacks(v, {"value", "values", "from", "to"}) && c.value == c.from == c.to == Text("") && c.values == []
    case IsNotNull =>
      Lacks(v, {"value", "values", "from", "to"}) && c.value == c.from == c.to == Text("") && c.values == []
    case Between =>
      && Lacks(v, {"value", "values"}) && "from" in v.members && "to" in v.members
      && ReadsOperand(v.members["from"], c.from) && ReadsOperand(v.members["to"], c.to)
      && c.value == Text("") && c.values == []
    case In =>
      && Lacks(v, {"value", "from", "to"}) && "values" in v.members && v.members["values"].Arr?
      && 1 <= |v.members["values"].items| == |c.values| <= 256
      && (forall i | 0 <= i < |c.values| :: ReadsOperand(v.members["values"].items[i], c.values[i]))
      && c.value == c.from == c.to == Text("")
    case _ =>
      && Lacks(v, {"values", "from", "to"}) && "value" in v.members && ReadsOperand(v.members["value"], c.value)
      && c.from == c.to == Text("") && c.values == []
  }

  ghost predicate ReadsGroup(v: Json, g: Group)
    decreases v, 0
  {
    && Holds(v, "op", Str(if g.op == And then "and" else "or"))
    && (g.negated <==> Holds(v, "not", Bool(true)))
    && "rules" in v.members && v.members["rules"].Arr?
    && var items := v.members["rules"].items;
       1 <= |items| == |g.children| <= 64 && forall i | 0 <= i < |items| :: ReadsNode(items[i], g.children[i])
  }

  /** What has rules is a group, what has none a comparison. */
  ghost predicate ReadsNode(v: Json, node: Node)
    decreases v, 1
  {
    if v.Obj? && "rules" in v.members then node.Branch? && ReadsGroup(v, node.group)
    else node.Leaf? && ReadsComparison(v, node.comparison)
  }

  ghost predicate ReadsTerm(v: Json, t: OrderTerm) {
    && Holds(v, "field", Str(t.field)) && (t.field == "random" || HasTagPrefix(t.field) || IsBuiltin(t.field))
    && match t.direction
       case Desc => Holds(v, "direction", Str("desc"))
       case Asc => Holds(v, "direction", Str("asc")) || "direction" !in v.members || !v.members["direction"].Str?
  }

  /** A text member, empty when it is missing or no text. */
  predicate ReadsText(v: Json, key: string, text: string) {
    if v.Obj? && key in v.members && v.members[key].Str? then v.members[key] == Str(text) else text == ""
  }

  ghost predicate ReadsOrder(doc: Json, terms: seq<OrderTerm>) {
    if doc.Obj? && "orderBy" in doc.members then
      && doc.members["orderBy"].Arr? && 1 <= |doc.members["orderBy"].items| == |terms| <= 8
      && forall i | 0 <= i < |terms| :: ReadsTerm(doc.members["orderBy"].items[i], terms[i])
    else terms == []
  }

  ghost predicate ReadsLimit(doc: Json, limit: Option<int>) {
    if doc.Obj? && "limit" in doc.members then
      limit.Some? && doc.members["limit"] == Num(limit.value as real) && 1 <= limit.value <= 100000
    else limit == None
  }

  /** What a match means: a lone comparison is the `and` of itself. */
  ghost predicate ReadsMatch(v: Json, g: Group) {
    && v.Obj?
    && if "rules" in v.members then ReadsGroup(v, g)
       else g.op == And && !g.negated && |g.children| == 1 && ReadsNode(v, g.children[0])
  }

  ghost predicate ReadsRule(doc: Json, rule: PlaylistRule) {
    && doc.Obj? && "schemaVersion" in doc.members && doc.members["schemaVersion"].Num?
    && CutsOff(doc.members["schemaVersion"].n, 1)
    && ReadsText(doc, "name", rule.name) && ReadsText(doc, "description", rule.description)
    && (rule.autoRefresh <==> !Holds(doc, "autoRefresh", Bool(false)))
    && "match" in doc.members && ReadsMatch(doc.members["match"], rule.root)
    && ReadsOrder(doc, rule.orderBy) && ReadsLimit(doc, rule.limit)
  }

  // ----- Parsing is that relation -----

  lemma FloorMeaning(x: real, n: int)
    ensures x.Floor == n <==> n as real <= x < n as real + 1.0
  {
  }

  lemma CutsOffIs(x: real, n: int)
    ensures AsInt(x) == n <==> CutsOff(x, n)
  {
    FloorMeaning(x, n);
    FloorMeaning(-x, -n);
    assert TWO_63 as real == 9223372036854775808.0;
  }

  lemma OperandMeaning(v: Json, o: Operand)
    ensures OperandFrom(v) == o <==> ReadsOperand(v, o)
  {
    if v.Num? {
      CutsOffIs(v.n, AsInt(v.n));
      if o.Number? { CutsOffIs(v.n, o.number); }
    }
    hide AsInt, CutsOff;
  }

  lemma FieldMeaning(field: string)
    ensures IsCustom(field) <==> HasTagPrefix(field)
    ensures IsCustom(field) ==> (IsCustomName(field) <==> IsField(field))
    ensures !IsCustom(field) ==> (field in BuiltinFields() <==> IsField(field))
    ensures field in BuiltinFields() <==> IsBuiltin(field)
  {
    BuiltinNames();
    hide IsBuiltin, BuiltinFields;
    if |field| >= 7 { assert field[..7] == CUSTOM <==> CUSTOM <= field; }
    if IsCustom(field) {
      var name := field[7..];
      assert forall i | 0 <= i < |name| :: IsNameChar(name[i]) <==> IsWordChar(name[i]);
    }
  }

  lemma BuiltinNames()
    ensures forall field :: field in BuiltinFields() <==> IsBuiltin(field)
  {
  }

  lemma SpelledOperator(name: string, op: FieldOp)
    ensures OperatorNamed(name) == Some(op) <==> name == Spelled(op)
  {
    OperatorNames(op, name);
    hide OperatorNamed;
  }

  /** The operand members the operators take. */
  lemma OperandsMeaning(v: Json, bare: Comparison, c: Comparison)
    requires v.Obj? && bare == Bare(bare.field, bare.op, bare.negated, bare.caseSensitive)
    ensures ReadOperands(v, bare) == Success(c) <==>
            c == Comparison(bare.field, bare.op, bare.negated, bare.caseSensitive, c.value, c.from, c.to, c.values) &&
            ReadsOperands(v, c)
  {
    hide OperandFrom, ReadsOperand;
    KeysMeaning(v);
    hide FirstKey;
    forall key: string, o: Operand | key in v.members
      ensures OperandFrom(v.members[key]) == o <==> ReadsOperand(v.members[key], o)
    {
      OperandMeaning(v.members[key], o);
    }
    if "values" in v.members && v.members["values"].Arr? { ValuesMeaning(v.members["values"].items, c.values); }
  }

  lemma KeysMeaning(v: Json)
    requires v.Obj?
    ensures FirstKey(v, ["value", "values", "from", "to"]).None? <==> Lacks(v, {"value", "values", "from", "to"})
    ensures FirstKey(v, ["value", "values"]).None? <==> Lacks(v, {"value", "values"})
    ensures FirstKey(v, ["value", "from", "to"]).None? <==> Lacks(v, {"value", "from", "to"})
    ensures FirstKey(v, ["values", "from", "to"]).None? <==> Lacks(v, {"values", "from", "to"})
  {
    NoKey(v, ["value", "values", "from", "to"], {"value", "values", "from", "to"});
    NoKey(v, ["value", "values"], {"value", "values"});
    NoKey(v, ["value", "from", "to"], {"value", "from", "to"});
    NoKey(v, ["values", "from", "to"], {"values", "from", "to"});
    hide FirstKey, Lacks;
  }

  lemma {:induction false} NoKey(v: Json, keys: seq<string>, names: set<string>)
    requires v.Obj? && forall key :: key in names <==> key in keys
    ensures FirstKey(v, keys).None? <==> Lacks(v, names)
    decreases |keys|
  {
    if keys != [] && !Has(v, keys[0]) {
      var rest := set key | key in keys[1..];
      NoKey(v, keys[1..], rest);
      assert forall key :: key in keys <==> key == keys[0] || key in keys[1..];
      assert Lacks(v, names) <==> Lacks(v, rest);
    } else if keys != [] {
      assert keys[0] in names;
    }
  }

  lemma ValuesMeaning(items: seq<Json>, values: seq<Operand>)
    ensures ReadValues(items) == values <==>
            |items| == |values| && forall i | 0 <= i < |values| :: ReadsOperand(items[i], values[i])
  {
    hide OperandFrom, ReadsOperand;
    if |items| == |values| {
      forall i | 0 <= i < |values|
        ensures ReadValues(items)[i] == values[i] <==> ReadsOperand(items[i], values[i])
      {
        OperandMeaning(items[i], values[i]);
      }
    }
  }

  lemma FieldRead(v: Json, field: string)
    ensures ReadField(v) == Success(field) <==> Holds(v, "field", Str(field)) && IsField(field)
  {
    if v.Obj? && "field" in v.members && v.members["field"].Str? { FieldMeaning(v.members["field"].s); }
    hide IsField, IsCustom, IsCustomName, BuiltinFields;
  }

  lemma OperatorRead(v: Json, op: FieldOp)
    ensures ReadOperator(v) == Success(op) <==> Holds(v, "operator", Str(Spelled(op)))
  {
    if v.Obj? && "operator" in v.members && v.members["operator"].Str? { SpelledOperator(v.members["operator"].s, op); }
    hide OperatorNamed, Spelled;
  }

  /** A flag is set exactly when its member is there and true; `autoRefresh` is off exactly when it is false. */
  lemma FlagRead(v: Json, key: string)
    ensures ReadFlag(v, key, false) <==> Holds(v, key, Bool(true))
    ensures ReadFlag(v, key, true) <==> !Holds(v, key, Bool(false))
  {
  }

  /** A comparison is read exactly as the relation says. */
  lemma ComparisonMeaning(v: Json, c: Comparison)
    ensures ReadComparison(v) == Success(c) <==> ReadsComparison(v, c)
  {
    FieldRead(v, c.field);
    OperatorRead(v, c.op);
    FlagRead(v, "not");
    FlagRead(v, "caseSensitive");
    hide ReadOperands, ReadsOperands, IsField, ReadField, ReadOperator, ReadFlag, Spelled;
    if v.Obj? && ReadField(v).Success? && ReadOperator(v).Success? {
      OperandsMeaning(v, Bare(ReadField(v).value, ReadOperator(v).value, ReadFlag(v, "not", false),
                              ReadFlag(v, "caseSensitive", false)), c);
    }
  }

  lemma ConjunctionRead(v: Json, op: Conjunction)
    ensures ReadConjunction(v) == Success(op) <==> Holds(v, "op", Str(if op == And then "and" else "or"))
  {
  }

  lemma {:induction false} NodeMeaning(v: Json, node: Node)
    ensures ReadNode(v) == Success(node) <==> ReadsNode(v, node)
    decreases v, 2
  {
    hide ReadComparison, ReadsComparison, ReadGroup, ReadsGroup;
    if v.Obj? && "rules" in v.members {
      if node.Branch? { GroupMeaning(v, node.group); }
    } else {
      if node.Leaf? { ComparisonMeaning(v, node.comparison); }
    }
  }

  lemma {:induction false} GroupMeaning(v: Json, g: Group)
    ensures ReadGroup(v) == Success(g) <==> ReadsGroup(v, g)
    decreases v, 1
  {
    ConjunctionRead(v, g.op);
    FlagRead(v, "not");
    hide ReadConjunction, ReadFlag, ReadNodes, ReadNode, ReadsNode;
    if v.Obj? && "rules" in v.members && v.members["rules"].Arr? {
      NodesMeaning(v.members["rules"].items, g.children);
    }
  }

  lemma {:induction false} NodesMeaning(items: seq<Json>, nodes: seq<Node>)
    ensures ReadNodes(items) == Success(nodes) <==>
            |items| == |nodes| && forall i | 0 <= i < |items| :: ReadsNode(items[i], nodes[i])
    decreases items, 0
  {
    hide ReadNode, ReadsNode;
    if items != [] && nodes != [] {
      NodeMeaning(items[0], nodes[0]);
      NodesMeaning(items[1..], nodes[1..]);
      assert nodes == [nodes[0]] + nodes[1..];
      var tail, rest := items[1..], nodes[1..];
      assert forall i | 0 < i < |items| :: items[i] == tail[i - 1];
      assert forall i | 0 < i < |nodes| :: nodes[i] == rest[i - 1];
      assert forall i | 0 <= i < |tail| :: tail[i] == items[i + 1];
      assert forall i | 0 <= i < |rest| :: rest[i] == nodes[i + 1];
    }
  }

  // ----- The rest of the document -----

  lemma TermMeaning(v: Json, t: OrderTerm)
    ensures ReadTerm(v) == Success(t) <==> ReadsTerm(v, t)
  {
    if v.Obj? && "field" in v.members && v.members["field"].Str? { FieldMeaning(v.members["field"].s); }
    hide IsField, IsCustom, IsCustomName, BuiltinFields, IsBuiltin, HasTagPrefix;
  }

  lemma {:induction false} TermsMeaning(items: seq<Json>, terms: seq<OrderTerm>)
    ensures ReadTerms(items) == Success(terms) <==>
            |items| == |terms| && forall i | 0 <= i < |items| :: ReadsTerm(items[i], terms[i])
    decreases |items|
  {
    hide ReadTerm, ReadsTerm;
    if items != [] && terms != [] {
      var n, m := |items| - 1, |terms| - 1;
      TermMeaning(items[n], terms[m]);
      TermsMeaning(items[..n], terms[..m]);
      assert terms == terms[..m] + [terms[m]];
    }
  }

  lemma OrderMeaning(doc: Json, terms: seq<OrderTerm>)
    ensures ReadOrderBy(doc) == Success(terms) <==> ReadsOrder(doc, terms)
  {
    hide ReadTerms, ReadsTerm;
    if doc.Obj? && "orderBy" in doc.members && doc.members["orderBy"].Arr? {
      TermsMeaning(doc.members["orderBy"].items, terms);
    }
  }

  lemma LimitMeaning(doc: Json, limit: Option<int>)
    ensures ReadLimit(doc) == Success(limit) <==> ReadsLimit(doc, limit)
  {
    if doc.Obj? && "limit" in doc.members && doc.members["limit"].Num? {
      var x := doc.members["limit"].n;
      if limit.Some? { WholeLimit(x, limit.value); }
      WholeLimit(x, AsInt(x));
    }
    hide AsInt, IsInteger;
  }

  lemma WholeLimit(x: real, n: int)
    ensures IsInteger(x) && AsInt(x) == n && 1 <= n <= 100000 <==> x == n as real && 1 <= n <= 100000
  {
    if x == n as real && 1 <= n <= 100000 { TruncateOfInt(n); }
  }

  lemma MatchMeaning(v: Json, g: Group)
    ensures ReadExpression(v) == Success(g) <==> ReadsMatch(v, g)
  {
    GroupMeaning(v, g);
    if |g.children| == 1 {
      assert g.children == [g.children[0]];
      if g.children[0].Leaf? { ComparisonMeaning(v, g.children[0].comparison); }
    }
    hide ReadGroup, ReadsGroup, ReadComparison, ReadsComparison;
  }

  /** parse_rule_json on a parsed document: it is accepted as a rule exactly when it means the rule. */
  lemma RuleMeaning(doc: Json, rule: PlaylistRule)
    ensures ReadRule(doc) == Success(rule) <==> ReadsRule(doc, rule)
  {
    FlagRead(doc, "autoRefresh");
    OrderMeaning(doc, rule.orderBy);
    LimitMeaning(doc, rule.limit);
    hide ReadExpression, ReadsMatch, ReadOrderBy, ReadsOrder, ReadLimit, ReadsLimit, AsInt, CutsOff, ReadFlag;
    if doc.Obj? {
      if "match" in doc.members { MatchMeaning(doc.members["match"], rule.root); }
      if "schemaVersion" in doc.members && doc.members["schemaVersion"].Num? {
        CutsOffIs(doc.members["schemaVersion"].n, 1);
      }
    }
  }

  // ----- The schema -----

  /** How long a text is, in characters. */
  function Characters(text: string): nat {
    |CodePoints(BytesOf(text))|
  }

  predicate OnlyMembers(v: Json, names: set<string>) {
    v.Obj? && v.members.Keys <= names
  }

  /** A flag that is there is a boolean. */
  predicate IsFlag(v: Json, key: string) {
    v.Obj? && (key in v.members ==> v.members[key].Bool?)
  }

  predicate IsLiteral(v: Json) {
    (v.Str? && Characters(v.s) <= 512) || v.Num? || v.Bool?
  }

  predicate MayHoldLiteral(v: Json, key: string) {
    v.Obj? && (key in v.members ==> IsLiteral(v.members[key]))
  }

  predicate AreLiterals(items: seq<Json>) {
    forall i | 0 <= i < |items| :: IsLiteral(items[i])
  }

  predicate MayHoldLiterals(v: Json) {
    v.Obj? && ("values" in v.members ==> v.members["values"].Arr? && AreLiterals(v.members["values"].items))
  }

  ghost predicate ConformsComparison(v: Json) {
    && OnlyMembers(v, {"field", "not", "operator", "value", "from", "to", "values", "caseSensitive"})
    && IsFlag(v, "not") && IsFlag(v, "caseSensitive")
    && MayHoldLiteral(v, "value") && MayHoldLiteral(v, "from") && MayHoldLiteral(v, "to") && MayHoldLiterals(v)
    && "field" in v.members && v.members["field"].Str? && IsField(v.members["field"].s)
    && exists op: FieldOp :: Holds(v, "operator", Str(Spelled(op))) && OperandsFit(v, op)
  }

  /** The operand members follow the operator. */
  predicate OperandsFit(v: Json, op: FieldOp)
    requires v.Obj?
  {
    match op
    case IsNull => Lacks(v, {"value", "values", "from", "to"})
    case IsNotNull => Lacks(v, {"value", "values", "from", "to"})
    case Between => Lacks(v, {"value", "values"}) && "from" in v.members && "to" in v.members
    case In =>
      && Lacks(v, {"value", "from", "to"}) && "values" in v.members && v.members["values"].Arr?
      && 1 <= |v.members["values"].items| <= 256
    case _ => Lacks(v, {"values", "from", "to"}) && "value" in v.members
  }

  ghost predicate ConformsGroup(v: Json)
    decreases v, 0
  {
    && OnlyMembers(v, {"op", "not", "rules"}) && IsFlag(v, "not")
    && (Holds(v, "op", Str("and")) || Holds(v, "op", Str("or")))
    && "rules" in v.members && v.members["rules"].Arr?
    && var items := v.members["rules"].items;
       1 <= |items| <= 64 && forall i | 0 <= i < |items| :: ConformsExpression(items[i])
  }

  ghost predicate ConformsExpression(v: Json)
    decreases v, 1
  {
    ConformsGroup(v) || ConformsComparison(v)
  }

  predicate ConformsTerm(v: Json) {
    && OnlyMembers(v, {"field", "direction"})
    && "field" in v.members && v.members["field"].Str?
    && (IsField(v.members["field"].s) || v.members["field"].s == "random")
    && ("direction" in v.members ==> v.members["direction"] == Str("asc") || v.members["direction"] == Str("desc"))
  }

  predicate IsTextWithin(v: Json, least: nat, most: nat) {
    v.Str? && least <= Characters(v.s) <= most
  }

  predicate ConformsOrder(v: Json) {
    v.Arr? && 1 <= |v.items| <= 8 && forall i | 0 <= i < |v.items| :: ConformsTerm(v.items[i])
  }

  predicate ConformsLimit(v: Json) {
    v.Num? && v.n == v.n.Floor as real && 1.0 <= v.n <= 100000.0
  }

  ghost predicate Conforms(doc: Json) {
    && OnlyMembers(doc, {"schemaVersion", "name", "description", "match", "orderBy", "limit", "autoRefresh"})
    && Holds(doc, "schemaVersion", Num(1.0)) && "match" in doc.members
    && ("name" in doc.members ==> IsTextWithin(doc.members["name"], 1, 128))
    && ("description" in doc.members ==> IsTextWithin(doc.members["description"], 0, 512))
    && IsFlag(doc, "autoRefresh") && ConformsExpression(doc.members["match"])
    && ("orderBy" in doc.members ==> ConformsOrder(doc.members["orderBy"]))
    && ("limit" in doc.members ==> ConformsLimit(doc.members["limit"]))
  }

  // ----- What the parser does not ask -----

  predicate TidyComparison(v: Json) {
    && OnlyMembers(v, {"field", "not", "operator", "value", "from", "to", "values", "caseSensitive"})
    && IsFlag(v, "not") && IsFlag(v, "caseSensitive")
    && MayHoldLiteral(v, "value") && MayHoldLiteral(v, "from") && MayHoldLiteral(v, "to") && MayHoldLiterals(v)
  }

  ghost predicate TidyExpression(v: Json) {
    if v.Obj? && "rules" in v.members then
      && OnlyMembers(v, {"op", "not", "rules"}) && IsFlag(v, "not")
      && (v.members["rules"].Arr? ==>
            forall i | 0 <= i < |v.members["rules"].items| :: TidyExpression(v.members["rules"].items[i]))
    else TidyComparison(v)
  }

  predicate TidyTerm(v: Json) {
    && OnlyMembers(v, {"field", "direction"})
    && ("direction" in v.members ==> v.members["direction"].Str?)
    && ("field" in v.members && v.members["field"].Str? && HasTagPrefix(v.members["field"].s) ==>
          IsField(v.members["field"].s))
  }

  predicate TidyOrder(v: Json) {
    v.Arr? ==> forall i | 0 <= i < |v.items| :: TidyTerm(v.items[i])
  }

  ghost predicate Tidy(doc: Json) {
    && OnlyMembers(doc, {"schemaVersion", "name", "description", "match", "orderBy", "limit", "autoRefresh"})
    && ("schemaVersion" in doc.members ==> doc.members["schemaVersion"] == Num(1.0))
    && ("name" in doc.members ==> IsTextWithin(doc.members["name"], 1, 128))
    && ("description" in doc.members ==> IsTextWithin(doc.members["description"], 0, 512))
    && IsFlag(doc, "autoRefresh")
    && ("match" in doc.members ==> TidyExpression(doc.members["match"]))
    && ("orderBy" in doc.members ==> TidyOrder(doc.members["orderBy"]))
  }

  // ----- Conforming is being accepted and tidy -----

  lemma OperandsAccepted(v: Json, bare: Comparison)
    requires v.Obj?
    ensures ReadOperands(v, bare).Success? <==> OperandsFit(v, bare.op)
  {
    KeysMeaning(v);
    hide FirstKey, OperandFrom, Lacks;
  }

  lemma ComparisonConforms(v: Json)
    ensures ConformsComparison(v) <==> ReadComparison(v).Success? && TidyComparison(v)
  {
    hide ReadOperands, OperandsFit, IsField, Spelled, ReadField, ReadOperator, ReadFlag, IsLiteral, AreLiterals;
    if v.Obj? {
      if "field" in v.members && v.members["field"].Str? { FieldRead(v, v.members["field"].s); }
      if ReadField(v).Success? { FieldRead(v, ReadField(v).value); }
      forall op: FieldOp ensures ReadOperator(v) == Success(op) <==> Holds(v, "operator", Str(Spelled(op))) {
        OperatorRead(v, op);
      }
      if ReadField(v).Success? && ReadOperator(v).Success? {
        OperandsAccepted(v, Bare(ReadField(v).value, ReadOperator(v).value, ReadFlag(v, "not", false),
                                 ReadFlag(v, "caseSensitive", false)));
      }
    }
  }

  lemma {:induction false} NodesAccepted(items: seq<Json>)
    ensures ReadNodes(items).Success? <==> forall i | 0 <= i < |items| :: ReadNode(items[i]).Success?
    decreases |items|
  {
    hide ReadNode;
    if items != [] {
      NodesAccepted(items[1..]);
      var tail := items[1..];
      assert forall i | 0 < i < |items| :: items[i] == tail[i - 1];
      assert forall i | 0 <= i < |tail| :: tail[i] == items[i + 1];
    }
  }

  lemma {:induction false} ExpressionConforms(v: Json)
    ensures ConformsExpression(v) <==> ReadNode(v).Success? && TidyExpression(v)
    decreases v
  {
    if v.Obj? && "rules" in v.members {
      if v.members["rules"].Arr? {
        var items := v.members["rules"].items;
        forall i | 0 <= i < |items|
          ensures ConformsExpression(items[i]) <==> ReadNode(items[i]).Success? && TidyExpression(items[i])
        {
          ExpressionConforms(items[i]);
        }
        GroupConforms(v, items);
      }
    } else {
      ComparisonConforms(v);
    }
    hide ReadGroup, ReadComparison, IsLiteral, IsField, Spelled, OperandsFit;
  }

  lemma GroupConforms(v: Json, items: seq<Json>)
    requires Holds(v, "rules", Arr(items))
    requires forall i | 0 <= i < |items| ::
               ConformsExpression(items[i]) <==> ReadNode(items[i]).Success? && TidyExpression(items[i])
    ensures ConformsGroup(v) <==> ReadGroup(v).Success? && TidyExpression(v)
  {
    ConjunctionRead(v, And);
    ConjunctionRead(v, Or);
    NodesAccepted(items);
    hide ReadNodes, ReadNode, ConformsExpression, ReadConjunction, ReadFlag;
    if ReadConjunction(v).Success? { ConjunctionRead(v, ReadConjunction(v).value); }
  }

  lemma TermConforms(v: Json)
    ensures ConformsTerm(v) <==> ReadTerm(v).Success? && TidyTerm(v)
  {
    if v.Obj? && "field" in v.members && v.members["field"].Str? { FieldMeaning(v.members["field"].s); }
    RandomIsNoTag();
    hide IsCustom, IsCustomName, BuiltinFields, IsBuiltin, HasTagPrefix, IsTagName;
  }

  lemma RandomIsNoTag()
    ensures !HasTagPrefix("random") && !IsBuiltin("random")
  {
  }

  lemma {:induction false} TermsAccepted(items: seq<Json>)
    ensures ReadTerms(items).Success? <==> forall i | 0 <= i < |items| :: ReadTerm(items[i]).Success?
    decreases |items|
  {
    hide ReadTerm;
    if items != [] { TermsAccepted(items[..|items| - 1]); }
  }

  lemma OrderConforms(doc: Json)
    requires doc.Obj? && "orderBy" in doc.members
    ensures ConformsOrder(doc.members["orderBy"]) <==> ReadOrderBy(doc).Success? && TidyOrder(doc.members["orderBy"])
  {
    hide ReadTerms, ReadTerm, ConformsTerm, TidyTerm;
    if doc.members["orderBy"].Arr? {
      var items := doc.members["orderBy"].items;
      TermsAccepted(items);
      forall i | 0 <= i < |items|
        ensures ConformsTerm(items[i]) <==> ReadTerm(items[i]).Success? && TidyTerm(items[i])
      {
        TermConforms(items[i]);
      }
    }
  }

  lemma LimitConforms(doc: Json)
    requires doc.Obj? && "limit" in doc.members
    ensures ConformsLimit(doc.members["limit"]) <==> ReadLimit(doc).Success?
  {
    if doc.members["limit"].Num? {
      var x := doc.members["limit"].n;
      WholeLimit(x, AsInt(x));
      WholeLimit(x, x.Floor);
    }
    hide AsInt, IsInteger;
  }

  lemma MatchAccepted(v: Json)
    ensures ReadExpression(v).Success? <==> ReadNode(v).Success?
  {
    hide ReadGroup;
  }

  lemma OneIsOne(x: real)
    ensures x == 1.0 ==> AsInt(x) == 1
  {
    TruncateOfInt(1);
  }

  lemma OptionalMembers(doc: Json)
    requires doc.Obj?
    ensures "orderBy" !in doc.members ==> ReadOrderBy(doc) == Success([])
    ensures "limit" !in doc.members ==> ReadLimit(doc) == Success(None)
  {
    hide ReadTerms, AsInt, IsInteger;
  }

  /** The schema is what the parser accepts, tidied: every document that conforms is accepted, and an accepted one
      conforms exactly when it is tidy. */
  lemma ConformsExactly(doc: Json)
    ensures Conforms(doc) <==> ReadRule(doc).Success? && Tidy(doc)
  {
    hide ReadExpression, ReadNode, ReadOrderBy, ReadLimit, AsInt, TidyExpression, TidyOrder, IsTextWithin;
    hide ConformsExpression, ConformsOrder, ConformsLimit;
    if doc.Obj? {
      if "match" in doc.members {
        ExpressionConforms(doc.members["match"]);
        MatchAccepted(doc.members["match"]);
      }
      if "orderBy" !in doc.members || "limit" !in doc.members { OptionalMembers(doc); }
      if "orderBy" in doc.members { OrderConforms(doc); }
      if "limit" in doc.members { LimitConforms(doc); }
      if "schemaVersion" in doc.members && doc.members["schemaVersion"].Num? {
        OneIsOne(doc.members["schemaVersion"].n);
      }
    }
  }

  /** A member the format does not know changes nothing, and makes the document one that does not conform. */
  lemma ForeignMember(doc: Json, key: string, v: Json)
    requires doc.Obj?
    requires key !in {"schemaVersion", "name", "description", "match", "orderBy", "limit", "autoRefresh"}
    ensures var more := Obj(doc.members[key := v]); ReadRule(more) == ReadRule(doc) && !Conforms(more)
  {
    hide ReadExpression, ReadTerms, AsInt, IsInteger, ConformsExpression;
    var more := Obj(doc.members[key := v]);
    assert key in more.members;
    assert ReadOrderBy(more) == ReadOrderBy(doc) && ReadLimit(more) == ReadLimit(doc);
  }
}

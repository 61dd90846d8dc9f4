/**
 The JSON form of a smart playlist (desktop/src/library/smart_playlist.cpp): parsing a document into a rule
 and writing a rule back.

 The functions `ReadRule`, `ReadGroup` and `ReadComparison` say which rule a document means or which error it
 gives; the methods `ParseRule`, `ParseGroup` and `ParseComparison` are the source's loops.  `DumpRule` is
 to_json on JSON values.
 */
module RuleJson {
  import opened Wrappers
  import opened Rules
  import opened Doubles
  import opened JsonValues

  datatype RuleError =
    | ComparisonNotObject | NoField | BadCustomName | UnknownField(name: string)
    | NoOperator | UnknownOperator(name: string)
    | TakesNoOperand | BetweenTakesNoValue | BetweenNeedsBoth
    | InTakesOnlyValues(key: string) | InNeedsValues | InTooLong
    | TakesOneValue(key: string) | NeedsValue
    | GroupNotObject | NoGroupOp | BadGroupOp | NoRules | EmptyRules | TooManyRules
    | MatchNotObject | RuleNotObject | BadSchemaVersion | NoMatch
    | BadOrderBy | OrderByTooLong | OrderTermNotObject | OrderTermNoField
    | UnknownOrderField(name: string) | BadDirection
    | LimitNotInteger | LimitTooSmall | LimitTooLarge

  function Find(v: Json, key: string): Option<Json> {
    if v.Obj? && key in v.members then Some(v.members[key]) else None
  }

  predicate Has(v: Json, key: string) {
    v.Obj? && key in v.members
  }

  // ----- Operands -----

  /** operand_from: null, arrays and objects read as an empty text. */
  function OperandFrom(v: Json): Operand {
    match v
    case Str(s) => Text(s)
    case Bool(b) => Flag(b)
    case Num(n) => Number(AsInt(n))
    case _ => NO_OPERAND
  }

  function DumpOperand(o: Operand): Json {
    match o
    case Text(s) => Str(s)
    case Flag(b) => Bool(b)
    case Number(n) => Num(ToDouble(n))
  }

  // ----- Operators -----

  function OperatorName(op: FieldOp): string {
    match op
    case Eq => "eq" case Ne => "ne" case Gt => "gt" case Lt => "lt" case Gte => "gte" case Lte => "lte"
    case Contains => "contains" case NotContains => "notContains"
    case StartsWith => "startsWith" case EndsWith => "endsWith" case Glob => "matches"
    case Between => "between" case In => "in" case IsNull => "isNull" case IsNotNull => "isNotNull"
  }

  function OperatorNamed(s: string): Option<FieldOp> {
    if s == "eq" then Some(Eq) else if s == "ne" then Some(Ne)
    else if s == "gt" then Some(Gt) else if s == "lt" then Some(Lt)
    else if s == "gte" then Some(Gte) else if s == "lte" then Some(Lte)
    else if s == "contains" then Some(Contains) else if s == "notContains" then Some(NotContains)
    else if s == "startsWith" then Some(StartsWith) else if s == "endsWith" then Some(EndsWith)
    else if s == "matches" then Some(Glob) else if s == "between" then Some(Between)
    else if s == "in" then Some(In) else if s == "isNull" then Some(IsNull)
    else if s == "isNotNull" then Some(IsNotNull) else None
  }

  /** The table of operator names is read back the way it is written. */
  lemma OperatorNames(op: FieldOp, s: string)
    ensures OperatorNamed(OperatorName(op)) == Some(op)
    ensures OperatorNamed(s) == Some(op) ==> s == OperatorName(op)
  {
  }

  // ----- Field names -----

  predicate IsNameStart(c: char) {
    'A' <= c <= 'Z' || 'a' <= c <= 'z' || c == '_'
  }

  predicate IsNameChar(c: char) {
    IsNameStart(c) || '0' <= c <= '9'
  }

  /** The pattern ^custom:[A-Za-z_][A-Za-z0-9_]{0,63}$. */
  predicate IsCustomName(field: string) {
    && IsCustom(field)
    && var name := field[|CUSTOM|..];
       && 1 <= |name| <= 64 && IsNameStart(name[0])
       && forall i | 0 <= i < |name| :: IsNameChar(name[i])
  }

  /** valid_custom_field_name. */
  method ValidCustomFieldName(s: string) returns (ok: bool)
    ensures ok <==> IsCustomName(s)
  {
    if |s| <= |"custom:"| { return false; }
    if s[..|"custom:"|] != "custom:" { return false; }
    var name := s[|"custom:"|..];
    if name == [] || |name| > 64 { return false; }
    var first := name[0];
    if !(('A' <= first <= 'Z') || ('a' <= first <= 'z') || first == '_') { return false; }
    for i := 1 to |name|
      invariant forall k | 0 <= k < i :: IsNameChar(name[k])
    {
      var c := name[i];
      if !(('A' <= c <= 'Z') || ('a' <= c <= 'z') || ('0' <= c <= '9') || c == '_') {
        assert !IsNameChar(name[i]);
        return false;
      }
    }
    return true;
  }

  function ReadField(v: Json): Result<string, RuleError> {
    match Find(v, "field")
    case Some(Str(field)) =>
      if IsCustom(field) then if IsCustomName(field) then Success(field) else Failure(BadCustomName)
      else if field in BuiltinFields() then Success(field) else Failure(UnknownField(field))
    case _ => Failure(NoField)
  }

  function ReadOperator(v: Json): Result<FieldOp, RuleError> {
    match Find(v, "operator")
    case Some(Str(name)) =>
      (match OperatorNamed(name) case Some(op) => Success(op) case None => Failure(UnknownOperator(name)))
    case _ => Failure(NoOperator)
  }

  function ReadFlag(v: Json, key: string, default: bool): bool {
    match Find(v, key) case Some(Bool(b)) => b case _ => default
  }

  function ReadString(v: Json, key: string): string {
    match Find(v, key) case Some(Str(s)) => s case _ => ""
  }

  // ----- Comparisons -----

  /** The first of the keys the object has. */
  function FirstKey(v: Json, keys: seq<string>): Option<string> {
    if keys == [] then None else if Has(v, keys[0]) then Some(keys[0]) else FirstKey(v, keys[1..])
  }

  /** The operand fields an operator demands, and the ones it refuses. */
  function ReadOperands(v: Json, c: Comparison): Result<Comparison, RuleError> {
    match c.op
    case IsNull => if FirstKey(v, ["value", "values", "from", "to"]).Some? then Failure(TakesNoOperand) else Success(c)
    case IsNotNull =>
      if FirstKey(v, ["value", "values", "from", "to"]).Some? then Failure(TakesNoOperand) else Success(c)
    case Between =>
      if FirstKey(v, ["value", "values"]).Some? then Failure(BetweenTakesNoValue)
      else if !Has(v, "from") || !Has(v, "to") then Failure(BetweenNeedsBoth)
      else Success(c.(from := OperandFrom(v.members["from"]), to := OperandFrom(v.members["to"])))
    case In =>
      (match FirstKey(v, ["value", "from", "to"])
       case Some(key) => Failure(InTakesOnlyValues(key))
       case None =>
         match Find(v, "values")
         case Some(Arr(items)) =>
           if items == [] then Failure(InNeedsValues)
           else if |items| > 256 then Failure(InTooLong)
           else Success(c.(values := ReadValues(items)))
         case _ => Failure(InNeedsValues))
    case _ =>
      match FirstKey(v, ["values", "from", "to"])
      case Some(key) => Failure(TakesOneValue(key))
      case None =>
        if Has(v, "value") then Success(c.(value := OperandFrom(v.members["value"]))) else Failure(NeedsValue)
  }

  function ReadValues(items: seq<Json>): seq<Operand> {
    seq(|items|, i requires 0 <= i < |items| => OperandFrom(items[i]))
  }

  function ReadComparison(v: Json): Result<Comparison, RuleError> {
    if !v.Obj? then Failure(ComparisonNotObject)
    else match ReadField(v)
      case Failure(e) => Failure(e)
      case Success(field) =>
        match ReadOperator(v)
        case Failure(e) => Failure(e)
        case Success(op) =>
          ReadOperands(v, Bare(field, op, ReadFlag(v, "not", false), ReadFlag(v, "caseSensitive", false)))
  }

  /** A comparison before its operands are filled in. */
  function Bare(field: string, op: FieldOp, negated: bool, caseSensitive: bool): Comparison {
    Comparison(field, op, negated, caseSensitive, NO_OPERAND, NO_OPERAND, NO_OPERAND, [])
  }

  /** parse_comparison. */
  method ParseComparison(v: Json) returns (r: Result<Comparison, RuleError>)
    ensures r == ReadComparison(v)
  {
    hide BuiltinFields, OperatorNamed, IsCustomName;
    if !v.Obj? { return Failure(ComparisonNotObject); }
    if "field" !in v.members || !v.members["field"].Str? { return Failure(NoField); }
    var field := v.members["field"].s;
    if field != [] && CUSTOM <= field {
      var valid := ValidCustomFieldName(field);
      if !valid { return Failure(BadCustomName); }
    } else if field !in BuiltinFields() {
      return Failure(UnknownField(field));
    }
    if "operator" !in v.members || !v.members["operator"].Str? { return Failure(NoOperator); }
    var op := OperatorNamed(v.members["operator"].s);
    if op == None { return Failure(UnknownOperator(v.members["operator"].s)); }
    var c := Bare(field, op.value, false, false);
    if "not" in v.members && v.members["not"].Bool? { c := c.(negated := v.members["not"].b); }
    if "caseSensitive" in v.members && v.members["caseSensitive"].Bool? {
      c := c.(caseSensitive := v.members["caseSensitive"].b);
    }
    r := ParseOperands(v, c);
  }

  /** The operator switch of parse_comparison, with its loop over the IN list. */
  method ParseOperands(v: Json, bare: Comparison) returns (r: Result<Comparison, RuleError>)
    requires v.Obj?
    ensures r == ReadOperands(v, bare)
  {
    var c := bare;
    match c.op {
      case IsNull =>
        var key := FindKey(v, ["value", "values", "from", "to"]);
        if key.Some? { return Failure(TakesNoOperand); }
      case IsNotNull =>
        var key := FindKey(v, ["value", "values", "from", "to"]);
        if key.Some? { return Failure(TakesNoOperand); }
      case Between =>
        var key := FindKey(v, ["value", "values"]);
        if key.Some? { return Failure(BetweenTakesNoValue); }
        if "from" !in v.members || "to" !in v.members { return Failure(BetweenNeedsBoth); }
        c := c.(from := OperandFrom(v.members["from"]));
        c := c.(to := OperandFrom(v.members["to"]));
      case In =>
        var key := FindKey(v, ["value", "from", "to"]);
        if key.Some? { return Failure(InTakesOnlyValues(key.value)); }
        if "values" !in v.members || !v.members["values"].Arr? || v.members["values"].items == [] {
          return Failure(InNeedsValues);
        }
        var items := v.members["values"].items;
        if |items| > 256 { return Failure(InTooLong); }
        var values := [];
        for i := 0 to |items|
          invariant values == ReadValues(items[..i])
        {
          values := values + [OperandFrom(items[i])];
        }
        assert items[..|items|] == items;
        c := c.(values := values);
      case _ =>
        var key := FindKey(v, ["values", "from", "to"]);
        if key.Some? { return Failure(TakesOneValue(key.value)); }
        if "value" !in v.members { return Failure(NeedsValue); }
        c := c.(value := OperandFrom(v.members["value"]));
    }
    return Success(c);
  }

  /** The loops over forbidden operand keys. */
  method FindKey(v: Json, keys: seq<string>) returns (key: Option<string>)
    requires v.Obj?
    ensures key == FirstKey(v, keys)
  {
    assert keys[0..] == keys;
    for i := 0 to |keys|
      invariant FirstKey(v, keys) == FirstKey(v, keys[i..])
    {
      assert keys[i..][0] == keys[i] && keys[i..][1..] == keys[i + 1..];
      if keys[i] in v.members { return Some(keys[i]); }
    }
    return None;
  }

  // ----- Groups -----

  function ReadNode(v: Json): Result<Node, RuleError>
    decreases v, 2
  {
    if Has(v, "rules") then
      match ReadGroup(v) case Failure(e) => Failure(e) case Success(g) => Success(Branch(g))
    else
      match ReadComparison(v) case Failure(e) => Failure(e) case Success(c) => Success(Leaf(c))
  }

  function ReadNodes(items: seq<Json>): (r: Result<seq<Node>, RuleError>)
    ensures r.Success? ==> |r.value| == |items|
    decreases items, 0
  {
    if items == [] then Success([])
    else match ReadNode(items[0])
      case Failure(e) => Failure(e)
      case Success(first) =>
        match ReadNodes(items[1..])
        case Failure(e) => Failure(e)
        case Success(rest) => Success([first] + rest)
  }

  function ReadConjunction(v: Json): Result<Conjunction, RuleError> {
    match Find(v, "op")
    case Some(Str(s)) => if s == "and" then Success(And) else if s == "or" then Success(Or) else Failure(BadGroupOp)
    case _ => Failure(NoGroupOp)
  }

  function ReadGroup(v: Json): Result<Group, RuleError>
    decreases v, 1
  {
    if !v.Obj? then Failure(GroupNotObject)
    else match ReadConjunction(v)
      case Failure(e) => Failure(e)
      case Success(op) =>
        if !Has(v, "rules") || !v.members["rules"].Arr? then Failure(NoRules)
        else
          var items := v.members["rules"].items;
          if items == [] then Failure(EmptyRules)
          else if |items| > 64 then Failure(TooManyRules)
          else match ReadNodes(items)
            case Failure(e) => Failure(e)
            case Success(children) => Success(Group(op, ReadFlag(v, "not", false), children))
  }

  /** parse_group. */
  method ParseGroup(v: Json) returns (r: Result<Group, RuleError>)
    ensures r == ReadGroup(v)
    decreases v
  {
    hide ReadComparison;
    if !v.Obj? { return Failure(GroupNotObject); }
    if "op" !in v.members || !v.members["op"].Str? { return Failure(NoGroupOp); }
    var opStr := v.members["op"].s;
    var op := And;
    if opStr == "and" {
      op := And;
    } else if opStr == "or" {
      op := Or;
    } else {
      return Failure(BadGroupOp);
    }
    var negated := false;
    if "not" in v.members && v.members["not"].Bool? { negated := v.members["not"].b; }
    if "rules" !in v.members || !v.members["rules"].Arr? { return Failure(NoRules); }
    var items := v.members["rules"].items;
    if items == [] { return Failure(EmptyRules); }
    if |items| > 64 { return Failure(TooManyRules); }
    var children: seq<Node> := [];
    NothingRead(ReadNodes(items));
    assert items[0..] == items;
    for i := 0 to |items|
      invariant ReadNodes(items) == Continued(children, ReadNodes(items[i..]))
    {
      var child := items[i];
      assert items[i..][0] == child && items[i..][1..] == items[i + 1..];
      ReadStep(children, items[i..]);
      if child.Obj? && "rules" in child.members {
        var sub := ParseGroup(child);
        if sub.Failure? { return Failure(sub.error); }
        children := children + [Branch(sub.value)];
      } else {
        var sub := ParseComparison(child);
        if sub.Failure? { return Failure(sub.error); }
        children := children + [Leaf(sub.value)];
      }
    }
    assert children + [] == children;
    return Success(Group(op, negated, children));
  }

  function Continued(done: seq<Node>, r: Result<seq<Node>, RuleError>): Result<seq<Node>, RuleError> {
    match r case Failure(e) => Failure(e) case Success(rest) => Success(done + rest)
  }

  lemma NothingRead(r: Result<seq<Node>, RuleError>)
    ensures Continued([], r) == r
  {
    if r.Success? { assert [] + r.value == r.value; }
  }

  lemma ReadStep(done: seq<Node>, items: seq<Json>)
    requires items != []
    ensures match ReadNode(items[0])
            case Failure(e) => Continued(done, ReadNodes(items)) == Failure(e)
            case Success(first) => Continued(done, ReadNodes(items)) == Continued(done + [first], ReadNodes(items[1..]))
  {
    hide ReadNode;
    if ReadNode(items[0]).Success? && ReadNodes(items[1..]).Success? {
      var first, rest := ReadNode(items[0]).value, ReadNodes(items[1..]).value;
      assert done + ([first] + rest) == (done + [first]) + rest;
    }
  }

  /** parse_expression: a bare comparison is wrapped in a group of its own. */
  function ReadExpression(v: Json): Result<Group, RuleError> {
    if !v.Obj? then Failure(MatchNotObject)
    else if Has(v, "rules") then ReadGroup(v)
    else match ReadComparison(v)
      case Failure(e) => Failure(e)
      case Success(c) => Success(Group(And, false, [Leaf(c)]))
  }

  // ----- Order terms and the rule -----

  predicate IsOrderField(field: string) {
    field == "random" || IsCustom(field) || field in BuiltinFields()
  }

  function ReadDirection(v: Json): Result<Direction, RuleError> {
    match Find(v, "direction")
    case Some(Str(s)) =>
      if s == "asc" then Success(Asc) else if s == "desc" then Success(Desc) else Failure(BadDirection)
    case _ => Success(Asc)
  }

  function ReadTerm(v: Json): Result<OrderTerm, RuleError> {
    if !v.Obj? then Failure(OrderTermNotObject)
    else match Find(v, "field")
      case Some(Str(field)) =>
        if !IsOrderField(field) then Failure(UnknownOrderField(field))
        else (match ReadDirection(v) case Failure(e) => Failure(e) case Success(d) => Success(OrderTerm(field, d)))
      case _ => Failure(OrderTermNoField)
  }

  function ReadTerms(items: seq<Json>): (r: Result<seq<OrderTerm>, RuleError>)
    ensures r.Success? ==> |r.value| == |items|
  {
    if items == [] then Success([])
    else
      match ReadTerms(items[..|items| - 1])
      case Failure(e) => Failure(e)
      case Success(terms) =>
        match ReadTerm(items[|items| - 1])
        case Failure(e) => Failure(e)
        case Success(t) => Success(terms + [t])
  }

  function ReadOrderBy(v: Json): Result<seq<OrderTerm>, RuleError> {
    match Find(v, "orderBy")
    case None => Success([])
    case Some(Arr(items)) =>
      if items == [] then Failure(BadOrderBy) else if |items| > 8 then Failure(OrderByTooLong) else ReadTerms(items)
    case Some(_) => Failure(BadOrderBy)
  }

  function ReadLimit(v: Json): Result<Option<int>, RuleError> {
    match Find(v, "limit")
    case None => Success(None)
    case Some(Num(n)) =>
      if !IsInteger(n) then Failure(LimitNotInteger)
      else if AsInt(n) < 1 then Failure(LimitTooSmall)
      else if AsInt(n) > 100000 then Failure(LimitTooLarge)
      else Success(Some(AsInt(n)))
    case Some(_) => Failure(LimitNotInteger)
  }

  function ReadRule(v: Json): Result<PlaylistRule, RuleError> {
    if !v.Obj? then Failure(RuleNotObject)
    else if !Has(v, "schemaVersion") || !v.members["schemaVersion"].Num?
            || AsInt(v.members["schemaVersion"].n) != 1 then
      Failure(BadSchemaVersion)
    else if !Has(v, "match") then Failure(NoMatch)
    else match ReadExpression(v.members["match"])
      case Failure(e) => Failure(e)
      case Success(root) =>
        match ReadOrderBy(v)
        case Failure(e) => Failure(e)
        case Success(terms) =>
          match ReadLimit(v)
          case Failure(e) => Failure(e)
          case Success(limit) =>
            Success(PlaylistRule(ReadString(v, "name"), ReadString(v, "description"), root, terms, limit,
                                 ReadFlag(v, "autoRefresh", true)))
  }

  /** parse_rule_json, from the parsed document on. */
  method ParseRule(root: Json) returns (r: Result<PlaylistRule, RuleError>)
    ensures r == ReadRule(root)
  {
    hide ReadExpression, ReadOrderBy, ReadLimit, AsInt;
    if !root.Obj? { return Failure(RuleNotObject); }
    var m := root.members;
    if "schemaVersion" !in m || !m["schemaVersion"].Num? || AsInt(m["schemaVersion"].n) != 1 {
      return Failure(BadSchemaVersion);
    }
    var name, description, autoRefresh := "", "", true;
    if "name" in m && m["name"].Str? { name := m["name"].s; }
    if "description" in m && m["description"].Str? { description := m["description"].s; }
    if "autoRefresh" in m && m["autoRefresh"].Bool? { autoRefresh := m["autoRefresh"].b; }
    if "match" !in m { return Failure(NoMatch); }
    var group := ParseExpression(m["match"]);
    if group.Failure? { return Failure(group.error); }
    var terms := ParseOrderBy(root);
    if terms.Failure? { return Failure(terms.error); }
    var limit := ParseLimit(root);
    if limit.Failure? { return Failure(limit.error); }
    return Success(PlaylistRule(name, description, group.value, terms.value, limit.value, autoRefresh));
  }

  /** The orderBy member of parse_rule_json. */
  method ParseOrderBy(root: Json) returns (r: Result<seq<OrderTerm>, RuleError>)
    requires root.Obj?
    ensures r == ReadOrderBy(root)
  {
    hide ReadTerms;
    if "orderBy" !in root.members { return Success([]); }
    var v := root.members["orderBy"];
    if !v.Arr? || v.items == [] { return Failure(BadOrderBy); }
    if |v.items| > 8 { return Failure(OrderByTooLong); }
    r := ParseTerms(v.items);
  }

  /** The limit member of parse_rule_json. */
  method ParseLimit(root: Json) returns (r: Result<Option<int>, RuleError>)
    requires root.Obj?
    ensures r == ReadLimit(root)
  {
    hide AsInt, IsInteger;
    if "limit" !in root.members { return Success(None); }
    var v := root.members["limit"];
    if !v.Num? || !IsInteger(v.n) { return Failure(LimitNotInteger); }
    var n := AsInt(v.n);
    if n < 1 { return Failure(LimitTooSmall); }
    if n > 100000 { return Failure(LimitTooLarge); }
    return Success(Some(n));
  }

  method ParseExpression(v: Json) returns (r: Result<Group, RuleError>)
    ensures r == ReadExpression(v)
  {
    hide ReadGroup, ReadComparison;
    if !v.Obj? { return Failure(MatchNotObject); }
    if "rules" in v.members {
      r := ParseGroup(v);
      return;
    }
    var c := ParseComparison(v);
    if c.Failure? { return Failure(c.error); }
    return Success(Group(And, false, [Leaf(c.value)]));
  }

  /** The orderBy loop of parse_rule_json. */
  method ParseTerms(items: seq<Json>) returns (r: Result<seq<OrderTerm>, RuleError>)
    ensures r == ReadTerms(items)
  {
    hide BuiltinFields;
    var terms: seq<OrderTerm> := [];
    for i := 0 to |items|
      invariant ReadTerms(items[..i]) == Success(terms)
    {
      var term := items[i];
      assert items[..i + 1][..i] == items[..i];
      if !term.Obj? { TermFails(items, i + 1); return Failure(OrderTermNotObject); }
      if "field" !in term.members || !term.members["field"].Str? {
        TermFails(items, i + 1);
        return Failure(OrderTermNoField);
      }
      var field := term.members["field"].s;
      if field != "random" && !(CUSTOM <= field) && field !in BuiltinFields() {
        TermFails(items, i + 1);
        return Failure(UnknownOrderField(field));
      }
      var direction := Asc;
      if "direction" in term.members && term.members["direction"].Str? {
        var s := term.members["direction"].s;
        if s == "asc" {
          direction := Asc;
        } else if s == "desc" {
          direction := Desc;
        } else {
          TermFails(items, i + 1);
          return Failure(BadDirection);
        }
      }
      terms := terms + [OrderTerm(field, direction)];
    }
    assert items[..|items|] == items;
    return Success(terms);
  }

  lemma {:induction false} TermFails(items: seq<Json>, n: nat)
    requires n <= |items| && ReadTerms(items[..n]).Failure?
    ensures ReadTerms(items) == ReadTerms(items[..n])
    decreases |items|
  {
    hide ReadTerm;
    if n < |items| {
      assert items[..|items| - 1][..n] == items[..n];
      TermFails(items[..|items| - 1], n);
    } else {
      assert items[..n] == items;
    }
  }

  // ----- Writing a rule -----

  function DumpValues(values: seq<Operand>): seq<Json> {
    seq(|values|, i requires 0 <= i < |values| => DumpOperand(values[i]))
  }

  function With(m: map<string, Json>, flag: bool, key: string, v: Json): map<string, Json> {
    if flag then m[key := v] else m
  }

  function DumpOperands(c: Comparison): map<string, Json> {
    match c.op
    case IsNull => map[]
    case IsNotNull => map[]
    case Between => map["from" := DumpOperand(c.from), "to" := DumpOperand(c.to)]
    case In => map["values" := Arr(DumpValues(c.values))]
    case _ => map["value" := DumpOperand(c.value)]
  }

  /** dump_comparison. */
  function DumpComparison(c: Comparison): Json {
    var head := map["field" := Str(c.field), "operator" := Str(OperatorName(c.op))];
    Obj(With(With(head, c.negated, "not", Bool(true)), c.caseSensitive, "caseSensitive", Bool(true)) + DumpOperands(c))
  }

  /** dump_match. */
  function DumpNode(node: Node): Json
    decreases node, 1
  {
    match node case Leaf(c) => DumpComparison(c) case Branch(g) => GroupObject(g, DumpNodes(g.children))
  }

  function DumpNodes(nodes: seq<Node>): (items: seq<Json>)
    ensures |items| == |nodes|
    decreases nodes, 0
  {
    if nodes == [] then [] else [DumpNode(nodes[0])] + DumpNodes(nodes[1..])
  }

  /** dump_group. */
  function GroupObject(g: Group, items: seq<Json>): Json {
    var op := if g.op == And then "and" else "or";
    Obj(With(map["op" := Str(op), "rules" := Arr(items)], g.negated, "not", Bool(true)))
  }

  function DumpTerm(t: OrderTerm): Json {
    Obj(map["field" := Str(t.field), "direction" := Str(if t.direction == Asc then "asc" else "desc")])
  }

  function DumpTerms(terms: seq<OrderTerm>): seq<Json> {
    seq(|terms|, i requires 0 <= i < |terms| => DumpTerm(terms[i]))
  }

  /** to_json, up to the text of the document. */
  function DumpRule(rule: PlaylistRule): Json {
    var m := map["schemaVersion" := Num(1.0), "match" := DumpNode(Branch(rule.root))];
    var named := With(With(With(m, rule.name != "", "name", Str(rule.name)),
                           rule.description != "", "description", Str(rule.description)),
                      !rule.autoRefresh, "autoRefresh", Bool(false));
    Obj(With(With(named, rule.orderBy != [], "orderBy", Arr(DumpTerms(rule.orderBy))),
             rule.limit.Some?, "limit", Num(if rule.limit.Some? then ToDouble(rule.limit.value) else 0.0)))
  }
}

/**
 A rule that was loaded and cannot be loaded again for the number of its values: to_json writes the direction of
 every order term, and parse_rule_json takes a term without one (desktop/src/library/smart_playlist.cpp), so a
 document just below the parser's element limit grows past it (desktop/src/core/json/json.hpp: max_elements).
 */
module CrowdedRule {
  import opened Wrappers
  import opened Ordering
  import opened Rules
  import opened Doubles
  import opened Utf8
  import opened JsonValues
  import opened JsonText
  import opened JsonRoundTrip
  import opened RuleJson
  import opened RuleJsonRoundTrip
  import opened RuleStorage
  import opened RuleLimits

  // ----- Copies -----

  function Copies<T>(n: nat, x: T): (s: seq<T>)
    ensures |s| == n && forall i | 0 <= i < n :: s[i] == x
  {
    seq(n, i => x)
  }

  lemma OneLess<T>(n: nat, x: T)
    requires n > 0
    ensures Copies(n, x)[0] == x && Copies(n, x)[1..] == Copies(n - 1, x)
  {
  }

  lemma {:induction false} CopiesElements(n: nat, v: Json)
    ensures ItemElements(Copies(n, v)) == n * Elements(v)
  {
    hide Elements, Copies;
    if n > 0 {
      OneLess(n, v);
      CopiesElements(n - 1, v);
      OneMore(n - 1, Elements(v));
    }
  }

  lemma {:induction false} CopiesSize(platform: Platform, n: nat, v: Json)
    ensures |DumpItems(platform, Copies(n, v))| <= n * (|Dump(platform, v)| + 1)
  {
    hide Dump, Copies;
    if n > 0 {
      OneLess(n, v);
      CopiesSize(platform, n - 1, v);
      OneMore(n - 1, |Dump(platform, v)| + 1);
    }
  }

  /** A list of copies. */
  lemma ListSize(platform: Platform, n: nat, v: Json)
    ensures Elements(Arr(Copies(n, v))) == 1 + n * Elements(v)
    ensures |Dump(platform, Arr(Copies(n, v)))| <= n * (|Dump(platform, v)| + 1) + 2
  {
    CopiesElements(n, v);
    CopiesSize(platform, n, v);
    hide ItemElements, DumpItems, Copies;
  }

  lemma {:induction false} CopiesOfNode(n: nat, node: Node)
    ensures DumpNodes(Copies(n, node)) == Copies(n, DumpNode(node))
    ensures CanonicalNode(node) ==> CanonicalNodes(Copies(n, node))
    ensures TextNode(node) ==> TextNodes(Copies(n, node))
    ensures n > 0 ==> TallestOf(Copies(n, node)) == Height(node)
  {
    hide DumpNode, CanonicalNode, TextNode, Height;
    if n > 0 {
      OneLess(n, node);
      CopiesOfNode(n - 1, node);
    }
  }

  // ----- Objects with a few large members -----

  /** However many members hold one value each: what the others hold is added. */
  lemma {:induction false} MembersCount(v: Json, keys: seq<string>, a: string, b: string)
    requires HasNames(v, keys) && a != b && a in v.members && b in v.members
    requires forall i, j | 0 <= i < j < |keys| :: keys[i] != keys[j]
    requires forall k | k in keys && k != a && k != b :: Elements(v.members[k]) == 1
    ensures MemberElements(v, keys) == |keys| + (if a in keys then Elements(v.members[a]) - 1 else 0)
                                              + (if b in keys then Elements(v.members[b]) - 1 else 0)
    decreases |keys|
  {
    hide Elements;
    if keys != [] {
      assert forall k :: k in keys <==> k == keys[0] || k in keys[1..];
      MembersCount(v, keys[1..], a, b);
    }
  }

  lemma ObjectCount(v: Json, a: string, b: string)
    requires v.Obj? && a != b && a in v.members && b in v.members
    requires forall k | k in v.members && k != a && k != b :: Elements(v.members[k]) == 1
    ensures Elements(v) == |v.members.Keys| - 1 + Elements(v.members[a]) + Elements(v.members[b])
  {
    hide *;
    var keys := SortedKeys(v.members.Keys);
    ListLength(keys, v.members.Keys);
    AllListed(v, keys);
    CountOfObject(v, keys);
    MembersCount(v, keys, a, b);
  }

  lemma CountOfObject(v: Json, keys: seq<string>)
    requires v.Obj? && keys == SortedKeys(v.members.Keys) && HasNames(v, keys)
    ensures Elements(v) == 1 + MemberElements(v, keys)
  {
  }

  lemma {:induction false} MembersSizeBut(platform: Platform, v: Json, keys: seq<string>, key: string, bound: nat)
    requires HasNames(v, keys) && key in v.members && forall k | k in keys :: |k| <= 20
    requires forall i, j | 0 <= i < j < |keys| :: keys[i] != keys[j]
    requires forall k | k in keys && k != key :: |Dump(platform, v.members[k])| <= bound
    ensures |DumpMembers(platform, v, keys)| <=
            |keys| * (bound + 200) + if key in keys then |Dump(platform, v.members[key])| else 0
    decreases |keys|
  {
    hide Dump, DumpMembers;
    if keys == [] {
      assert DumpMembers(platform, v, []) == [] by { NothingToDump(platform, v); }
    } else {
      assert forall k :: k in keys <==> k == keys[0] || k in keys[1..];
      MembersSizeBut(platform, v, keys[1..], key, bound);
      FirstMemberSize(platform, v, keys, if keys[0] == key then |Dump(platform, v.members[key])| else bound);
      OneMore(|keys| - 1, bound + 200);
    }
  }

  lemma ObjectSizeBut(platform: Platform, v: Json, key: string, bound: nat)
    requires v.Obj? && key in v.members && forall k | k in v.members :: |k| <= 20
    requires forall k | k in v.members && k != key :: |Dump(platform, v.members[k])| <= bound
    ensures |Dump(platform, v)| <= |Dump(platform, v.members[key])| + |v.members.Keys| * (bound + 200) + 2
  {
    var keys := SortedKeys(v.members.Keys);
    ListLength(keys, v.members.Keys);
    AllListed(v, keys);
    MembersSizeBut(platform, v, keys, key, bound);
    assert |Dump(platform, v)| == |DumpMembers(platform, v, keys)| + 2 by { ObjectLength(platform, v, keys); }
    hide DumpMembers, Dump;
  }

  /** An object of short words, but for one member. */
  lemma WordsBut(platform: Platform, v: Json, key: string, other: string)
    requires v.Obj? && key in v.members && other in v.members && key != other
    requires forall k | k in v.members :: |k| <= 20
    requires forall k | k in v.members && k != key :: v.members[k].Str? && |v.members[k].s| <= 6
    ensures Elements(v) == |v.members.Keys| + Elements(v.members[key])
    ensures |Dump(platform, v)| <= |Dump(platform, v.members[key])| + |v.members.Keys| * 240 + 2
  {
    hide *;
    forall k | k in v.members && k != key
      ensures Elements(v.members[k]) == 1 && |Dump(platform, v.members[k])| <= 40 {
      WordSize(platform, v.members[k].s);
    }
    ObjectCount(v, key, other);
    ObjectSizeBut(platform, v, key, 40);
  }

  lemma WordSize(platform: Platform, s: string)
    ensures Elements(Str(s)) == 1 && |Dump(platform, Str(s))| <= 6 * |s| + 2
  {
    StringSize(s);
    hide Escape, BytesOf;
  }

  // ----- The parts of the rule -----

  /** A comparison with 219 values to choose from. */
  function Wide(): Comparison {
    Comparison("title", In, false, false, NO_OPERAND, NO_OPERAND, NO_OPERAND, Copies(219, NO_OPERAND))
  }

  /** A group of n copies of a node. */
  function Many(n: nat, node: Node): Node {
    Branch(Group(And, false, Copies(n, node)))
  }

  lemma WideIsCanonical()
    ensures CanonicalComparison(Wide()) && TextComparison(Wide()) && Height(Leaf(Wide())) == 2
    ensures DumpComparison(Wide()) ==
            Obj(map["field" := Str("title"), "operator" := Str("in"), "values" := Arr(Copies(219, Str("")))])
  {
    EmptyIsText();
    AsciiIsText("title");
    assert "title" in BuiltinFields() && !IsCustom("title");
    assert DumpValues(Wide().values) == Copies(219, Str(""));
    hide IsText, BuiltinFields, IsCustom, Copies;
  }

  lemma WideSize(platform: Platform)
    ensures Elements(DumpComparison(Wide())) == 223 && |Dump(platform, DumpComparison(Wide()))| <= 1500
  {
    hide *;
    WideIsCanonical();
    var v := DumpComparison(Wide());
    ListSize(platform, 219, Str(""));
    WordSize(platform, "");
    assert v.members.Keys == {"field", "operator", "values"} && |v.members.Keys| == 3;
    WordsBut(platform, v, "values", "field");
  }

  lemma ManyIsCanonical(n: nat, node: Node)
    requires 1 <= n <= 64 && CanonicalNode(node) && TextNode(node)
    ensures CanonicalNode(Many(n, node)) && TextNode(Many(n, node)) && Height(Many(n, node)) == 2 + Height(node)
    ensures DumpNode(Many(n, node)) == Obj(map["op" := Str("and"), "rules" := Arr(Copies(n, DumpNode(node)))])
  {
    CopiesOfNode(n, node);
    hide Copies, CanonicalNodes, TextNodes, TallestOf, DumpNodes;
  }

  lemma ManySize(platform: Platform, n: nat, node: Node)
    requires 1 <= n <= 64 && CanonicalNode(node) && TextNode(node)
    ensures Elements(DumpNode(Many(n, node))) == 3 + n * Elements(DumpNode(node))
    ensures |Dump(platform, DumpNode(Many(n, node)))| <= n * (|Dump(platform, DumpNode(node))| + 1) + 500
  {
    hide *;
    ManyIsCanonical(n, node);
    var v := DumpNode(Many(n, node));
    ListSize(platform, n, DumpNode(node));
    assert v.members.Keys == {"op", "rules"} && |v.members.Keys| == 2;
    WordsBut(platform, v, "rules", "op");
  }

  /** 56 groups of 16 such comparisons. */
  function Crowd(): Node {
    Many(56, Many(16, Leaf(Wide())))
  }

  lemma CrowdSize(platform: Platform)
    ensures CanonicalNode(Crowd()) && TextNode(Crowd()) && Height(Crowd()) == 6
    ensures Elements(DumpNode(Crowd())) == 199_979 && |Dump(platform, DumpNode(Crowd()))| <= 2_000_000
  {
    hide *;
    WideNode();
    WideSize(platform);
    ManyIsCanonical(16, Leaf(Wide()));
    ManySize(platform, 16, Leaf(Wide()));
    var many := Many(16, Leaf(Wide()));
    ManyIsCanonical(56, many);
    ManySize(platform, 56, many);
    CrowdIs();
  }

  lemma CrowdIs()
    ensures Crowd() == Many(56, Many(16, Leaf(Wide())))
  {
  }

  lemma WideNode()
    ensures CanonicalNode(Leaf(Wide())) && TextNode(Leaf(Wide())) && Height(Leaf(Wide())) == 2
    ensures DumpNode(Leaf(Wide())) == DumpComparison(Wide())
  {
    WideIsCanonical();
    hide Wide, DumpComparison, CanonicalComparison, TextComparison;
  }

  // ----- The document, with and without directions -----

  const RANDOM := OrderTerm("random", Asc)

  /** The order term without its direction. */
  const BARE := Obj(map["field" := Str("random")])

  function CrowdedRule(): PlaylistRule {
    PlaylistRule("", "", Crowd().group, Copies(8, RANDOM), None, true)
  }

  function Document(term: Json): Json {
    Obj(map["schemaVersion" := Num(1.0), "match" := DumpNode(Crowd()), "orderBy" := Arr(Copies(8, term))])
  }

  lemma DocumentMembers(term: Json)
    ensures var doc := Document(term);
      && doc.Obj? && doc.members.Keys == {"schemaVersion", "match", "orderBy"} && |doc.members.Keys| == 3
      && doc.members["schemaVersion"] == Num(1.0) && doc.members["match"] == DumpNode(Crowd())
      && doc.members["orderBy"] == Arr(Copies(8, term))
  {
    hide DumpNode, Copies, Crowd;
    var keys := Document(term).members.Keys;
    assert keys == {"schemaVersion", "match", "orderBy"};
  }

  /** The rule is written as the document with directions. */
  lemma RuleIsWritten()
    ensures DumpRule(CrowdedRule()) == Document(DumpTerm(RANDOM))
    ensures CrowdedRule() == PlaylistRule("", "", Crowd().group, Copies(8, RANDOM), None, true)
    ensures Branch(Crowd().group) == Crowd()
  {
    assert DumpTerms(Copies(8, RANDOM)) == Copies(8, DumpTerm(RANDOM));
    hide DumpNode, DumpTerm, DumpTerms;
  }

  lemma TermSizes(platform: Platform)
    ensures Elements(BARE) == 2 && |Dump(platform, BARE)| <= 700
    ensures Elements(DumpTerm(RANDOM)) == 3 && |Dump(platform, DumpTerm(RANDOM))| <= 700
  {
    hide *;
    TermObjects();
    var v, w := BARE, DumpTerm(RANDOM);
    WordSize(platform, "random");
    assert v.members.Keys == {"field"} && |v.members.Keys| == 1;
    assert w.members.Keys == {"field", "direction"} && |w.members.Keys| == 2;
    OneMember(v, "field");
    ObjectSizeBut(platform, v, "field", 40);
    WordsBut(platform, w, "field", "direction");
  }

  lemma TermObjects()
    ensures BARE == Obj(map["field" := Str("random")])
    ensures DumpTerm(RANDOM) == Obj(map["field" := Str("random"), "direction" := Str("asc")])
  {
  }

  lemma OneMember(v: Json, key: string)
    requires v.Obj? && v.members.Keys == {key}
    ensures Elements(v) == 1 + Elements(v.members[key])
  {
    var keys := SortedKeys(v.members.Keys);
    ListLength(keys, v.members.Keys);
    AllListed(v, keys);
    assert |v.members.Keys| == 1 && keys[0] in keys;
    ElementsUnfold(v, keys);
    hide MemberElements;
  }

  lemma DocumentSize(platform: Platform, term: Json)
    requires |Dump(platform, term)| <= 700
    ensures Elements(Document(term)) == 199_982 + 8 * Elements(term)
    ensures |Dump(platform, Document(term))| <= DEFAULT_LIMITS.maxBytes
  {
    hide *;
    CrowdSize(platform);
    DocumentMembers(term);
    ListSize(platform, 8, term);
    NumberSize(platform);
    NumberCount();
    ObjectCount(Document(term), "match", "orderBy");
    ObjectSizeBut(platform, Document(term), "match", 6000);
    ParserLimits();
  }

  lemma ParserLimits()
    ensures DEFAULT_LIMITS.maxBytes > 8_000_000 && DEFAULT_LIMITS.maxElements == 200_000
    ensures DEFAULT_LIMITS.maxDepth == 64
  {
  }

  lemma NumberCount()
    ensures Elements(Num(1.0)) == 1
  {
  }

  /** Without directions the document means the same rule. */
  lemma DocumentReads(platform: Platform)
    ensures ReadRule(Document(BARE)) == Success(CrowdedRule())
  {
    hide *;
    CrowdSize(platform);
    DocumentMembers(BARE);
    RuleIsWritten();
    GroupRoundTrip(Crowd().group);
    TermsRead(8);
    OneIsRead();
    PartsRead(Document(BARE), DumpNode(Crowd()), Copies(8, BARE), Crowd().group, Copies(8, RANDOM));
  }

  lemma OneIsRead()
    ensures AsInt(1.0) == 1
  {
    TruncateOfInt(1);
  }

  lemma PartsRead(doc: Json, v: Json, items: seq<Json>, root: Group, terms: seq<OrderTerm>)
    requires doc.Obj? && doc.members.Keys == {"schemaVersion", "match", "orderBy"}
    requires doc.members["schemaVersion"] == Num(1.0) && AsInt(1.0) == 1
    requires doc.members["match"] == v && Has(v, "rules") && ReadGroup(v) == Success(root)
    requires doc.members["orderBy"] == Arr(items) && 0 < |items| <= 8 && ReadTerms(items) == Success(terms)
    ensures ReadRule(doc) == Success(PlaylistRule("", "", root, terms, None, true))
  {
    hide ReadGroup, AsInt, ReadTerms;
    assert "description" !in doc.members && "autoRefresh" !in doc.members;
    assert "name" !in doc.members && "limit" !in doc.members;
    assert ReadExpression(v) == Success(root);
    assert ReadOrderBy(doc) == Success(terms) && ReadLimit(doc) == Success(None);
    hide ReadExpression, ReadOrderBy, ReadLimit;
  }

  lemma {:induction false} TermsRead(n: nat)
    ensures ReadTerms(Copies(n, BARE)) == Success(Copies(n, RANDOM))
  {
    if n > 0 {
      TermsRead(n - 1);
      assert Copies(n, BARE)[..n - 1] == Copies(n - 1, BARE);
      assert Copies(n - 1, RANDOM) + [RANDOM] == Copies(n, RANDOM);
      BareReads();
      hide ReadTerm, Copies;
    }
  }

  lemma BareReads()
    ensures ReadTerm(BARE) == Success(RANDOM)
  {
    hide BuiltinFields, IsCustom;
  }

  /** It is a document of well-formed texts whose numbers survive. */
  lemma DocumentFits(platform: Platform)
    requires Faithful(platform)
    ensures var doc := Document(BARE);
            AllTexts(doc) && NumbersSurvive(platform, doc) && FitsDepth(doc, DEFAULT_LIMITS.maxDepth)
  {
    hide *;
    ParserLimits();
    DocumentMembers(BARE);
    CrowdSize(platform);
    DumpedNodeText(Crowd());
    DumpedNode(platform, Crowd());
    NodeDepth(Crowd(), 63);
    NumberMember(platform, 63);
    TermsFit(platform);
    WordsAreText("schemaVersion"); WordsAreText("match"); WordsAreText("orderBy");
    ObjectTexts(platform, Document(BARE));
    ObjectDepth(Document(BARE), 64);
  }

  lemma TermsFit(platform: Platform)
    ensures var list := Arr(Copies(8, BARE));
            AllTexts(list) && NumbersSurvive(platform, list) && FitsDepth(list, 63)
  {
    WordsAreText("field");
    AsciiIsText("random");
    StringMember(platform, "random", 61);
    hide IsText, Copies;
    assert AllTexts(BARE) && NumbersSurvive(platform, BARE) && FitsDepth(BARE, 62);
    hide BARE;
  }

  /** A text within the limits, loaded as a rule whose own text has 200,006 values: it is not loaded again, though
      no byte too long. */
  lemma CrowdedRuleIsLost(platform: Platform) returns (text: Bytes, rule: PlaylistRule)
    requires Faithful(platform)
    ensures LoadRule(platform, text) == Success(rule)
    ensures Elements(DumpRule(rule)) == DEFAULT_LIMITS.maxElements + 6
    ensures |StoreRule(platform, rule)| <= DEFAULT_LIMITS.maxBytes
    ensures LoadRule(platform, StoreRule(platform, rule)) != Success(rule)
  {
    hide *;
    ParserLimits();
    TermSizes(platform);
    DocumentSize(platform, BARE);
    DocumentSize(platform, DumpTerm(RANDOM));
    DocumentFits(platform);
    DocumentReads(platform);
    RuleIsWritten();
    text, rule := Dump(platform, Document(BARE)), CrowdedRule();
    assert KeepsLimits(platform, DEFAULT_LIMITS, Document(BARE)) by { Keeps(platform, DEFAULT_LIMITS, Document(BARE)); }
    ParseOfDump(platform, DEFAULT_LIMITS, Document(BARE));
    Loads(platform, text, Document(BARE), rule);
    LoadedRuleSurvives(platform, text, rule);
    StoredText(platform, rule);
  }

  lemma Keeps(platform: Platform, limits: Limits, v: Json)
    ensures KeepsLimits(platform, limits, v) <==>
            FitsDepth(v, limits.maxDepth) && Elements(v) <= limits.maxElements
            && |Dump(platform, v)| <= limits.maxBytes
  {
  }

  lemma Loads(platform: Platform, text: Bytes, doc: Json, rule: PlaylistRule)
    requires ReadDocument(platform, DEFAULT_LIMITS, text) == Success(doc) && ReadRule(doc) == Success(rule)
    ensures LoadRule(platform, text) == Success(rule)
  {
    hide ReadDocument, ReadRule;
  }

  lemma StoredText(platform: Platform, rule: PlaylistRule)
    ensures StoreRule(platform, rule) == Dump(platform, DumpRule(rule))
  {
  }
}

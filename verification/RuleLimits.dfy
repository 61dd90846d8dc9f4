/**
 Rules that the parser's limits keep from being loaded again: one with too many nested groups, and one that was
 loaded and whose document has grown past the size limit (desktop/src/core/json/json.hpp: max_depth, max_bytes).
 */
module RuleLimits {
  import opened Wrappers
  import opened Ordering
  import opened Utf8
  import opened Numbers
  import opened Rules
  import opened Doubles
  import opened JsonValues
  import opened JsonText
  import opened JsonRoundTrip
  import opened RuleJson
  import opened RuleJsonRoundTrip
  import opened RuleStorage

  /** What the parser is given unless a caller says otherwise: 8 MiB, 64 levels, 200,000 values, comments and trailing
      commas. */
  lemma DefaultLimits()
    ensures DEFAULT_LIMITS.maxBytes == 8 * 1024 * 1024 && DEFAULT_LIMITS.maxDepth == 64
    ensures DEFAULT_LIMITS.maxElements == 200_000 && DEFAULT_LIMITS.comments && DEFAULT_LIMITS.trailingCommas
  {
  }

  // ----- A rule too deep -----

  /** n groups, one inside the other, around a comparison. */
  function Nest(n: nat, c: Comparison): Node {
    if n == 0 then Leaf(c) else Branch(Group(And, false, [Nest(n - 1, c)]))
  }

  lemma {:induction false} NestHeight(n: nat, c: Comparison)
    ensures Height(Nest(n, c)) == 2 * n + Height(Leaf(c))
    ensures CanonicalComparison(c) ==> CanonicalNode(Nest(n, c))
  {
    hide CanonicalComparison;
    if n > 0 {
      NestHeight(n - 1, c);
      var nodes := [Nest(n - 1, c)];
      assert nodes[1..] == [];
      assert TallestOf(nodes) == Max(Height(nodes[0]), 0);
      HeightIsPositive(nodes[0]);
      assert CanonicalNodes([]);
    }
  }

  /** Thirty-one nested groups are as deep as the parser reads; a rule with a thirty-second one is canonical, but
      its text is refused. */
  lemma DeepRuleIsLost(platform: Platform, c: Comparison, name: string)
    requires Faithful(platform) && CanonicalComparison(c) && c.op != In
    ensures var rule := PlaylistRule(name, "", Nest(32, c).group, [], None, true);
            && CanonicalRule(rule)
            && Height(Branch(rule.root)) == 65
            && LoadRule(platform, StoreRule(platform, rule)) != Success(rule)
    ensures Height(Nest(31, c)) == DEFAULT_LIMITS.maxDepth - 1
  {
    NestHeight(32, c);
    NestHeight(31, c);
    hide Height, LoadRule, StoreRule, CanonicalComparison;
    var rule := PlaylistRule(name, "", Nest(32, c).group, [], None, true);
    assert Branch(rule.root) == Nest(32, c);
    assert Height(Leaf(c)) == 1 by { LeafHeight(c); }
    SurvivesStorage(platform, rule);
  }

  lemma LeafHeight(c: Comparison)
    ensures Height(Leaf(c)) == if c.op == In && c.values != [] then 2 else 1
  {
  }

  // ----- How long a text is -----

  lemma {:induction false} EscapeSize(cps: seq<int>)
    requires forall i | 0 <= i < |cps| :: IsScalar(cps[i])
    ensures |EscapeAll(cps)| <= 6 * |cps|
  {
    if cps != [] { EscapeSize(cps[1..]); }
  }

  lemma StringSize(s: string)
    ensures |Escape(BytesOf(s))| <= 6 * |s| + 2
  {
    EscapeSize(CodePoints(BytesOf(s)));
    hide EscapeAll, CodePoints;
  }

  /** A text of n times the letter a is written with two quotes. */
  lemma {:induction false} LettersSize(m: Bytes)
    requires forall i | 0 <= i < |m| :: m[i] == 0x61
    ensures WalkIsClean(m) && |EscapeAll(CodePoints(m))| == |m|
  {
    if m != [] {
      LeadLengthUnique(m, 1);
      LettersSize(m[1..]);
      assert HeadPoint(m) == 0x61 && StepLength(m) == 1;
      var cps := CodePoints(m);
      assert cps[0] == 0x61 && cps[1..] == CodePoints(m[1..]);
    }
  }

  function Letters(n: nat): string {
    seq(n, i => 'a')
  }

  lemma LettersText(platform: Platform, n: nat)
    ensures IsText(Letters(n)) && |Dump(platform, Str(Letters(n)))| == n + 2
  {
    LettersSize(BytesOf(Letters(n)));
    CleanWalkIsUtf8(BytesOf(Letters(n)));
  }

  /** Two objects whose members are written equally long but for one. */
  lemma {:induction false} MembersDiffer(platform: Platform, v: Json, w: Json, keys: seq<string>, key: string, d: nat)
    requires HasNames(v, keys) && HasNames(w, keys) && key in v.members && key in w.members
    requires forall i, j | 0 <= i < j < |keys| :: keys[i] != keys[j]
    requires forall k | k in keys && k != key :: |Dump(platform, w.members[k])| == |Dump(platform, v.members[k])|
    requires |Dump(platform, w.members[key])| == |Dump(platform, v.members[key])| + d
    ensures |DumpMembers(platform, w, keys)| == |DumpMembers(platform, v, keys)| + if key in keys then d else 0
    decreases |keys|
  {
    if keys != [] {
      assert forall k :: k in keys <==> k == keys[0] || k in keys[1..];
      MembersDiffer(platform, v, w, keys[1..], key, d);
      hide Dump, Escape, BytesOf;
    }
  }

  lemma ObjectsDiffer(platform: Platform, v: Json, w: Json, key: string, d: nat)
    requires v.Obj? && w.Obj? && v.members.Keys == w.members.Keys && key in v.members
    requires forall k | k in v.members && k != key :: |Dump(platform, w.members[k])| == |Dump(platform, v.members[k])|
    requires |Dump(platform, w.members[key])| == |Dump(platform, v.members[key])| + d
    ensures |Dump(platform, w)| == |Dump(platform, v)| + d
  {
    var keys := SortedKeys(v.members.Keys);
    AllListed(v, keys);
    AllListed(w, keys);
    MembersDiffer(platform, v, w, keys, key, d);
    hide DumpMembers;
  }

  lemma {:induction false} MemberInside(platform: Platform, v: Json, keys: seq<string>, key: string)
    requires HasNames(v, keys) && key in keys
    ensures |DumpMembers(platform, v, keys)| >= |Dump(platform, v.members[key])|
    decreases |keys|
  {
    hide Dump, Escape, BytesOf;
    if keys[0] != key {
      assert key in keys[1..];
      MemberInside(platform, v, keys[1..], key);
    }
  }

  lemma {:induction false} MembersSize(platform: Platform, v: Json, keys: seq<string>, bound: nat)
    requires HasNames(v, keys)
    requires forall k | k in keys :: |k| <= 20 && |Dump(platform, v.members[k])| <= bound
    ensures |DumpMembers(platform, v, keys)| <= |keys| * (bound + 200)
    decreases |keys|
  {
    hide Dump, DumpMembers;
    if keys == [] {
      assert DumpMembers(platform, v, []) == [] by { NothingToDump(platform, v); }
    } else {
      MembersSize(platform, v, keys[1..], bound);
      FirstMemberSize(platform, v, keys, bound);
      OneMore(|keys| - 1, bound + 200);
    }
  }

  lemma NothingToDump(platform: Platform, v: Json)
    requires HasNames(v, [])
    ensures DumpMembers(platform, v, []) == []
  {
  }

  lemma FirstMemberSize(platform: Platform, v: Json, keys: seq<string>, bound: nat)
    requires HasNames(v, keys) && keys != [] && HasNames(v, keys[1..])
    requires |keys[0]| <= 20 && |Dump(platform, v.members[keys[0]])| <= bound
    ensures |DumpMembers(platform, v, keys)| <= |DumpMembers(platform, v, keys[1..])| + bound + 200
  {
    StringSize(keys[0]);
    hide Dump, Escape, BytesOf;
  }

  lemma OneMore(n: nat, x: nat)
    ensures n * x + x == (n + 1) * x
  {
  }

  lemma {:induction false} ListLength(keys: seq<string>, names: set<string>)
    requires Lists(keys, names)
    ensures |keys| == |names|
    decreases |keys|
  {
    if keys == [] {
      assert names == {};
    } else {
      assert keys[0] in keys;
      RestLists(keys, names);
      ListLength(keys[1..], names - {keys[0]});
    }
  }

  lemma ObjectSize(platform: Platform, v: Json, bound: nat)
    requires v.Obj? && forall k | k in v.members :: |k| <= 20 && |Dump(platform, v.members[k])| <= bound
    ensures |Dump(platform, v)| <= |v.members.Keys| * (bound + 200) + 2
  {
    var keys := SortedKeys(v.members.Keys);
    ListLength(keys, v.members.Keys);
    MembersSize(platform, v, keys, bound);
    hide DumpMembers;
  }

  lemma {:induction false} ElementsBound(v: Json, keys: seq<string>, bound: nat)
    requires HasNames(v, keys) && forall k | k in keys :: Elements(v.members[k]) <= bound
    ensures MemberElements(v, keys) <= |keys| * bound
    decreases |keys|
  {
    hide Elements;
    if keys != [] {
      ElementsBound(v, keys[1..], bound);
      OneMore(|keys| - 1, bound);
    }
  }

  lemma ObjectElements(v: Json, bound: nat)
    requires v.Obj? && forall k | k in v.members :: Elements(v.members[k]) <= bound
    ensures Elements(v) <= 1 + |v.members.Keys| * bound
  {
    var keys := SortedKeys(v.members.Keys);
    ListLength(keys, v.members.Keys);
    ElementsBound(v, keys, bound);
    hide MemberElements;
  }

  // ----- A rule that grows -----

  const LONE := Comparison("title", IsNull, false, false, NO_OPERAND, NO_OPERAND, NO_OPERAND, [])

  /** A document that gives its one comparison without a group, under a name of n letters. */
  function LoneDocument(n: nat): Json {
    Obj(map["match" := DumpComparison(LONE), "name" := Str(Letters(n)), "schemaVersion" := Num(1.0)])
  }

  function LoneRule(n: nat): PlaylistRule {
    PlaylistRule(Letters(n), "", Group(And, false, [Leaf(LONE)]), [], None, true)
  }

  lemma LoneComparison(platform: Platform)
    requires Faithful(platform)
    ensures CanonicalComparison(LONE) && TextComparison(LONE)
    ensures var v := DumpComparison(LONE);
      && v == Obj(map["field" := Str("title"), "operator" := Str("isNull")])
      && ReadComparison(v) == Success(LONE) && !Has(v, "rules")
      && AllTexts(v) && NumbersSurvive(platform, v) && FitsDepth(v, 1)
      && |Dump(platform, v)| <= 1000 && Elements(v) <= 3
  {
    EmptyIsText();
    AsciiIsText("title");
    assert IsAscii("title");
    assert "title" in BuiltinFields() && !IsCustom("title");
    var v := DumpComparison(LONE);
    assert v == Obj(map["field" := Str("title"), "operator" := Str("isNull")]);
    hide IsText, BuiltinFields, IsCustom;
    assert CanonicalComparison(LONE) && TextComparison(LONE);
    ComparisonRoundTrip(LONE);
    DumpedComparisonText(LONE);
    DumpedComparison(platform, LONE);
    ComparisonDepth(LONE, 1);
    LeafHeight(LONE);
    StringSize("title");
    StringSize("isNull");
    hide DumpComparison, Faithful, CanonicalComparison, TextComparison, AllTexts, NumbersSurvive, FitsDepth;
    LoneSizes(platform, v);
  }

  lemma LoneSizes(platform: Platform, v: Json)
    requires v == Obj(map["field" := Str("title"), "operator" := Str("isNull")])
    ensures |Dump(platform, v)| <= 1000 && Elements(v) <= 3
  {
    StringSize("title");
    StringSize("isNull");
    var keys := v.members.Keys;
    assert keys == {"field", "operator"} && |keys| == 2;
    forall k | k in v.members ensures |k| <= 20 && |Dump(platform, v.members[k])| <= 40 && Elements(v.members[k]) <= 1 {
    }
    hide Dump, Elements;
    ObjectSize(platform, v, 40);
    ObjectElements(v, 1);
  }

  lemma LoneMembers(n: nat)
    ensures var doc := LoneDocument(n);
      && doc.Obj? && doc.members.Keys == {"match", "name", "schemaVersion"} && |doc.members.Keys| == 3
      && doc.members["match"] == DumpComparison(LONE)
      && doc.members["name"] == Str(Letters(n)) && doc.members["schemaVersion"] == Num(1.0)
  {
    hide DumpComparison, Letters;
    var keys := LoneDocument(n).members.Keys;
    assert keys == {"match", "name", "schemaVersion"};
  }

  lemma LoneDocumentReads(platform: Platform, n: nat)
    requires Faithful(platform)
    ensures ReadRule(LoneDocument(n)) == Success(LoneRule(n))
  {
    LoneComparison(platform);
    LoneMembers(n);
    TruncateOfInt(1);
    assert AsInt(1.0) == 1;
    hide DumpComparison, ReadGroup, AsInt, Faithful, ReadTerms, Letters, LoneDocument, ReadComparison;
    var doc := LoneDocument(n);
    hide CanonicalComparison, TextComparison, AllTexts, NumbersSurvive, FitsDepth, Dump, Elements;
    LoneParts(doc, LONE, Letters(n));
  }

  lemma LoneParts(doc: Json, c: Comparison, name: string)
    requires doc.Obj? && doc.members.Keys == {"match", "name", "schemaVersion"}
    requires doc.members["match"].Obj? && !Has(doc.members["match"], "rules")
    requires ReadComparison(doc.members["match"]) == Success(c)
    requires doc.members["name"] == Str(name) && doc.members["schemaVersion"] == Num(1.0) && AsInt(1.0) == 1
    ensures ReadRule(doc) == Success(PlaylistRule(name, "", Group(And, false, [Leaf(c)]), [], None, true))
  {
    hide ReadComparison, ReadGroup, AsInt, ReadTerms;
    assert "description" !in doc.members && "autoRefresh" !in doc.members;
    assert "orderBy" !in doc.members && "limit" !in doc.members;
    assert ReadExpression(doc.members["match"]) == Success(Group(And, false, [Leaf(c)]));
    assert ReadOrderBy(doc) == Success([]) && ReadLimit(doc) == Success(None);
    hide ReadExpression, ReadOrderBy, ReadLimit;
  }

  lemma LoneDocumentFits(platform: Platform, n: nat)
    requires Faithful(platform)
    ensures var doc := LoneDocument(n);
            AllTexts(doc) && NumbersSurvive(platform, doc) && FitsDepth(doc, 64) && Elements(doc) <= 100
  {
    LoneMembers(n);
    LoneDocumentTexts(platform, n);
    LoneDocumentShape(platform, n);
    hide *;
  }

  /** A string, as a member of a document. */
  lemma StringMember(platform: Platform, text: string, depth: nat)
    requires IsText(text)
    ensures var v := Str(text);
            AllTexts(v) && NumbersSurvive(platform, v) && FitsDepth(v, depth) && Elements(v) == 1
  {
  }

  /** The number 1, as a member of a document. */
  lemma NumberMember(platform: Platform, depth: nat)
    requires Faithful(platform)
    ensures var v := Num(1.0);
            AllTexts(v) && NumbersSurvive(platform, v) && FitsDepth(v, depth) && Elements(v) == 1
  {
    hide Faithful, Survives, IsExact;
    SmallIsExact(1);
    IntegerSurvives(platform, 1);
  }

  lemma ObjectTexts(platform: Platform, v: Json)
    requires v.Obj?
    requires forall k | k in v.members ::
               IsText(k) && AllTexts(v.members[k]) && NumbersSurvive(platform, v.members[k])
    ensures AllTexts(v) && NumbersSurvive(platform, v)
  {
  }

  lemma ObjectDepth(v: Json, depth: nat)
    requires v.Obj? && depth > 0 && forall k | k in v.members :: FitsDepth(v.members[k], depth - 1)
    ensures FitsDepth(v, depth)
  {
  }

  lemma LoneDocumentTexts(platform: Platform, n: nat)
    requires Faithful(platform)
    ensures AllTexts(LoneDocument(n)) && NumbersSurvive(platform, LoneDocument(n))
  {
    hide *;
    LoneComparison(platform);
    LoneMembers(n);
    LettersText(platform, n);
    StringMember(platform, Letters(n), 63);
    NumberMember(platform, 63);
    WordsAreText("match"); WordsAreText("name"); WordsAreText("schemaVersion");
    ObjectTexts(platform, LoneDocument(n));
  }

  lemma LoneDocumentShape(platform: Platform, n: nat)
    requires Faithful(platform)
    ensures FitsDepth(LoneDocument(n), 64) && Elements(LoneDocument(n)) <= 100
  {
    hide *;
    LoneComparison(platform);
    LoneMembers(n);
    LettersText(platform, n);
    StringMember(platform, Letters(n), 63);
    NumberMember(platform, 63);
    LoneDepth();
    ObjectDepth(LoneDocument(n), 64);
    ObjectElements(LoneDocument(n), 3);
  }

  lemma LoneDepth()
    ensures FitsDepth(DumpComparison(LONE), 63)
  {
    ComparisonDepth(LONE, 63);
    LeafHeight(LONE);
    hide DumpComparison, FitsDepth;
  }

  lemma LoneDocumentSize(platform: Platform, n: nat)
    requires Faithful(platform)
    ensures |Dump(platform, LoneDocument(n))| == |Dump(platform, LoneDocument(0))| + n
    ensures |Dump(platform, LoneDocument(0))| <= 10_000
  {
    hide *;
    LoneComparison(platform);
    LoneMembers(n);
    LoneMembers(0);
    LettersText(platform, n);
    LettersText(platform, 0);
    NumberSize(platform);
    ObjectsDiffer(platform, LoneDocument(0), LoneDocument(n), "name", n);
    ObjectSize(platform, LoneDocument(0), 1000);
  }

  lemma NumberSize(platform: Platform)
    ensures |Dump(platform, Num(1.0))| <= 1000
  {
    TruncateOfInt(1);
    ShortDecimal(1);
    hide Decimal;
  }

  /** Around a comparison the group makes the text longer. */
  lemma GroupIsLonger(platform: Platform, v: Json, g: Json)
    requires g.Obj? && "rules" in g.members && g.members["rules"] == Arr([v])
    ensures |Dump(platform, g)| > |Dump(platform, v)|
  {
    hide Dump, DumpMembers;
    var keys := SortedKeys(g.members.Keys);
    AllListed(g, keys);
    MemberInside(platform, g, keys, "rules");
    ListOfOne(platform, v);
    assert |Dump(platform, g)| == |DumpMembers(platform, g, keys)| + 2 by { ObjectLength(platform, g, keys); }
  }

  lemma ObjectLength(platform: Platform, v: Json, keys: seq<string>)
    requires v.Obj? && keys == SortedKeys(v.members.Keys) && HasNames(v, keys)
    ensures |Dump(platform, v)| == |DumpMembers(platform, v, keys)| + 2
  {
    hide DumpMembers;
  }

  lemma ListOfOne(platform: Platform, v: Json)
    ensures |Dump(platform, Arr([v]))| == |Dump(platform, v)| + 2
  {
    assert DumpItems(platform, [v]) == Dump(platform, v);
  }

  lemma LoneRuleIsLonger(platform: Platform, n: nat)
    requires n > 0
    ensures |StoreRule(platform, LoneRule(n))| > |Dump(platform, LoneDocument(n))|
  {
    var v, w := LoneDocument(n), DumpRule(LoneRule(n));
    var group := DumpNode(Branch(LoneRule(n).root));
    LoneGroup();
    GroupIsLonger(platform, DumpComparison(LONE), group);
    hide DumpComparison, DumpNode, Dump, DumpTerms;
    assert w == Obj(map["schemaVersion" := Num(1.0), "match" := group, "name" := Str(Letters(n))]);
    assert v.members.Keys == {"match", "name", "schemaVersion"} && w.members.Keys == v.members.Keys;
    hide Letters, DumpRule;
    ObjectsDiffer(platform, v, w, "match", |Dump(platform, group)| - |Dump(platform, DumpComparison(LONE))|);
  }

  lemma LoneGroup()
    ensures var g := DumpNode(Branch(Group(And, false, [Leaf(LONE)])));
            g.Obj? && "rules" in g.members && g.members["rules"] == Arr([DumpComparison(LONE)])
  {
    hide DumpComparison;
    var nodes := [Leaf(LONE)];
    assert nodes[1..] == [];
    assert DumpNodes(nodes) == [DumpComparison(LONE)];
  }

  /** A text of exactly the largest size that is loaded, and whose rule is written with a group around its one
      comparison: that text is too large to be loaded again. */
  lemma GrownRuleIsLost(platform: Platform) returns (text: Bytes, rule: PlaylistRule)
    requires Faithful(platform)
    ensures |text| == DEFAULT_LIMITS.maxBytes && LoadRule(platform, text) == Success(rule)
    ensures |StoreRule(platform, rule)| > DEFAULT_LIMITS.maxBytes
    ensures LoadRule(platform, StoreRule(platform, rule)) == Failure(NotJson(TooLarge))
  {
    hide Dump, StoreRule, LoneDocument, LoneRule, ReadRule, AllTexts, NumbersSurvive, FitsDepth, Elements, Faithful;
    LoneDocumentSize(platform, 0);
    var n := DEFAULT_LIMITS.maxBytes - |Dump(platform, LoneDocument(0))|;
    LoneDocumentSize(platform, n);
    LoneDocumentFits(platform, n);
    text, rule := Dump(platform, LoneDocument(n)), LoneRule(n);
    ParseOfDump(platform, DEFAULT_LIMITS, LoneDocument(n));
    LoneDocumentReads(platform, n);
    LoneRuleIsLonger(platform, n);
  }
}

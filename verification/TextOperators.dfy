/**
 What contains, notContains, startsWith and endsWith test, on a column and on custom tags
 (desktop/src/library/smart_playlist.cpp: the cases of compile_comparison and compile_custom).

 On a column notContains is the negation of contains.  On a custom tag both are EXISTS over the tag rows of the
 track, and a track may have several rows under one key (desktop/src/library/library_database.cpp:75-78), so
 neither is the negation of the other in general.
 */
module TextOperators {
  import opened Rules
  import opened Sql
  import opened Compilation
  import opened CompilerCorrectness
  import Like

  // ----- Rows with text in them -----

  /** The track's column holds `subject`, and LIKE compares characters by `same`. */
  ghost predicate LikeColumn(world: World, column: string, subject: string, same: (char, char) -> bool) {
    forall pattern: string, nocase: bool ::
      world.judge(Track, column, LikeP(true), [Bound(TextValue(pattern))], nocase) ==
      Truly(Like.Matches(pattern, subject, same))
  }

  function Truly(b: bool): Truth {
    if b then True else False
  }

  /** A row of the custom-tags table; `ofTrack` says whether it belongs to the track in question. */
  datatype TagRow = TagRow(ofTrack: bool, key: string, value: string)

  /** What the world judges of the tag rows: whose they are, their key exactly, their value by LIKE. */
  ghost predicate TagTable(world: World, rows: seq<TagRow>, same: (char, char) -> bool) {
    && world.tagRows == |rows|
    && (forall r | 0 <= r < |rows| :: JudgesRow(world, r, rows[r], same))
  }

  ghost predicate JudgesRow(world: World, r: nat, row: TagRow, same: (char, char) -> bool) {
    && world.judge(Tag(r), "ct.track_id", Compare(Equal), [ColumnValue("t.id")], false) == Truly(row.ofTrack)
    && (forall key: string ::
          world.judge(Tag(r), "ct.key", Compare(Equal), [Bound(TextValue(key))], false) == Truly(key == row.key))
    && (forall pattern: string ::
          world.judge(Tag(r), "ct.value", LikeP(true), [Bound(TextValue(pattern))], false) ==
          Truly(Like.Matches(pattern, row.value, same)))
  }

  /** There is such a world for any rows. */
  ghost function TagWorld(rows: seq<TagRow>, same: (char, char) -> bool): (world: World)
    ensures TagTable(world, rows, same)
  {
    World((scope: Scope, column: string, p: Predicate, args: seq<Value>, nocase: bool) =>
            if scope.Tag? && scope.row < |rows| then TagJudgement(rows[scope.row], column, args, same) else Unknown,
          |rows|)
  }

  ghost function TagJudgement(row: TagRow, column: string, args: seq<Value>, same: (char, char) -> bool): Truth {
    if column == "ct.track_id" then Truly(row.ofTrack)
    else if |args| == 1 && args[0].Bound? && args[0].value.TextValue? then
      if column == "ct.key" then Truly(args[0].value.text == row.key)
      else Truly(Like.Matches(args[0].value.text, row.value, same))
    else Unknown
  }

  // ----- What the operators test -----

  /** The test an operator makes of one text. */
  ghost predicate TextTest(op: FieldOp, text: string, subject: string, same: (char, char) -> bool) {
    match op
    case NotContains => !(exists k: nat :: Like.OccursAt(text, subject, k, same))
    case StartsWith => |text| <= |subject| && Like.SameText(text, subject[..|text|], same)
    case EndsWith => |text| <= |subject| && Like.SameText(text, subject[|subject| - |text|..], same)
    case _ => exists k: nat :: Like.OccursAt(text, subject, k, same)
  }

  function TagKey(field: string): string
    requires IsCustom(field)
  {
    field[|CUSTOM|..]
  }

  /** The rows of the track under a key. */
  predicate HasKey(rows: seq<TagRow>, key: string, r: nat) {
    r < |rows| && rows[r].ofTrack && rows[r].key == key
  }

  ghost predicate SomeTag(op: FieldOp, text: string, key: string, rows: seq<TagRow>, same: (char, char) -> bool) {
    exists r: nat | HasKey(rows, key, r) :: TextTest(op, text, rows[r].value, same)
  }

  /** The pattern built for an operator matches exactly the subjects that pass its test. */
  lemma PatternTests(op: FieldOp, text: string, subject: string, same: (char, char) -> bool)
    requires IsLike(op)
    ensures (Like.Matches(PatternFor(op, text), subject, same) != IsNegative(op)) <==> TextTest(op, text, subject, same)
  {
    hide Like.Escaped, Like.Matches, Like.SameText, Like.OccursAt;
    Like.ContainsPattern(text, subject, same);
    Like.StartsWithPattern(text, subject, same);
    Like.EndsWithPattern(text, subject, same);
  }

  /** On a column: the test of the user's own text, wildcards and backslashes included. */
  lemma ColumnTextMeaning(c: Comparison, world: World, subject: string, same: (char, char) -> bool)
    requires !IsCustom(c.field) && IsLike(c.op) && Operands(c).Success?
    requires LikeColumn(world, TableColumn(c), subject, same)
    ensures ComparisonTruth(c, world) == Negate(c.negated, Truly(TextTest(c.op, c.value.text, subject, same)))
  {
    var pattern := PatternFor(c.op, c.value.text);
    assert Operands(c).value == [TextValue(pattern)];
    assert AllBound([TextValue(pattern)]) == [Bound(TextValue(pattern))];
    hide Operands, TableColumn, NoCase, PatternFor, TextTest, Like.Matches;
    PatternTests(c.op, c.value.text, subject, same);
    assert world.judge(Track, TableColumn(c), LikeP(true), [Bound(TextValue(pattern))], NoCase(c)) ==
           Truly(Like.Matches(pattern, subject, same));
  }

  /** On a custom tag: some row of the track under the key passes the test. */
  lemma TagTextMeaning(c: Comparison, world: World, rows: seq<TagRow>, same: (char, char) -> bool)
    requires IsCustom(c.field) && IsLike(c.op) && Operands(c).Success?
    requires TagTable(world, rows, same)
    ensures ComparisonTruth(c, world) ==
            Negate(c.negated, Truly(SomeTag(c.op, c.value.text, TagKey(c.field), rows, same)))
  {
    var pattern := PatternFor(c.op, c.value.text);
    var values := [TextValue(TagKey(c.field)), TextValue(pattern)];
    assert Operands(c).value == values;
    hide Operands, PatternFor, TextTest, Like.Matches, TagTable;
    forall r: nat | r < world.tagRows
      ensures r < |rows|
      ensures TagRowMatches(c.op, values, world, r) <==>
              HasKey(rows, TagKey(c.field), r) && TextTest(c.op, c.value.text, rows[r].value, same)
    {
      RowMatches(c.op, TagKey(c.field), c.value.text, world, rows, same, r);
    }
    assert world.tagRows == |rows| by { TableSize(world, rows, same); }
    hide TagRowMatches;
  }

  lemma TableSize(world: World, rows: seq<TagRow>, same: (char, char) -> bool)
    requires TagTable(world, rows, same)
    ensures world.tagRows == |rows|
  {
  }

  lemma RowMatches(op: FieldOp, key: string, text: string, world: World, rows: seq<TagRow>,
                   same: (char, char) -> bool, r: nat)
    requires IsLike(op) && TagTable(world, rows, same) && r < world.tagRows
    ensures r < |rows|
    ensures TagRowMatches(op, [TextValue(key), TextValue(PatternFor(op, text))], world, r) <==>
            HasKey(rows, key, r) && TextTest(op, text, rows[r].value, same)
  {
    assert JudgesRow(world, r, rows[r], same);
    PatternTests(op, text, rows[r].value, same);
    hide PatternFor, TextTest, Like.Matches;
  }

  /** What a text operator means for every rule that compiles: on a column the test of its text, on a custom
      tag that some row under the key passes it. */
  lemma TextOperatorMeaning(
      c: Comparison, world: World, subject: string, rows: seq<TagRow>, same: (char, char) -> bool)
    requires IsLike(c.op) && Operands(c).Success?
    requires if IsCustom(c.field) then TagTable(world, rows, same)
             else LikeColumn(world, TableColumn(c), subject, same)
    ensures ComparisonTruth(c, world) ==
            Negate(c.negated,
                   Truly(if IsCustom(c.field) then SomeTag(c.op, c.value.text, TagKey(c.field), rows, same)
                         else TextTest(c.op, c.value.text, subject, same)))
  {
    hide ComparisonTruth, Operands, TagTable, LikeColumn, SomeTag, TextTest, TableColumn;
    if IsCustom(c.field) {
      TagTextMeaning(c, world, rows, same);
    } else {
      ColumnTextMeaning(c, world, subject, same);
    }
  }

  // ----- When notContains is the negation of contains -----

  /** On a column it always is, whatever the row holds. */
  lemma ColumnNotContains(c: Comparison, world: World)
    requires !IsCustom(c.field) && c.op == Contains && Operands(c).Success?
    ensures Operands(c.(op := NotContains)) == Operands(c)
    ensures ComparisonTruth(c.(op := NotContains), world) == TNot(ComparisonTruth(c, world))
  {
    var d := c.(op := NotContains);
    assert TableColumn(d) == TableColumn(c) && NoCase(d) == NoCase(c);
    hide TableColumn, NoCase, AllBound;
  }

  /** The rows of the track under the key agree on the test, and there is one. */
  ghost predicate TagsAgree(text: string, key: string, rows: seq<TagRow>, same: (char, char) -> bool) {
    && (exists r: nat :: HasKey(rows, key, r))
    && forall r: nat, q: nat | HasKey(rows, key, r) && HasKey(rows, key, q) ::
         TextTest(Contains, text, rows[r].value, same) == TextTest(Contains, text, rows[q].value, same)
  }

  /** On a custom tag it is exactly when the track has the tag and its values under it agree. */
  lemma TagNotContains(c: Comparison, world: World, rows: seq<TagRow>, same: (char, char) -> bool)
    requires IsCustom(c.field) && c.op == Contains && Operands(c).Success? && TagTable(world, rows, same)
    ensures Operands(c.(op := NotContains)) == Operands(c)
    ensures ComparisonTruth(c.(op := NotContains), world) == TNot(ComparisonTruth(c, world)) <==>
            TagsAgree(c.value.text, TagKey(c.field), rows, same)
  {
    var d := c.(op := NotContains);
    TagTextMeaning(c, world, rows, same);
    TagTextMeaning(d, world, rows, same);
    hide ComparisonTruth, Operands, TagTable;
    var text, key := c.value.text, TagKey(c.field);
    assert forall r: nat | r < |rows| ::
        TextTest(NotContains, text, rows[r].value, same) <==> !TextTest(Contains, text, rows[r].value, same);
    hide TextTest, HasKey;
    OppositeExists(text, key, rows, same);
  }

  lemma OppositeExists(text: string, key: string, rows: seq<TagRow>, same: (char, char) -> bool)
    ensures (SomeTag(NotContains, text, key, rows, same) <==> !SomeTag(Contains, text, key, rows, same)) <==>
            TagsAgree(text, key, rows, same)
  {
    hide Like.OccursAt;
    if r: nat :| HasKey(rows, key, r) {
      assert TextTest(NotContains, text, rows[r].value, same) <==> !TextTest(Contains, text, rows[r].value, same);
    }
  }

  /** A track with two moods: it contains "calm" and it does not. */
  lemma TwoTagsContainAndNot(world: World, same: (char, char) -> bool)
    requires TagTable(world, [TagRow(true, "mood", "calm"), TagRow(true, "mood", "wild")], same)
    requires same('c', 'c') && same('a', 'a') && same('l', 'l') && same('m', 'm') && !same('c', 'w')
    ensures var c := Comparison("custom:mood", Contains, false, false, Text("calm"), NO_OPERAND, NO_OPERAND, []);
            && Operands(c).Success? && Operands(c.(op := NotContains)).Success?
            && ComparisonTruth(c, world) == True && ComparisonTruth(c.(op := NotContains), world) == True
  {
    var rows := [TagRow(true, "mood", "calm"), TagRow(true, "mood", "wild")];
    var c := Comparison("custom:mood", Contains, false, false, Text("calm"), NO_OPERAND, NO_OPERAND, []);
    hide ComparisonTruth, TagTable, TextTest, TagKey, IsCustom, Operands;
    MoodKey();
    CalmIsNotWild(same);
    assert HasKey(rows, "mood", 0) && HasKey(rows, "mood", 1);
    BothHold(c, world, rows, same, 0, 1);
  }

  lemma MoodKey()
    ensures IsCustom("custom:mood") && TagKey("custom:mood") == "mood"
  {
    var field := "custom:" + "mood";
    assert field == "custom:mood";
    assert field[|CUSTOM|..] == "mood";
  }

  lemma BothHold(c: Comparison, world: World, rows: seq<TagRow>, same: (char, char) -> bool, r: nat, q: nat)
    requires IsCustom(c.field) && c.op == Contains && !c.negated && c.value.Text? && TagTable(world, rows, same)
    requires HasKey(rows, TagKey(c.field), r) && TextTest(Contains, c.value.text, rows[r].value, same)
    requires HasKey(rows, TagKey(c.field), q) && TextTest(NotContains, c.value.text, rows[q].value, same)
    ensures Operands(c).Success? && Operands(c.(op := NotContains)).Success?
    ensures ComparisonTruth(c, world) == True && ComparisonTruth(c.(op := NotContains), world) == True
  {
    assert Operands(c).Success? && Operands(c.(op := NotContains)).Success?;
    hide ComparisonTruth, TagTable, TextTest, HasKey, Operands;
    TagTextMeaning(c, world, rows, same);
    TagTextMeaning(c.(op := NotContains), world, rows, same);
  }

  lemma CalmIsNotWild(same: (char, char) -> bool)
    requires same('c', 'c') && same('a', 'a') && same('l', 'l') && same('m', 'm') && !same('c', 'w')
    ensures TextTest(Contains, "calm", "calm", same) && TextTest(NotContains, "calm", "wild", same)
  {
    assert "calm"[0..4] == "calm" && "wild"[0..4] == "wild";
    assert Like.SameText("calm", "calm", same);
    assert Like.OccursAt("calm", "calm", 0, same);
    assert "calm"[0] == 'c' && "wild"[0] == 'w';
    assert forall k: nat :: !Like.OccursAt("calm", "wild", k, same);
  }
}
